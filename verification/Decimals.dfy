/** The decimal number attributes of the DynamoDB durable store (durablestore/dynamodb/dynamodb.go):
    what fmt prints for an integer and what strconv reads back, errors dropped. */
module Decimals {
  import opened Base

  // ----- Printing -----

  function DigitChar(d: nat): char
    requires d < 10
  {
    '0' + d as char
  }

  function Digits(n: nat): (s: string)
    ensures |s| >= 1
  {
    if n < 10 then [DigitChar(n)] else Digits(n / 10) + [DigitChar(n % 10)]
  }

  function PrintInt(n: int): string {
    if n < 0 then "-" + Digits(-n) else Digits(n)
  }

  // ----- Parsing -----

  // strconv gives a value even with an error: zero for bad syntax, the nearest bound out of range.
  datatype Parsed = Good(n: int) | BadSyntax | OutOfRange(bound: int) {
    function Value(): int {
      match this
      case Good(n) => n
      case BadSyntax => 0
      case OutOfRange(bound) => bound
    }
  }

  predicate IsDigit(c: char) {
    '0' <= c <= '9'
  }

  function DigitValue(c: char): nat
    requires IsDigit(c)
  {
    (c - '0') as nat
  }

  // The digits left to right, stopping at the first that is none or that overflows.
  function Scan(s: string, n: nat): Parsed {
    if s == [] then Good(n)
    else if !IsDigit(s[0]) then BadSyntax
    else if n * 10 + DigitValue(s[0]) >= TWO_64 then OutOfRange(TWO_64 - 1)
    else Scan(s[1..], n * 10 + DigitValue(s[0]))
  }

  function ParseUint(s: string): Parsed {
    if s == [] then BadSyntax else Scan(s, 0)
  }

  function ParseInt(s: string): Parsed {
    if s == [] then BadSyntax
    else
      var negative := s[0] == '-';
      match ParseUint(if s[0] == '+' || s[0] == '-' then s[1..] else s)
      case BadSyntax => BadSyntax
      case parsed =>
        var magnitude := parsed.Value();
        if !negative && magnitude >= TWO_63 then OutOfRange(TWO_63 - 1)
        else if negative && magnitude > TWO_63 then OutOfRange(-TWO_63)
        else Good(if negative then -magnitude else magnitude)
  }

  // ----- What the digits mean -----

  predicate AllDigits(s: string) {
    forall i :: 0 <= i < |s| ==> IsDigit(s[i])
  }

  // Positional value, from the right.
  function ValueOf(s: string): nat
    requires AllDigits(s)
  {
    if s == [] then 0 else ValueOf(s[..|s| - 1]) * 10 + DigitValue(s[|s| - 1])
  }

  // Scanning goes on after n exactly as if n's digits had come first.
  lemma {:induction false} ScanMeansValue(s: string, done: string)
    requires AllDigits(done) && ValueOf(done) < TWO_64
    ensures Scan(s, ValueOf(done)).Good? <==> AllDigits(s) && ValueOf(done + s) < TWO_64
    ensures Scan(s, ValueOf(done)).Good? ==> AllDigits(done + s) && Scan(s, ValueOf(done)).n == ValueOf(done + s)
    decreases |s|
  {
    if s == [] {
      assert done + s == done;
    } else if IsDigit(s[0]) {
      var more := done + [s[0]];
      assert more[..|more| - 1] == done;
      assert more + s[1..] == done + s;
      assert ValueOf(more) == ValueOf(done) * 10 + DigitValue(s[0]);
      if ValueOf(more) < TWO_64 {
        ScanMeansValue(s[1..], more);
        assert AllDigits(s[1..]) ==> AllDigits(s);
      } else if AllDigits(s) {
        PrefixValue(more, s[1..]);
      }
    }
  }

  lemma {:induction false} PrefixValue(a: string, b: string)
    requires AllDigits(a) && AllDigits(b)
    ensures AllDigits(a + b) && ValueOf(a + b) >= ValueOf(a)
  {
    if b == [] {
      assert a + b == a;
    } else {
      var n := |b| - 1;
      PrefixValue(a, b[..n]);
      assert (a + b)[..|a + b| - 1] == a + b[..n];
    }
  }

  /** A string parses without error exactly when it is digits whose value fits 64 bits, and then to
      that value. */
  lemma ParseUintExactly(s: string)
    ensures ParseUint(s).Good? <==> s != [] && AllDigits(s) && ValueOf(s) < TWO_64
    ensures ParseUint(s).Good? ==> ParseUint(s).n == ValueOf(s)
  {
    ScanMeansValue(s, []);
    assert [] + s == s;
  }

  // Some front part of s is digits that, after those done, exceed 64 bits.
  ghost predicate Overflows(s: string, done: string)
    requires AllDigits(done)
  {
    exists k :: 0 <= k <= |s| && AllDigits(done + s[..k]) && ValueOf(done + s[..k]) >= TWO_64
  }

  lemma NoOverflow(s: string, done: string)
    requires AllDigits(done) && ValueOf(done) < TWO_64 && (s == [] || !IsDigit(s[0]))
    ensures !Overflows(s, done)
  {
    hide ValueOf;
    assert done + s[..0] == done;
    forall k | 1 <= k <= |s| ensures !AllDigits(done + s[..k]) {
      assert (done + s[..k])[|done|] == s[0];
    }
  }

  lemma OverflowShifts(s: string, done: string)
    requires AllDigits(done) && ValueOf(done) < TWO_64 && s != [] && IsDigit(s[0])
    ensures Overflows(s, done) <==> Overflows(s[1..], done + [s[0]])
  {
    hide ValueOf;
    var more := done + [s[0]];
    assert done + s[..0] == done;
    if Overflows(s, done) {
      var k :| 0 <= k <= |s| && AllDigits(done + s[..k]) && ValueOf(done + s[..k]) >= TWO_64;
      FrontShifts(s, done, k);
    }
    if Overflows(s[1..], more) {
      var k :| 0 <= k <= |s[1..]| && AllDigits(more + s[1..][..k]) && ValueOf(more + s[1..][..k]) >= TWO_64;
      FrontShifts(s, done, k + 1);
    }
  }

  lemma FrontShifts(s: string, done: string, k: nat)
    requires 1 <= k <= |s|
    ensures done + [s[0]] + s[1..][..k - 1] == done + s[..k]
  {
    assert s[..k] == [s[0]] + s[1..][..k - 1];
  }

  lemma OneMoreDigit(done: string, c: char)
    requires AllDigits(done) && IsDigit(c)
    ensures AllDigits(done + [c]) && ValueOf(done + [c]) == ValueOf(done) * 10 + DigitValue(c)
  {
    assert (done + [c])[..|done|] == done;
  }

  lemma {:induction false} ScanOverflows(s: string, done: string)
    requires AllDigits(done) && ValueOf(done) < TWO_64
    ensures Scan(s, ValueOf(done)).OutOfRange? <==> Overflows(s, done)
    ensures Scan(s, ValueOf(done)).OutOfRange? ==> Scan(s, ValueOf(done)).bound == TWO_64 - 1
    decreases |s|
  {
    hide ValueOf, Overflows;
    if s == [] || !IsDigit(s[0]) {
      NoOverflow(s, done);
    } else {
      var more := done + [s[0]];
      OneMoreDigit(done, s[0]);
      OverflowShifts(s, done);
      if ValueOf(more) < TWO_64 {
        ScanOverflows(s[1..], more);
      } else {
        OverflowNow(s[1..], more);
      }
    }
  }

  lemma OverflowNow(s: string, done: string)
    requires AllDigits(done) && ValueOf(done) >= TWO_64
    ensures Overflows(s, done)
  {
    assert done + s[..0] == done;
  }

  lemma OverflowsAtStart(s: string)
    ensures Overflows(s, []) <==>
      exists k :: 0 <= k <= |s| && AllDigits(s[..k]) && ValueOf(s[..k]) >= 0x1_0000_0000_0000_0000
  {
    hide ValueOf;
    forall k | 0 <= k <= |s| ensures [] + s[..k] == s[..k] {
    }
    if k :| 0 <= k <= |s| && AllDigits(s[..k]) && ValueOf(s[..k]) >= 0x1_0000_0000_0000_0000 {
      assert AllDigits([] + s[..k]) && ValueOf([] + s[..k]) >= TWO_64;
    }
  }

  /** What is kept of a text that does not parse: the greatest number if a front part of it is digits
      beyond 64 bits, and otherwise zero. */
  lemma ParseUintKeeps(s: string)
    requires !ParseUint(s).Good?
    ensures ParseUint(s).Value() ==
      if exists k :: 0 <= k <= |s| && AllDigits(s[..k]) && ValueOf(s[..k]) >= 0x1_0000_0000_0000_0000
      then 0xffff_ffff_ffff_ffff else 0
  {
    ScanOverflows(s, []);
    OverflowsAtStart(s);
  }

  // The sign is dropped, a text without one is whole.
  function Unsigned(s: string): string {
    if s != [] && (s[0] == '+' || s[0] == '-') then s[1..] else s
  }

  /** With an optional sign, digits whose value fits a signed 64-bit number parse to it; nothing else
      parses without an error. */
  lemma ParseIntExactly(s: string)
    ensures var digits := Unsigned(s);
      ParseInt(s).Good? <==>
        && digits != [] && AllDigits(digits)
        && ValueOf(digits) <= (if s[0] == '-' then 0x8000_0000_0000_0000 else 0x7fff_ffff_ffff_ffff)
    ensures ParseInt(s).Good? ==>
      ParseInt(s).n == if s[0] == '-' then 0 - (ValueOf(Unsigned(s)) as int) else ValueOf(Unsigned(s))
  {
    hide ValueOf, Scan;
    if s != [] {
      ParseUintExactly(Unsigned(s));
      ParsedFits(Unsigned(s));
      OutOfRangeExactly(Unsigned(s));
    }
  }

  lemma OutOfRangeExactly(s: string)
    ensures ParseUint(s).OutOfRange? <==> Overflows(s, [])
    ensures ParseUint(s).OutOfRange? ==> ParseUint(s).Value() == TWO_64 - 1
  {
    NoDigits();
    ScanOverflows(s, []);
  }

  /** What is kept of a text that does not parse: the bound on the side of its sign if a front part of
      its digits is beyond 64 bits or all of it is digits, and otherwise zero. */
  lemma ParseIntKeeps(s: string)
    requires !ParseInt(s).Good?
    ensures var digits := Unsigned(s);
      var tooLarge := exists k :: 0 <= k <= |digits| && AllDigits(digits[..k]) && ValueOf(digits[..k]) >= 0x1_0000_0000_0000_0000;
      ParseInt(s).Value() ==
        if !tooLarge && (digits == [] || !AllDigits(digits)) then 0
        else if s[0] == '-' then -0x8000_0000_0000_0000
        else 0x7fff_ffff_ffff_ffff
  {
    hide ValueOf, Scan, Overflows, ParseUint;
    var digits := Unsigned(s);
    ParseUintExactly(digits);
    ParsedFits(digits);
    OverflowsAtStart(digits);
    OutOfRangeExactly(digits);
    assert digits[..|digits|] == digits;
    if digits == [] {
      NoDigits();
      NoOverflow(digits, []);
    }
  }

  lemma NoDigits()
    ensures ValueOf([]) == 0
  {
  }

  lemma {:induction false} DigitsMeanNumber(n: nat)
    ensures AllDigits(Digits(n)) && ValueOf(Digits(n)) == n
  {
    var s := Digits(n);
    if n >= 10 {
      DigitsMeanNumber(n / 10);
      assert s[..|s| - 1] == Digits(n / 10);
    } else {
      assert s[..0] == [];
    }
  }

  // The digits are the usual ones, and a minus sign marks a negative number.
  lemma OneDigit(d: int)
    requires 0 <= d < 10
    ensures Digits(d) == ["0123456789"[d]] && PrintInt(-d) == if d == 0 then "0" else ['-', "0123456789"[d]]
  {
  }

  /** Every unsigned 64-bit number reads back as itself, without an error to drop. */
  lemma UintRoundTrip(n: uint64)
    ensures ParseUint(Digits(n)) == Good(n)
  {
    DigitsMeanNumber(n);
    ParseUintExactly(Digits(n));
  }

  /** Every signed 64-bit number, the least one included, reads back as itself. */
  lemma IntRoundTrip(n: int64)
    ensures ParseInt(PrintInt(n)) == Good(n)
  {
    hide Digits, ParseUint, ValueOf;
    var magnitude: int := if n < 0 then -(n as int) else n;
    UintRoundTrip(magnitude);
    DigitsMeanNumber(magnitude);
    var s := PrintInt(n);
    if n < 0 {
      assert s[1..] == Digits(magnitude);
    } else {
      assert IsDigit(s[0]);
    }
  }

  predicate Canonical(s: string) {
    s == "0" || (s != [] && s[0] != '0')
  }

  lemma {:induction false} CanonicalDigits(s: string)
    requires s != [] && AllDigits(s) && s[0] != '0'
    ensures ValueOf(s) >= 1 && Digits(ValueOf(s)) == s
  {
    var n := |s| - 1;
    var last := DigitValue(s[n]);
    assert s == s[..n] + [s[n]];
    if n == 0 {
      assert ValueOf(s[..0]) == 0;
    } else {
      CanonicalDigits(s[..n]);
      assert (ValueOf(s[..n]) * 10 + last) / 10 == ValueOf(s[..n]);
    }
  }

  lemma {:induction false} DigitsCanonical(n: nat)
    ensures Canonical(Digits(n))
    ensures n >= 1 ==> Digits(n)[0] != '0'
  {
    if n >= 10 {
      DigitsCanonical(n / 10);
    }
  }

  /** The inverse direction: printing what was read gives the string back exactly when it has no
      superfluous leading zero. */
  lemma PrintOfParse(s: string)
    requires ParseUint(s).Good?
    ensures PrintInt(ParseUint(s).n) == s <==> Canonical(s)
  {
    ParseUintExactly(s);
    DigitsCanonical(ValueOf(s));
    if Canonical(s) && s != "0" {
      CanonicalDigits(s);
    } else if s == "0" {
      assert s[..0] == [];
    }
  }

  // ----- Items -----

  datatype Item = Item(
    persistenceID: string,
    versionNumber: uint64,
    statePayload: string,
    stateManifest: string,
    timestamp: int64,
    shardNumber: uint64)

  datatype AttributeValue = S(s: string) | N(n: string) | B(b: string)

  function Encode(item: Item): map<string, AttributeValue> {
    map["PersistenceID" := S(item.persistenceID),
        "VersionNumber" := N(Digits(item.versionNumber)),
        "StatePayload" := B(item.statePayload),
        "StateManifest" := S(item.stateManifest),
        "Timestamp" := N(PrintInt(item.timestamp)),
        "ShardNumber" := N(Digits(item.shardNumber))]
  }

  // The attributes GetItem takes by name, with the types it asserts.
  predicate HasFields(attributes: map<string, AttributeValue>) {
    && "VersionNumber" in attributes && attributes["VersionNumber"].N?
    && "StatePayload" in attributes && attributes["StatePayload"].B?
    && "StateManifest" in attributes && attributes["StateManifest"].S?
    && "Timestamp" in attributes && attributes["Timestamp"].N?
    && "ShardNumber" in attributes && attributes["ShardNumber"].N?
  }

  // The fields as integers; a parsed value always fits its type.
  function Decode(persistenceID: string, attributes: map<string, AttributeValue>): Item
    requires HasFields(attributes)
  {
    ParsedFits(attributes["VersionNumber"].n);
    ParsedFits(attributes["ShardNumber"].n);
    ParsedFits(attributes["Timestamp"].n);
    Item(
      persistenceID,
      ParseUint(attributes["VersionNumber"].n).Value(),
      attributes["StatePayload"].b,
      attributes["StateManifest"].s,
      ParseInt(attributes["Timestamp"].n).Value(),
      ParseUint(attributes["ShardNumber"].n).Value())
  }

  // Errors or not, what is kept of a parse fits 64 bits.
  lemma ParsedFits(s: string)
    ensures 0 <= ParseUint(s).Value() < TWO_64
    ensures -TWO_63 <= ParseInt(s).Value() < TWO_63
  {
    ScanFits(s, 0);
    if s != [] {
      ScanFits(s[1..], 0);
    }
  }

  lemma {:induction false} ScanFits(s: string, n: nat)
    requires n < TWO_64
    ensures 0 <= Scan(s, n).Value() < TWO_64
    decreases |s|
  {
    if s != [] && IsDigit(s[0]) && n * 10 + DigitValue(s[0]) < TWO_64 {
      ScanFits(s[1..], n * 10 + DigitValue(s[0]));
    }
  }

  /** The exact item comes back: the parse errors that are dropped never happen on a stored item. */
  lemma ItemRoundTrip(item: Item)
    ensures HasFields(Encode(item))
    ensures Decode(item.persistenceID, Encode(item)) == item
  {
    hide Digits, PrintInt, ParseUint, ParseInt;
    UintRoundTrip(item.versionNumber);
    UintRoundTrip(item.shardNumber);
    IntRoundTrip(item.timestamp);
  }

  lemma EncodedFields(item: Item)
    ensures var a := Encode(item);
      && a.Keys == {"PersistenceID", "VersionNumber", "StatePayload", "StateManifest", "Timestamp", "ShardNumber"}
      && a["PersistenceID"] == S(item.persistenceID) && a["VersionNumber"] == N(Digits(item.versionNumber))
      && a["StatePayload"] == B(item.statePayload) && a["StateManifest"] == S(item.stateManifest)
      && a["Timestamp"] == N(PrintInt(item.timestamp)) && a["ShardNumber"] == N(Digits(item.shardNumber))
  {
    hide Digits, PrintInt;
  }

  class Database {
    var table: map<string, map<string, AttributeValue>>
    ghost var items: map<string, Item>  // what was upserted last under each id

    ghost predicate Valid()
      reads this
    {
      && table.Keys == items.Keys
      && forall id :: id in table ==> items[id].persistenceID == id && table[id] == Encode(items[id])
    }

    constructor ()
      ensures Valid() && items == map[]
    {
      table, items := map[], map[];
    }

    method UpsertItem(item: Item, up: bool) returns (r: Result<()>)
      requires Valid()
      modifies this
      ensures Valid()
      ensures r.Ok? <==> up
      ensures items == if up then old(items)[item.persistenceID := item] else old(items)
      ensures !up ==> table == old(table)
      ensures up ==> table.Keys == old(table).Keys + {item.persistenceID}
      ensures up ==> forall id :: id in old(table) && id != item.persistenceID ==> table[id] == old(table)[id]
      // under the id, each field has its attribute, numbers in decimal
      ensures up ==>
        var a := table[item.persistenceID];
        && a.Keys == {"PersistenceID", "VersionNumber", "StatePayload", "StateManifest", "Timestamp", "ShardNumber"}
        && a["PersistenceID"] == S(item.persistenceID) && a["VersionNumber"] == N(Digits(item.versionNumber))
        && a["StatePayload"] == B(item.statePayload) && a["StateManifest"] == S(item.stateManifest)
        && a["Timestamp"] == N(PrintInt(item.timestamp)) && a["ShardNumber"] == N(Digits(item.shardNumber))
    {
      hide Encode, Digits, PrintInt;
      if !up {
        return Err(ExecFailed);
      }
      EncodedFields(item);
      table := table[item.persistenceID := Encode(item)];
      items := items[item.persistenceID := item];
      return Ok(());
    }

    method GetItem(persistenceID: string, up: bool) returns (r: Result<Option<Item>>)
      requires Valid()
      ensures !up ==> r == Err(QueryFailed)
      ensures up ==> r == Ok(if persistenceID in items then Some(items[persistenceID]) else None)
    {
      hide Encode, Decode, HasFields;
      if !up {
        return Err(QueryFailed);
      }
      if persistenceID !in table {
        return Ok(None);
      }
      ItemRoundTrip(items[persistenceID]);
      return Ok(Some(Decode(persistenceID, table[persistenceID])));
    }
  }
}
