/** Vocabulary shared by every store: optional values, results, machine integers, and the
    byte-wise order that Go and the index keys use on strings. */
module Base {
  datatype Option<+T> = None | Some(value: T)

  datatype Error =
    | NotConnected
    | InsertFailed
    | DeleteFailed
    | BeginFailed
    | MarshalFailed
    | BuildFailed
    | UnmarshalFailed
    | ExecFailed
    | RollbackFailed
    | CommitFailed
    | QueryFailed
    | Undefined

  datatype Result<+T> = Ok(value: T) | Err(error: Error)

  const TWO_63: int := 0x8000_0000_0000_0000
  const TWO_64: int := 0x1_0000_0000_0000_0000

  type uint64 = x: int | 0 <= x < TWO_64
  type int64 = x: int | -TWO_63 <= x < TWO_63

  // A BIGINT column, parameter or LIMIT holds unsigned values below 2^63 only.
  predicate FitsBigint(x: uint64) {
    x < TWO_63
  }

  // A VARCHAR(255) column.
  predicate FitsVarchar(s: string) {
    |s| <= 255
  }

  // A string field that has a value; the index of a missing value is what makes an insert fail.
  predicate Present(s: string) {
    |s| > 0
  }

  function Min(a: int, b: int): int {
    if a <= b then a else b
  }

  // Lexicographic order on strings.
  predicate StrLe(a: string, b: string) {
    if a == [] then true
    else if b == [] then false
    else a[0] < b[0] || (a[0] == b[0] && StrLe(a[1..], b[1..]))
  }

  predicate StrLt(a: string, b: string) {
    StrLe(a, b) && a != b
  }

  lemma {:induction false} StrLeReflexive(a: string)
    ensures StrLe(a, a)
  {
    if a != [] {
      StrLeReflexive(a[1..]);
    }
  }

  lemma {:induction false} StrLeAntisymmetric(a: string, b: string)
    requires StrLe(a, b) && StrLe(b, a)
    ensures a == b
  {
    if a != [] && b != [] {
      StrLeAntisymmetric(a[1..], b[1..]);
      assert a == [a[0]] + a[1..] && b == [b[0]] + b[1..];
    }
  }

  lemma {:induction false} StrLeTransitive(a: string, b: string, c: string)
    requires StrLe(a, b) && StrLe(b, c)
    ensures StrLe(a, c)
  {
    if a != [] && b != [] && c != [] && a[0] == b[0] == c[0] {
      StrLeTransitive(a[1..], b[1..], c[1..]);
    }
  }

  lemma {:induction false} StrLeTotal(a: string, b: string)
    ensures StrLe(a, b) || StrLe(b, a)
  {
    if a != [] && b != [] && a[0] == b[0] {
      StrLeTotal(a[1..], b[1..]);
    }
  }

  lemma StrLtIff(a: string, b: string)
    ensures StrLt(a, b) <==> !StrLe(b, a)
  {
  }

  lemma StrLtTransitive(a: string, b: string, c: string)
    requires StrLe(a, b) && StrLt(b, c)
    ensures StrLt(a, c)
  {
    StrLeTransitive(a, b, c);
    if a == c {
      StrLeAntisymmetric(b, c);
    }
  }

  // The order is decided where two strings first differ; a string that ends there comes first.
  lemma {:induction false} FirstDifference(common: string, a: string, b: string)
    requires a == [] || b == [] || a[0] != b[0]
    ensures StrLe(common + a, common + b) <==> a == [] || (b != [] && a[0] < b[0])
  {
    if common == [] {
      assert common + a == a && common + b == b;
    } else {
      assert (common + a)[1..] == common[1..] + a && (common + b)[1..] == common[1..] + b;
      FirstDifference(common[1..], a, b);
    }
  }

  // The order facts as one bundle, for proofs that compare many ids.
  lemma StrOrder()
    ensures forall a, b {:trigger StrLe(a, b)} :: StrLe(a, b) || StrLe(b, a)
    ensures forall a, b {:trigger StrLe(a, b), StrLe(b, a)} :: StrLe(a, b) && StrLe(b, a) ==> a == b
    ensures forall a, b, c {:trigger StrLe(a, b), StrLe(b, c)} :: StrLe(a, b) && StrLe(b, c) ==> StrLe(a, c)
    ensures forall b {:trigger StrLe("", b)} :: StrLe("", b)
  {
    forall a, b ensures StrLe(a, b) || StrLe(b, a) {
      StrLeTotal(a, b);
    }
    forall a, b | StrLe(a, b) && StrLe(b, a) ensures a == b {
      StrLeAntisymmetric(a, b);
    }
    forall a, b, c | StrLe(a, b) && StrLe(b, c) ensures StrLe(a, c) {
      StrLeTransitive(a, b, c);
    }
  }
}
