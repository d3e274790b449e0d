/** Filtering, ordering and cutting of sequences: the shape of every query in the repository. */
module Sequences {
  import opened Base

  function Filter<T>(s: seq<T>, p: T -> bool): (r: seq<T>)
    ensures |r| <= |s|
  {
    if s == [] then []
    else
      var rest := Filter(s[..|s| - 1], p);
      if p(s[|s| - 1]) then rest + [s[|s| - 1]] else rest
  }

  function Flatten<T>(parts: seq<seq<T>>): seq<T> {
    if parts == [] then [] else Flatten(parts[..|parts| - 1]) + parts[|parts| - 1]
  }

  function Take<T>(s: seq<T>, n: nat): (r: seq<T>) {
    s[..Min(n, |s|)]
  }

  lemma {:induction false} FilterMembers<T>(s: seq<T>, p: T -> bool)
    ensures forall x :: x in Filter(s, p) ==> x in s && p(x)
    ensures forall x :: x in s && p(x) ==> x in Filter(s, p)
  {
    if s != [] {
      var n := |s| - 1;
      assert s == s[..n] + [s[n]];
      FilterMembers(s[..n], p);
    }
  }

  lemma {:induction false} FilterConcat<T>(a: seq<T>, b: seq<T>, p: T -> bool)
    ensures Filter(a + b, p) == Filter(a, p) + Filter(b, p)
  {
    if b == [] {
      assert a + b == a;
    } else {
      var n := |b| - 1;
      assert (a + b)[..|a + b| - 1] == a + b[..n];
      FilterConcat(a, b[..n], p);
    }
  }

  lemma FilterStep<T>(s: seq<T>, i: nat, p: T -> bool)
    requires i < |s|
    ensures Filter(s[..i + 1], p) == Filter(s[..i], p) + (if p(s[i]) then [s[i]] else [])
  {
    assert s[..i + 1][..i] == s[..i];
  }

  // Counting: a filter keeps every copy of what it keeps and no copy of the rest.
  lemma {:induction false} FilterCount<T>(s: seq<T>, p: T -> bool, x: T)
    ensures multiset(Filter(s, p))[x] == if p(x) then multiset(s)[x] else 0
  {
    if s != [] {
      var n := |s| - 1;
      assert s == s[..n] + [s[n]];
      FilterCount(s[..n], p, x);
    }
  }

  lemma FilterMultiset<T(!new)>(s: seq<T>, t: seq<T>, p: T -> bool)
    requires multiset(s) == multiset(t)
    ensures multiset(Filter(s, p)) == multiset(Filter(t, p))
    ensures |Filter(s, p)| == |Filter(t, p)|
  {
    forall x ensures multiset(Filter(s, p))[x] == multiset(Filter(t, p))[x] {
      FilterCount(s, p, x);
      FilterCount(t, p, x);
    }
    assert multiset(Filter(s, p)) == multiset(Filter(t, p));
    assert |multiset(Filter(s, p))| == |Filter(s, p)|;
  }

  lemma {:induction false} FilterAll<T>(s: seq<T>, p: T -> bool)
    requires forall x :: x in s ==> p(x)
    ensures Filter(s, p) == s
  {
    if s != [] {
      var n := |s| - 1;
      assert s == s[..n] + [s[n]];
      FilterAll(s[..n], p);
    }
  }

  lemma {:induction false} FilterNone<T>(s: seq<T>, p: T -> bool)
    requires forall x :: x in s ==> !p(x)
    ensures Filter(s, p) == []
  {
    if s != [] {
      var n := |s| - 1;
      assert s == s[..n] + [s[n]];
      FilterNone(s[..n], p);
    }
  }

  lemma FilterSuffix<T>(s: seq<T>, p: T -> bool, k: nat)
    requires k <= |s|
    requires forall i :: 0 <= i < k ==> !p(s[i])
    requires forall i :: k <= i < |s| ==> p(s[i])
    ensures Filter(s, p) == s[k..]
  {
    assert s == s[..k] + s[k..];
    FilterConcat(s[..k], s[k..], p);
    FilterNone(s[..k], p);
    FilterAll(s[k..], p);
  }

  lemma FilterPrefix<T>(s: seq<T>, p: T -> bool, k: nat)
    requires k <= |s|
    requires forall i :: 0 <= i < k ==> p(s[i])
    requires forall i :: k <= i < |s| ==> !p(s[i])
    ensures Filter(s, p) == s[..k]
  {
    assert s == s[..k] + s[k..];
    FilterConcat(s[..k], s[k..], p);
    FilterAll(s[..k], p);
    FilterNone(s[k..], p);
  }

  lemma {:induction false} FilterFewer<T>(s: seq<T>, p: T -> bool, q: T -> bool, x: T)
    requires forall y :: y in s && p(y) ==> q(y)
    ensures |Filter(s, p)| <= |Filter(s, q)|
    ensures x in s && q(x) && !p(x) ==> |Filter(s, p)| < |Filter(s, q)|
  {
    if s != [] {
      var n := |s| - 1;
      assert s == s[..n] + [s[n]];
      FilterFewer(s[..n], p, q, x);
    }
  }

  lemma {:induction false} FilterAgree<T>(s: seq<T>, p: T -> bool, q: T -> bool)
    requires forall x :: x in s ==> p(x) == q(x)
    ensures Filter(s, p) == Filter(s, q)
  {
    if s != [] {
      var n := |s| - 1;
      assert s == s[..n] + [s[n]];
      FilterAgree(s[..n], p, q);
    }
  }

  lemma {:induction false} FilterTwice<T>(s: seq<T>, p: T -> bool, q: T -> bool, both: T -> bool)
    requires forall x :: both(x) == (p(x) && q(x))
    ensures Filter(Filter(s, p), q) == Filter(s, both)
  {
    if s != [] {
      var n := |s| - 1;
      FilterTwice(s[..n], p, q, both);
      if p(s[n]) {
        var kept := Filter(s[..n], p);
        assert (kept + [s[n]])[..|kept|] == kept;
      }
    }
  }

  ghost predicate NoRepeats<T>(s: seq<T>) {
    forall i, j :: 0 <= i < j < |s| ==> s[i] != s[j]
  }

  // Without repeats a filter has as many elements as there are that meet its condition.
  lemma {:induction false} FilterIsSet<T>(s: seq<T>, p: T -> bool, kept: set<T>)
    requires NoRepeats(s)
    requires forall x :: x in kept <==> x in s && p(x)
    ensures |Filter(s, p)| == |kept|
  {
    if s == [] {
      assert kept == {};
    } else {
      var n := |s| - 1;
      assert s == s[..n] + [s[n]];
      assert s[n] !in s[..n];
      FilterIsSet(s[..n], p, kept - {s[n]});
    }
  }

  // A part that is as long as the whole is the whole.
  lemma SameWhenFull<T>(a: seq<T>, b: seq<T>)
    requires multiset(a) <= multiset(b)
    ensures |a| <= |b|
    ensures multiset(a) == multiset(b) <==> |a| == |b|
  {
    var rest := multiset(b) - multiset(a);
    assert multiset(b) == multiset(a) + rest;
    assert |b| == |multiset(b)| == |multiset(a)| + |rest|;
    if |a| == |b| {
      assert rest == multiset{};
    }
  }

  // ----- Orders -----

  ghost predicate TotalPreorder<T(!new)>(leq: (T, T) -> bool) {
    && (forall x, y {:trigger leq(x, y)} :: leq(x, y) || leq(y, x))
    && (forall x, y, z {:trigger leq(x, y), leq(y, z)} :: leq(x, y) && leq(y, z) ==> leq(x, z))
  }

  ghost predicate Sorted<T>(s: seq<T>, leq: (T, T) -> bool) {
    forall i, j :: 0 <= i < j < |s| ==> leq(s[i], s[j])
  }

  // What a caller's comparison must satisfy for the sort to order by leq.  Both the strict and
  // the non-strict comparison of a key qualify, although only the strict one is what the
  // sort package asks for.
  ghost predicate Compares<T(!new)>(less: (T, T) -> bool, leq: (T, T) -> bool) {
    forall x, y {:trigger less(x, y)} :: (less(x, y) ==> leq(x, y)) && (!less(x, y) ==> leq(y, x))
  }

  // One insertion: x moves left past every element it is less than.
  function InsertLeft<T>(s: seq<T>, x: T, less: (T, T) -> bool): (r: seq<T>)
    ensures |r| == |s| + 1
  {
    if s == [] || !less(x, s[|s| - 1]) then s + [x]
    else InsertLeft(s[..|s| - 1], x, less) + [s[|s| - 1]]
  }

  function Sort<T>(s: seq<T>, less: (T, T) -> bool): (r: seq<T>)
    ensures |r| == |s|
  {
    if s == [] then []
    else InsertLeft(Sort(s[..|s| - 1], less), s[|s| - 1], less)
  }

  lemma {:induction false} InsertLeftPermutes<T>(s: seq<T>, x: T, less: (T, T) -> bool)
    ensures multiset(InsertLeft(s, x, less)) == multiset(s) + multiset{x}
  {
    if s != [] && less(x, s[|s| - 1]) {
      var n := |s| - 1;
      assert s == s[..n] + [s[n]];
      InsertLeftPermutes(s[..n], x, less);
    }
  }

  lemma {:induction false} InsertLeftShape<T>(s: seq<T>, x: T, less: (T, T) -> bool) returns (j: nat)
    ensures j <= |s| && InsertLeft(s, x, less) == s[..j] + [x] + s[j..]
  {
    if s == [] || !less(x, s[|s| - 1]) {
      j := |s|;
    } else {
      var n := |s| - 1;
      j := InsertLeftShape(s[..n], x, less);
      assert s[..n][j..] + [s[n]] == s[j..];
      assert s[..n][..j] == s[..j];
    }
  }

  // The sort loses and invents nothing, whatever comparison it is given.
  lemma {:induction false} SortPermutes<T>(s: seq<T>, less: (T, T) -> bool)
    ensures multiset(Sort(s, less)) == multiset(s)
  {
    if s != [] {
      var n := |s| - 1;
      assert s == s[..n] + [s[n]];
      SortPermutes(s[..n], less);
      InsertLeftPermutes(Sort(s[..n], less), s[n], less);
    }
  }

  lemma {:induction false} InsertLeftSorted<T(!new)>(s: seq<T>, x: T, less: (T, T) -> bool, leq: (T, T) -> bool)
    requires TotalPreorder(leq) && Compares(less, leq) && Sorted(s, leq)
    ensures Sorted(InsertLeft(s, x, less), leq)
  {
    if s != [] {
      var n := |s| - 1;
      var last := s[n];
      if less(x, last) {
        InsertLeftSorted(s[..n], x, less, leq);
        var r := InsertLeft(s[..n], x, less);
        InsertLeftPermutes(s[..n], x, less);
        forall i | 0 <= i < |r| ensures leq(r[i], last) {
          assert r[i] in multiset(r);
          assert r[i] in s[..n] || r[i] == x;
        }
      } else {
        forall i | 0 <= i < |s| ensures leq(s[i], x) {
          assert i < n ==> leq(s[i], last);
        }
      }
    }
  }

  // The result is ordered whichever of the two comparisons the caller passes.
  lemma {:induction false} SortSorted<T(!new)>(s: seq<T>, less: (T, T) -> bool, leq: (T, T) -> bool)
    requires TotalPreorder(leq) && Compares(less, leq)
    ensures Sorted(Sort(s, less), leq)
  {
    if s != [] {
      var n := |s| - 1;
      SortSorted(s[..n], less, leq);
      InsertLeftSorted(Sort(s[..n], less), s[n], less, leq);
    }
  }

  lemma {:induction false} InsertLeftStable<T(!new)>(s: seq<T>, x: T, less: (T, T) -> bool, p: T -> bool)
    requires forall y :: p(y) && p(x) ==> !less(x, y)
    ensures Filter(InsertLeft(s, x, less), p) == Filter(s, p) + Filter([x], p)
  {
    if s == [] || !less(x, s[|s| - 1]) {
      FilterConcat(s, [x], p);
    } else {
      var n := |s| - 1;
      InsertLeftStable(s[..n], x, less, p);
      assert s == s[..n] + [s[n]];
      FilterConcat(s[..n], [s[n]], p);
      FilterConcat(InsertLeft(s[..n], x, less), [s[n]], p);
      assert p(x) ==> Filter([s[n]], p) == [];
    }
  }

  // With a strict comparison, elements of one tie class keep the order they came in.
  lemma {:induction false} SortStable<T(!new)>(s: seq<T>, less: (T, T) -> bool, tied: T -> bool)
    requires forall x, y :: tied(x) && tied(y) ==> !less(x, y)
    ensures Filter(Sort(s, less), tied) == Filter(s, tied)
  {
    if s != [] {
      var n := |s| - 1;
      assert s == s[..n] + [s[n]];
      SortStable(s[..n], less, tied);
      InsertLeftStable(Sort(s[..n], less), s[n], less, tied);
      FilterConcat(s[..n], [s[n]], tied);
    }
  }

  // The order tells the elements apart.
  ghost predicate TiesEqual<T>(a: seq<T>, leq: (T, T) -> bool) {
    forall x, y {:trigger leq(x, y), leq(y, x)} :: x in a && y in a && leq(x, y) && leq(y, x) ==> x == y
  }

  lemma SortedHead<T>(a: seq<T>, b: seq<T>, leq: (T, T) -> bool)
    requires multiset(a) == multiset(b) && a != [] && b != []
    requires Sorted(a, leq) && Sorted(b, leq)
    requires TiesEqual(a, leq)
    ensures a[0] == b[0]
  {
    assert a[0] in multiset(a) && b[0] in multiset(b);
    var i :| 0 <= i < |b| && b[i] == a[0];
    var j :| 0 <= j < |a| && a[j] == b[0];
    if i != 0 && j != 0 {
      assert leq(a[0], a[j]) && leq(b[0], b[i]);
    }
  }

  lemma SortedTail<T>(a: seq<T>, leq: (T, T) -> bool)
    requires a != [] && Sorted(a, leq)
    ensures Sorted(a[1..], leq)
    ensures TiesEqual(a, leq) ==> TiesEqual(a[1..], leq)
  {
  }

  lemma TailMultiset<T>(a: seq<T>)
    requires a != []
    ensures multiset(a[1..]) == multiset(a) - multiset{a[0]}
    ensures forall x :: x in a[1..] ==> x in a
  {
    assert a == [a[0]] + a[1..];
  }

  // Sorted arrangements of one multiset coincide when the order tells its elements apart.
  lemma {:induction false} SortedUnique<T>(a: seq<T>, b: seq<T>, leq: (T, T) -> bool)
    requires multiset(a) == multiset(b)
    requires Sorted(a, leq) && Sorted(b, leq)
    requires TiesEqual(a, leq)
    ensures a == b
  {
    hide Sorted, TiesEqual;
    assert |a| == |multiset(a)| == |multiset(b)| == |b|;
    if a != [] {
      SortedHead(a, b, leq);
      SortedTail(a, leq);
      SortedTail(b, leq);
      TailMultiset(a);
      TailMultiset(b);
      SortedUnique(a[1..], b[1..], leq);
      assert a == [a[0]] + a[1..] && b == [b[0]] + b[1..];
    }
  }

  // ----- Ties -----

  function Reverse<T>(s: seq<T>): (r: seq<T>)
    ensures |r| == |s| && forall i :: 0 <= i < |s| ==> r[i] == s[|s| - 1 - i]
  {
    if s == [] then [] else [s[|s| - 1]] + Reverse(s[..|s| - 1])
  }

  lemma ReverseStep<T>(s: seq<T>, t: seq<T>)
    requires |t| <= 1
    ensures Reverse(s + t) == t + Reverse(s)
  {
    if t == [] {
      assert s + t == s;
    } else {
      assert t == [t[0]];
      assert (s + t)[..|s + t| - 1] == s;
    }
  }

  // The elements that compare both ways with c.
  function TiedWith<T>(leq: (T, T) -> bool, c: T): T -> bool {
    (x: T) => leq(x, c) && leq(c, x)
  }

  // What stands still where it is has no tie before it.
  lemma NoneTied<T(!new)>(s: seq<T>, x: T, leq: (T, T) -> bool, tied: T -> bool)
    requires TotalPreorder(leq) && Sorted(s, leq)
    requires forall y, z :: tied(y) && tied(z) ==> leq(y, z)
    requires s == [] || !leq(x, s[|s| - 1])
    ensures tied(x) ==> Filter(s, tied) == []
    ensures !tied(x) ==> Filter([x], tied) == []
  {
    hide TotalPreorder, Filter;
    if tied(x) {
      forall y | y in s ensures !tied(y) {
        var i :| 0 <= i < |s| && s[i] == y;
        NotBelow(x, y, s[|s| - 1], leq);
      }
      FilterNone(s, tied);
    } else {
      FilterNone([x], tied);
    }
  }

  lemma NotBelow<T(!new)>(x: T, y: T, last: T, leq: (T, T) -> bool)
    requires TotalPreorder(leq) && (y == last || leq(y, last)) && !leq(x, last)
    ensures !leq(x, y)
  {
  }

  lemma SortedFront<T>(s: seq<T>, leq: (T, T) -> bool)
    requires s != [] && Sorted(s, leq)
    ensures Sorted(s[..|s| - 1], leq)
  {
  }

  lemma {:induction false} InsertLeftTurns<T(!new)>(s: seq<T>, x: T, leq: (T, T) -> bool, tied: T -> bool)
    requires TotalPreorder(leq) && Sorted(s, leq)
    requires forall y, z :: tied(y) && tied(z) ==> leq(y, z)
    ensures Filter(InsertLeft(s, x, leq), tied) == Filter([x], tied) + Filter(s, tied)
  {
    hide TotalPreorder, Filter;
    if s == [] || !leq(x, s[|s| - 1]) {
      FilterConcat(s, [x], tied);
      NoneTied(s, x, leq, tied);
    } else {
      hide Sorted;
      var n := |s| - 1;
      SortedFront(s, leq);
      InsertLeftTurns(s[..n], x, leq, tied);
      assert s == s[..n] + [s[n]];
      OneMoreAfter(InsertLeft(s[..n], x, leq), [x], s[..n], s[n], tied);
    }
  }

  lemma OneMoreAfter<T>(all: seq<T>, a: seq<T>, b: seq<T>, y: T, p: T -> bool)
    requires Filter(all, p) == Filter(a, p) + Filter(b, p)
    ensures Filter(all + [y], p) == Filter(a, p) + Filter(b + [y], p)
  {
    hide Filter;
    FilterConcat(all, [y], p);
    FilterConcat(b, [y], p);
    Regroup(Filter(a, p), Filter(b, p), Filter([y], p));
  }

  lemma Regroup<T>(a: seq<T>, b: seq<T>, c: seq<T>)
    ensures (a + b) + c == a + (b + c)
  {
  }

  /** With a comparison that is not strict, the sort turns every tie class around. */
  lemma {:induction false} SortTurnsTies<T(!new)>(s: seq<T>, leq: (T, T) -> bool, tied: T -> bool)
    requires TotalPreorder(leq)
    requires forall x, y :: tied(x) && tied(y) ==> leq(x, y)
    ensures Filter(Sort(s, leq), tied) == Reverse(Filter(s, tied))
  {
    if s != [] {
      var n := |s| - 1;
      assert s == s[..n] + [s[n]];
      SortTurnsTies(s[..n], leq, tied);
      SortSorted(s[..n], leq, leq);
      InsertLeftTurns(Sort(s[..n], leq), s[n], leq, tied);
      FilterConcat(s[..n], [s[n]], tied);
      ReverseStep(Filter(s[..n], tied), Filter([s[n]], tied));
    }
  }

  ghost predicate SameTieClasses<T(!new)>(a: seq<T>, b: seq<T>, leq: (T, T) -> bool) {
    forall c :: Filter(a, TiedWith(leq, c)) == Filter(b, TiedWith(leq, c))
  }

  // A class with a member is not empty, and its last member is in the sequence.
  lemma LastOfClass<T(!new)>(a: seq<T>, leq: (T, T) -> bool, c: T)
    requires TotalPreorder(leq)
    ensures c in a ==> Filter(a, TiedWith(leq, c)) != []
    ensures forall x :: x in Filter(a, TiedWith(leq, c)) ==> x in a && leq(x, c) && leq(c, x)
  {
    FilterMembers(a, TiedWith(leq, c));
    assert TiedWith(leq, c)(c) by {
      assert leq(c, c);
    }
  }

  // The last elements of two sorted sequences with the same tie classes.
  lemma SameLast<T(!new)>(a: seq<T>, b: seq<T>, leq: (T, T) -> bool)
    requires TotalPreorder(leq) && Sorted(a, leq) && Sorted(b, leq) && SameTieClasses(a, b, leq) && a != []
    ensures b != [] && a[|a| - 1] == b[|b| - 1]
  {
    hide Filter;
    var x := a[|a| - 1];
    LastOfClass(a, leq, x);
    LastOfClass(b, leq, x);
    var y := b[|b| - 1];
    LastOfClass(b, leq, y);
    LastOfClass(a, leq, y);
    var fx, fy := Filter(a, TiedWith(leq, x)), Filter(b, TiedWith(leq, y));
    assert fx == Filter(b, TiedWith(leq, x)) && fy == Filter(a, TiedWith(leq, y));
    assert fx[0] in fx && fy[0] in fy;
    // x is tied with an element of b, and y with one of a, so x and y are tied
    var i :| 0 <= i < |b| && b[i] == fx[0];
    var j :| 0 <= j < |a| && a[j] == fy[0];
    assert i < |b| - 1 ==> leq(b[i], y);
    assert j < |a| - 1 ==> leq(a[j], x);
    assert leq(x, y) && leq(y, x);
    LastKept(a, TiedWith(leq, x));
    LastKept(b, TiedWith(leq, x));
    assert fx[|fx| - 1] == x && fx[|fx| - 1] == y;
  }

  lemma LastKept<T>(s: seq<T>, p: T -> bool)
    requires s != []
    ensures Filter(s, p) == Filter(s[..|s| - 1], p) + if p(s[|s| - 1]) then [s[|s| - 1]] else []
  {
  }

  lemma DropLast<T>(a: seq<T>, b: seq<T>, p: T -> bool)
    requires a != [] && b != [] && a[|a| - 1] == b[|b| - 1] && Filter(a, p) == Filter(b, p)
    ensures Filter(a[..|a| - 1], p) == Filter(b[..|b| - 1], p)
  {
    hide Filter;
    LastKept(a, p);
    LastKept(b, p);
    var fa, fb, last := Filter(a[..|a| - 1], p), Filter(b[..|b| - 1], p), a[|a| - 1];
    if p(last) {
      SamePrefix(fa, fb, last);
    } else {
      assert fa + [] == fa && fb + [] == fb;
    }
  }

  lemma SamePrefix<T>(a: seq<T>, b: seq<T>, x: T)
    requires a + [x] == b + [x]
    ensures a == b
  {
    assert |a + [x]| == |a| + 1 && |b + [x]| == |b| + 1;
    assert (a + [x])[..|a|] == a && (b + [x])[..|b|] == b;
  }

  /** A sorted sequence is determined by its tie classes, each in its order. */
  lemma {:induction false} SortedByClasses<T(!new)>(a: seq<T>, b: seq<T>, leq: (T, T) -> bool)
    requires TotalPreorder(leq) && Sorted(a, leq) && Sorted(b, leq) && SameTieClasses(a, b, leq)
    ensures a == b
    decreases |a|
  {
    if a == [] {
      if b != [] {
        LastOfClass(b, leq, b[0]);
        FilterNone(a, TiedWith(leq, b[0]));
      }
    } else {
      SameLast(a, b, leq);
      var m, n := |a| - 1, |b| - 1;
      forall c ensures Filter(a[..m], TiedWith(leq, c)) == Filter(b[..n], TiedWith(leq, c)) {
        DropLast(a, b, TiedWith(leq, c));
      }
      SortedByClasses(a[..m], b[..n], leq);
      assert a == a[..m] + [a[m]] && b == b[..n] + [b[n]];
    }
  }

  /** A rearrangement that is sorted and keeps every tie class as it was is the sort with the
      strict comparison, however it was reached. */
  lemma StableSortUnique<T(!new)>(s: seq<T>, r: seq<T>, less: (T, T) -> bool, leq: (T, T) -> bool)
    requires TotalPreorder(leq) && forall x, y {:trigger less(x, y)} :: less(x, y) <==> !leq(y, x)
    ensures r == Sort(s, less) <==> Sorted(r, leq) && SameTieClasses(r, s, leq)
  {
    hide Sort, Filter, Sorted;
    assert Compares(less, leq);
    SortSorted(s, less, leq);
    forall c ensures Filter(Sort(s, less), TiedWith(leq, c)) == Filter(s, TiedWith(leq, c)) {
      SortStable(s, less, TiedWith(leq, c));
    }
    if Sorted(r, leq) && SameTieClasses(r, s, leq) {
      SortedByClasses(r, Sort(s, less), leq);
    }
  }

  /** The comparison that is not strict gives the stable result exactly when every tie class
      reads the same backwards. */
  lemma SortsAgreeExactly<T(!new)>(s: seq<T>, less: (T, T) -> bool, leq: (T, T) -> bool)
    requires TotalPreorder(leq) && forall x, y {:trigger less(x, y)} :: less(x, y) <==> !leq(y, x)
    ensures Sort(s, leq) == Sort(s, less) <==>
      forall c :: Filter(s, TiedWith(leq, c)) == Reverse(Filter(s, TiedWith(leq, c)))
  {
    hide Sort, Filter, Reverse, Sorted;
    SortSorted(s, leq, leq);
    forall c ensures Filter(Sort(s, leq), TiedWith(leq, c)) == Reverse(Filter(s, TiedWith(leq, c))) {
      SortTurnsTies(s, leq, TiedWith(leq, c));
    }
    StableSortUnique(s, Sort(s, leq), less, leq);
  }

  // Where an insertion lands.
  lemma {:induction false} InsertLeftAt<T>(s: seq<T>, x: T, less: (T, T) -> bool, j: nat)
    requires j <= |s|
    requires forall k :: j <= k < |s| ==> less(x, s[k])
    requires j == 0 || !less(x, s[j - 1])
    ensures InsertLeft(s, x, less) == s[..j] + [x] + s[j..]
  {
    if j < |s| {
      var n := |s| - 1;
      InsertLeftAt(s[..n], x, less, j);
      assert s[..n][j..] + [s[n]] == s[j..];
      assert s[..n][..j] == s[..j];
    }
  }

  // One round of the in-place insertion sort: element i moves left by adjacent swaps.
  method InsertInPlace<T>(a: array<T>, i: nat, less: (T, T) -> bool)
    requires i < a.Length
    modifies a
    ensures a[..i + 1] == InsertLeft(old(a[..i]), old(a[i]), less)
    ensures a[i + 1..] == old(a[i + 1..])
  {
    hide InsertLeft;
    ghost var x, before := a[i], a[..i];
    var j := i;
    while j > 0 && less(a[j], a[j - 1])
      invariant 0 <= j <= i
      invariant a[j] == x
      invariant forall k :: 0 <= k < j ==> a[k] == before[k]
      invariant forall k :: j < k <= i ==> a[k] == before[k - 1]
      invariant forall k :: j <= k < i ==> less(x, before[k])
      invariant forall k :: i < k < a.Length ==> a[k] == old(a[k])
    {
      a[j], a[j - 1] := a[j - 1], a[j];
      j := j - 1;
    }
    InsertLeftAt(before, x, less, j);
  }

  lemma SortNothing<T>(less: (T, T) -> bool)
    ensures Sort([], less) == []
  {
  }

  lemma SortStep<T>(s: seq<T>, i: nat, less: (T, T) -> bool)
    requires i < |s|
    ensures Sort(s[..i + 1], less) == InsertLeft(Sort(s[..i], less), s[i], less)
  {
    assert s[..i + 1][..i] == s[..i];
  }

  /** The in-place sort behind sort.SliceStable (its insertion stage): adjacent swaps while the
      caller's comparison asks for them. */
  method SortInPlace<T>(a: array<T>, less: (T, T) -> bool)
    modifies a
    ensures a[..] == Sort(old(a[..]), less)
  {
    hide InsertLeft, Sort;
    ghost var input := a[..];
    SortNothing(less);
    assert a[..0] == [];
    var i := 0;
    while i < a.Length
      invariant 0 <= i <= a.Length == |input|
      invariant a[..i] == Sort(input[..i], less)
      invariant a[i..] == input[i..]
    {
      assert a[i] == a[i..][0] == input[i];
      assert a[i + 1..] == a[i..][1..] == input[i + 1..];
      SortStep(input, i, less);
      InsertInPlace(a, i, less);
      i := i + 1;
    }
    assert a[..] == a[..i] && input == input[..i];
  }
}
