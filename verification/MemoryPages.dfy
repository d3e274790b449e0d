/** Walking the pages of ids of the memory journal by feeding each next-page token back in.

    A page counts rows, not ids, and starts again at the token's own rows, so an id with a page
    or more of rows stops the walk. */
module MemoryPages {
  import opened Base
  import opened Sequences
  import opened Journal
  import opened MemoryEvents

  // The first position at or above t, and the first above t, in ascending ids.
  function Lo(ids: seq<string>, t: string): (k: nat)
    requires Sorted(ids, IdLe())
    ensures k <= |ids|
    ensures forall i :: 0 <= i < k ==> !StrLe(t, ids[i])
    ensures forall i :: k <= i < |ids| ==> StrLe(t, ids[i])
  {
    StrOrder();
    if ids == [] || !StrLe(t, ids[|ids| - 1]) then
      assert forall i :: 0 <= i < |ids| ==> IdLe()(ids[i], ids[|ids| - 1]);
      |ids|
    else Lo(ids[..|ids| - 1], t)
  }

  function Hi(ids: seq<string>, t: string): (k: nat)
    requires Sorted(ids, IdLe())
    ensures Lo(ids, t) <= k <= |ids|
    ensures forall i :: 0 <= i < k ==> StrLe(ids[i], t)
    ensures forall i :: k <= i < |ids| ==> !StrLe(ids[i], t)
    ensures forall i :: Lo(ids, t) <= i < k ==> ids[i] == t
  {
    StrOrder();
    if ids == [] || StrLe(ids[|ids| - 1], t) then
      assert forall i :: 0 <= i < |ids| ==> IdLe()(ids[i], ids[|ids| - 1]);
      |ids|
    else Hi(ids[..|ids| - 1], t)
  }

  // How many rows an id has.
  function Rows(ids: seq<string>, t: string): nat
    requires Sorted(ids, IdLe())
  {
    Hi(ids, t) - Lo(ids, t)
  }

  // Where a page ends.
  function PageEnd(ids: seq<string>, cap: int, t: string): (e: nat)
    requires Sorted(ids, IdLe())
    ensures Hi(ids, t) <= e <= |ids|
  {
    if cap < 0 then |ids|
    else if Lo(ids, t) + cap <= Hi(ids, t) then Hi(ids, t)
    else Min(Lo(ids, t) + cap, |ids|)
  }

  lemma CutSlice(ids: seq<string>, cap: int, t: string, lo: nat, hi: nat)
    requires lo <= hi <= |ids|
    requires forall i :: 0 <= i < lo ==> !StrLe(t, ids[i])
    requires forall i :: lo <= i < |ids| ==> StrLe(t, ids[i])
    requires forall i :: lo <= i < hi ==> ids[i] == t
    requires forall i :: hi <= i < |ids| ==> ids[i] != t
    ensures var c := if cap < 0 then |ids| else Min(lo + cap, |ids|);
      PageOf(ids, cap, t) == if hi <= c then ids[hi..c] else []
  {
    hide StrLe, Filter;
    FilterSuffix(ids, AtOrAfter(t), lo);
    var c := if cap < 0 then |ids| else Min(lo + cap, |ids|);
    var cut := ids[lo..c];
    assert Cut(ids[lo..], cap) == cut;
    if hi <= c {
      FilterSuffix(cut, IsNot(t), hi - lo);
      assert cut[hi - lo..] == ids[hi..c];
    } else {
      FilterNone(cut, IsNot(t));
    }
  }

  /** A page is the stretch of rows after the token's own, as far as the cap allows. */
  lemma PageIsSlice(ids: seq<string>, cap: int, t: string)
    requires Sorted(ids, IdLe())
    ensures PageOf(ids, cap, t) == ids[Hi(ids, t)..PageEnd(ids, cap, t)]
  {
    hide Lo, Hi, PageOf, StrLe;
    StrLeReflexive(t);
    CutSlice(ids, cap, t, Lo(ids, t), Hi(ids, t));
  }

  /** After any token a page is empty exactly when the token's own rows fill it or no id is
      above the token. */
  lemma PageEmptyExactly(ids: seq<string>, cap: int, t: string)
    requires Sorted(ids, IdLe())
    ensures PageOf(ids, cap, t) == [] <==>
      (0 <= cap <= Rows(ids, t)) || (forall id :: id in ids ==> StrLe(id, t))
  {
    PageIsSlice(ids, cap, t);
    var hi := Hi(ids, t);
    if hi < |ids| {
      assert ids[hi] in ids && !StrLe(ids[hi], t);
    }
  }

  // The pages a client sees: each token is the last id of the page before, and an empty page ends it.
  function Walk(ids: seq<string>, cap: int, token: string): seq<seq<string>>
    requires Sorted(ids, IdLe())
    decreases |ids| - Hi(ids, token)
  {
    var page := PageOf(ids, cap, token);
    if page == [] then []
    else
      PageIsSlice(ids, cap, token);
      TokenAdvances(ids, cap, token);
      [page] + Walk(ids, cap, page[|page| - 1])
  }

  lemma TokenAdvances(ids: seq<string>, cap: int, t: string)
    requires Sorted(ids, IdLe())
    requires PageOf(ids, cap, t) != []
    ensures var page := PageOf(ids, cap, t);
      var next := page[|page| - 1];
      && Hi(ids, next) >= PageEnd(ids, cap, t) > Hi(ids, t)
      && next == ids[PageEnd(ids, cap, t) - 1]
      && StrLt(t, next)
  {
    PageIsSlice(ids, cap, t);
    var e := PageEnd(ids, cap, t);
    var next := ids[e - 1];
    StrOrder();
    assert StrLe(next, next);
  }

  ghost predicate Visited(pages: seq<seq<string>>, id: string) {
    exists k :: 0 <= k < |pages| && id in pages[k]
  }

  lemma VisitedCons(page: seq<string>, rest: seq<seq<string>>, id: string)
    ensures Visited([page] + rest, id) <==> id in page || Visited(rest, id)
  {
    var pages := [page] + rest;
    if id in page {
      assert id in pages[0];
    }
    if Visited(rest, id) {
      var k :| 0 <= k < |rest| && id in rest[k];
      assert id in pages[k + 1];
    }
  }

  // Every id but the greatest leaves room on a page for a row of the next id.
  ghost predicate RoomOnPages(ids: seq<string>, cap: int)
    requires Sorted(ids, IdLe())
  {
    forall id :: id in ids && id != ids[|ids| - 1] ==> Rows(ids, id) < cap
  }

  lemma InPageOrBeyond(ids: seq<string>, cap: int, t: string, k: nat)
    requires Sorted(ids, IdLe())
    requires cap < 0 || Rows(ids, t) < cap
    requires Hi(ids, t) <= k < |ids|
    ensures var page := PageOf(ids, cap, t);
      page != [] && (ids[k] in page || Hi(ids, page[|page| - 1]) <= k)
  {
    hide Lo, Hi, PageOf, StrLe;
    PageIsSlice(ids, cap, t);
    TokenAdvances(ids, cap, t);
    var page, e := PageOf(ids, cap, t), PageEnd(ids, cap, t);
    var next := page[|page| - 1];
    if k < e {
      assert page[k - Hi(ids, t)] == ids[k];
    } else if k < Hi(ids, next) {
      StrLeReflexive(next);
      assert ids[k] == next;
    }
  }

  lemma NotTheLast(ids: seq<string>, next: string, k: nat)
    requires Sorted(ids, IdLe()) && Hi(ids, next) <= k < |ids|
    ensures next != ids[|ids| - 1]
  {
  }

  lemma {:induction false} WalkCovers(ids: seq<string>, cap: int, t: string, k: nat)
    requires Sorted(ids, IdLe())
    requires cap < 0 || (Rows(ids, t) < cap && RoomOnPages(ids, cap))
    requires Hi(ids, t) <= k < |ids|
    ensures Visited(Walk(ids, cap, t), ids[k])
    decreases |ids| - Hi(ids, t)
  {
    InPageOrBeyond(ids, cap, t, k);
    TokenAdvances(ids, cap, t);
    var page := PageOf(ids, cap, t);
    var next := page[|page| - 1];
    VisitedCons(page, Walk(ids, cap, next), ids[k]);
    if ids[k] !in page {
      NotTheLast(ids, next, k);
      assert next in ids;
      WalkCovers(ids, cap, next, k);
    }
  }

  lemma {:induction false} WalkStuck(ids: seq<string>, cap: int, t: string, block: string, id: string)
    requires Sorted(ids, IdLe())
    requires 0 <= cap <= Rows(ids, block)
    requires StrLe(t, block)
    requires Visited(Walk(ids, cap, t), id)
    ensures StrLe(id, block)
    decreases |ids| - Hi(ids, t)
  {
    hide Lo, Hi, PageOf, StrLe;
    var page := PageOf(ids, cap, t);
    if page != [] {
      PageIsSlice(ids, cap, t);
      TokenAdvances(ids, cap, t);
      var e := PageEnd(ids, cap, t);
      StrLeReflexive(block);
      if Lo(ids, block) < Lo(ids, t) {
        StrLeTransitive(t, block, ids[Lo(ids, block)]);
        assert false;
      }
      assert e <= Hi(ids, block);
      var next := page[|page| - 1];
      VisitedCons(page, Walk(ids, cap, next), id);
      if id !in page {
        WalkStuck(ids, cap, next, block, id);
      }
    }
  }

  lemma {:induction false} AllCopies(s: seq<string>, t: string)
    requires forall i :: 0 <= i < |s| ==> s[i] == t
    ensures multiset(s)[t] == |s|
  {
    if s != [] {
      var n := |s| - 1;
      assert s == s[..n] + [s[n]];
      AllCopies(s[..n], t);
    }
  }

  lemma RowsAreCopies(ids: seq<string>, t: string)
    requires Sorted(ids, IdLe())
    ensures Rows(ids, t) == multiset(ids)[t]
  {
    hide Lo, Hi, StrLe;
    var lo, hi := Lo(ids, t), Hi(ids, t);
    assert ids == ids[..lo] + ids[lo..hi] + ids[hi..];
    StrLeReflexive(t);
    assert t !in ids[..lo] && t !in ids[hi..];
    AllCopies(ids[lo..hi], t);
  }

  lemma IdsWalkComplete(ids: seq<string>, cap: int)
    requires Sorted(ids, IdLe()) && "" !in ids
    ensures (forall id :: id in ids ==> Visited(Walk(ids, cap, ""), id)) <==>
      (ids == [] || cap < 0 || (cap >= 1 && RoomOnPages(ids, cap)))
  {
    hide PageOf, Lo, Hi, Walk, StrLe;
    NoEmptyIds(ids);
    if ids == [] {
    } else if cap < 0 || (cap >= 1 && RoomOnPages(ids, cap)) {
      forall id | id in ids ensures Visited(Walk(ids, cap, ""), id) {
        var k :| 0 <= k < |ids| && ids[k] == id;
        WalkCovers(ids, cap, "", k);
      }
    } else {
      var last := ids[|ids| - 1];
      var block := if cap == 0 then "" else var b :| b in ids && b != last && Rows(ids, b) >= cap; b;
      BelowLast(ids, block);
      if Visited(Walk(ids, cap, ""), last) {
        WalkStuck(ids, cap, "", block, last);
        StrLeAntisymmetric(block, last);
        assert false;
      }
      assert last in ids;
    }
  }

  lemma NoEmptyIds(ids: seq<string>)
    requires Sorted(ids, IdLe()) && "" !in ids
    ensures Rows(ids, "") == 0 && Hi(ids, "") == 0
  {
  }

  lemma BelowLast(ids: seq<string>, block: string)
    requires Sorted(ids, IdLe()) && ids != [] && (block in ids || block == "")
    ensures StrLe(block, ids[|ids| - 1]) && StrLe("", block)
  {
    if block in ids {
      var k :| 0 <= k < |ids| && ids[k] == block;
      StrLeReflexive(block);
      assert k < |ids| - 1 ==> IdLe()(ids[k], ids[|ids| - 1]);
    }
  }

  /** The walk over a store's pages from "" shows every id exactly when each id but the greatest has
      fewer rows than the page size.  (A page size of 2^63 or more removes the cap.) */
  lemma WalkCompleteExactly(rows: seq<Row>, pageSize: uint64)
    requires Indexed(rows)
    ensures Sorted(Ids(rows), IdLe())
    ensures var ids := Ids(rows);
      (forall id :: id in ids ==> Visited(Walk(ids, PageCap(pageSize), ""), id)) <==>
      (ids == [] || pageSize >= TWO_63 ||
        (pageSize >= 1 && forall id :: id in ids && id != ids[|ids| - 1] ==> multiset(ids)[id] < pageSize))
  {
    hide Walk, Lo, Hi, PageOf, StrLe;
    var ids := Ids(rows);
    IdsSorted(rows);
    assert "" !in ids;
    IdsWalkComplete(ids, PageCap(pageSize));
    forall id | id in ids ensures Rows(ids, id) == multiset(ids)[id] {
      RowsAreCopies(ids, id);
    }
  }

  // Four rows and pages of two: the page after "b" is empty and "c" is never seen.
  lemma FullPageOfOneId(rows: seq<Row>)
    requires Indexed(rows) && Ids(rows) == ["a", "b", "b", "c"]
    ensures Sorted(Ids(rows), IdLe()) && !(forall id :: id in Ids(rows) ==> Visited(Walk(Ids(rows), 2, ""), id))
  {
    hide Walk, PageOf, StrLe;
    WalkCompleteExactly(rows, 2);
    var ids := Ids(rows);
    assert ids[1] == "b" && ids[3] == "c" && "b"[0] != "c"[0];
    assert multiset(ids)["b"] >= 2;
  }

  function Above(ids: seq<string>, t: string): set<string> {
    set id | id in ids && !StrLe(id, t)
  }

  /** The walk makes at most one page per id above its token, so one more call ends it. */
  lemma {:induction false} WalkLength(ids: seq<string>, cap: int, t: string)
    requires Sorted(ids, IdLe())
    ensures |Walk(ids, cap, t)| <= |Above(ids, t)|
    decreases |ids| - Hi(ids, t)
  {
    hide Lo, Hi, PageOf, StrLe;
    var page := PageOf(ids, cap, t);
    if page != [] {
      PageIsSlice(ids, cap, t);
      TokenAdvances(ids, cap, t);
      var next := page[|page| - 1];
      WalkLength(ids, cap, next);
      StrLeReflexive(next);
      assert next in ids && !StrLe(next, t);
      forall id | id in Above(ids, next) ensures id in Above(ids, t) {
        if StrLe(id, t) {
          StrLeTransitive(id, t, next);
          assert false;
        }
      }
      assert |Above(ids, next) + {next}| == |Above(ids, next)| + 1;
      SubsetSize(Above(ids, next) + {next}, Above(ids, t));
    }
  }

  lemma PageBetween(ids: seq<string>, cap: int, t: string, x: string)
    requires Sorted(ids, IdLe())
    requires x in PageOf(ids, cap, t)
    ensures var page := PageOf(ids, cap, t);
      StrLt(t, x) && StrLe(x, page[|page| - 1])
  {
    hide Lo, Hi, PageOf, StrLe;
    PageIsSlice(ids, cap, t);
    var page, hi := PageOf(ids, cap, t), Hi(ids, t);
    var i :| 0 <= i < |page| && page[i] == x;
    assert x == ids[hi + i];
    StrLtIff(t, x);
    StrLeReflexive(x);
    assert i < |page| - 1 ==> IdLe()(ids[hi + i], ids[hi + |page| - 1]);
  }

  ghost predicate AllAbove(pages: seq<seq<string>>, t: string) {
    forall k, x :: 0 <= k < |pages| && x in pages[k] ==> StrLt(t, x)
  }

  ghost predicate Ascending(pages: seq<seq<string>>) {
    forall j, k, x, y :: 0 <= j < k < |pages| && x in pages[j] && y in pages[k] ==> StrLt(x, y)
  }

  lemma NoPages(t: string)
    ensures AllAbove([], t) && Ascending([])
  {
  }

  lemma AscendingCons(page: seq<string>, rest: seq<seq<string>>, t: string, next: string)
    requires AllAbove(rest, next) && Ascending(rest) && StrLt(t, next)
    requires forall x :: x in page ==> StrLt(t, x) && StrLe(x, next)
    ensures AllAbove([page] + rest, t) && Ascending([page] + rest)
  {
    var pages := [page] + rest;
    forall k, x | 0 <= k < |pages| && x in pages[k] ensures StrLt(t, x) {
      if k > 0 {
        assert x in rest[k - 1];
        StrLtTransitive(t, next, x);
      }
    }
    forall j, k, x, y | 0 <= j < k < |pages| && x in pages[j] && y in pages[k] ensures StrLt(x, y) {
      assert y in rest[k - 1];
      if j == 0 {
        StrLtTransitive(x, next, y);
      } else {
        assert x in rest[j - 1];
      }
    }
  }

  /** Ids only grow from page to page: an id can repeat inside a page but never on a later one. */
  lemma {:induction false} WalkAscends(ids: seq<string>, cap: int, t: string)
    requires Sorted(ids, IdLe())
    ensures AllAbove(Walk(ids, cap, t), t) && Ascending(Walk(ids, cap, t))
    decreases |ids| - Hi(ids, t)
  {
    hide Lo, Hi, PageOf, StrLe, AllAbove, Ascending;
    NoPages(t);
    var page := PageOf(ids, cap, t);
    if page != [] {
      TokenAdvances(ids, cap, t);
      var next := page[|page| - 1];
      WalkAscends(ids, cap, next);
      forall x | x in page ensures StrLt(t, x) && StrLe(x, next) {
        PageBetween(ids, cap, t, x);
      }
      AscendingCons(page, Walk(ids, cap, next), t, next);
    }
  }

  lemma SubsetSize<T>(a: set<T>, b: set<T>)
    requires a <= b
    ensures |a| <= |b|
  {
    assert b == a + (b - a);
    assert |b| == |a| + |b - a|;
  }
}
