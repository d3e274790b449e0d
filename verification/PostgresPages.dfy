/** Walking the pages of ids of the Postgres journal.

    Each page holds the next ids above the token; the empty token both starts a walk and ends it. */
module PostgresPages {
  import opened Base
  import opened Sequences
  import opened Journal
  import opened PostgresEvents

  // The ids of the table, each once, ascending.
  function DistinctIds(table: seq<Event>): seq<string> {
    if table == [] then []
    else
      var rest := DistinctIds(table[..|table| - 1]);
      var id := table[|table| - 1].persistenceId;
      if id in rest then rest else InsertLeft(rest, id, IdLt())
  }

  function After(token: string): string -> bool {
    (id: string) => StrLt(token, id)
  }

  function PageOf(ids: seq<string>, pageSize: nat, token: string): seq<string> {
    Take(if token != "" then Filter(ids, After(token)) else ids, pageSize)
  }

  /** The ids of the table, each once, ascending. */
  lemma {:induction false} DistinctIdsExact(table: seq<Event>)
    ensures Ascending(DistinctIds(table))
    ensures forall id :: id in DistinctIds(table) <==> exists e :: e in table && e.persistenceId == id
  {
    if table != [] {
      var n := |table| - 1;
      DistinctIdsExact(table[..n]);
      var rest := DistinctIds(table[..n]);
      assert table == table[..n] + [table[n]];
      if table[n].persistenceId !in rest {
        InsertNewId(rest, table[n].persistenceId);
      }
    }
  }

  function DueIds(table: seq<Event>, token: string): seq<string> {
    if token != "" then Filter(DistinctIds(table), After(token)) else DistinctIds(table)
  }

  lemma DueIdsExact(table: seq<Event>, token: string)
    ensures Ascending(DueIds(table, token))
    ensures forall id :: id in DueIds(table, token) <==> Due(table, token, id)
  {
    hide StrLe, Filter, DistinctIds;
    DistinctIdsExact(table);
    FilterAscending(DistinctIds(table), After(token));
    FilterMembers(DistinctIds(table), After(token));
  }

  // Ids that leave out only higher ones are the front of all.
  lemma {:induction false} LowestAreFront(page: seq<string>, due: seq<string>)
    requires Ascending(page) && Ascending(due)
    requires forall id :: id in page ==> id in due
    requires forall id, shown :: id in due && id !in page && shown in page ==> StrLt(shown, id)
    ensures |page| <= |due| && page == due[..|page|]
  {
    hide StrLe;
    if page != [] {
      LowestFirst(page, due);
      var p, d := page[1..], due[1..];
      assert page == [page[0]] + p && due == [due[0]] + d;
      forall id | id in p ensures id in d {
        assert id in page && id != page[0];
      }
      forall id, shown | id in d && id !in p && shown in p ensures StrLt(shown, id) {
        assert id in due && shown in page && id != due[0];
      }
      LowestAreFront(p, d);
    }
  }

  lemma LowestFirst(page: seq<string>, due: seq<string>)
    requires Ascending(page) && Ascending(due) && page != []
    requires forall id :: id in page ==> id in due
    requires forall id, shown :: id in due && id !in page && shown in page ==> StrLt(shown, id)
    ensures due != [] && due[0] == page[0]
    ensures forall id :: id in page[1..] ==> id != page[0]
    ensures forall id :: id in due[1..] ==> id != due[0]
  {
    hide StrLe;
    assert page[0] in page && page[0] in due;
    var i :| 0 <= i < |due| && due[i] == page[0];
    if due[0] in page {
      var j :| 0 <= j < |page| && page[j] == due[0];
      if i > 0 && j > 0 {
        StrLtTransitive(due[0], due[i], page[j]);
        assert false;
      }
    } else if i > 0 {
      StrLtTransitive(page[0], due[0], due[i]);
      assert false;
    }
  }

  /** The answer to a page query is unique: the front of the due ids. */
  lemma PageExactly(page: seq<string>, table: seq<Event>, pageSize: nat, token: string)
    ensures IsPage(page, table, pageSize, token) <==> page == PageOf(DistinctIds(table), pageSize, token)
  {
    hide StrLe, Due, DistinctIds, Filter;
    DueIdsExact(table, token);
    var due := DueIds(table, token);
    FrontIsPage(due, table, pageSize, token);
    if IsPage(page, table, pageSize, token) {
      LowestAreFront(page, due);
      if |page| < |due| {
        assert due[|page|] in due;
        LeftOut(page, due);
      }
    }
  }

  lemma LeftOut(page: seq<string>, due: seq<string>)
    requires Ascending(due) && |page| < |due| && page == due[..|page|]
    ensures due[|page|] !in page
  {
  }

  lemma {:induction false} FilterAscending(ids: seq<string>, p: string -> bool)
    requires Ascending(ids)
    ensures Ascending(Filter(ids, p))
  {
    hide StrLe;
    if ids != [] {
      var n := |ids| - 1;
      FilterAscending(ids[..n], p);
      FilterMembers(ids[..n], p);
      var kept := Filter(ids[..n], p);
      forall i | 0 <= i < |kept| ensures StrLt(kept[i], ids[n]) {
        assert kept[i] in ids[..n];
        var k :| 0 <= k < n && ids[k] == kept[i];
      }
    }
  }

  // The pages a client sees, from a token until the token that comes back is empty.
  function Walk(ids: seq<string>, pageSize: nat, token: string): seq<seq<string>>
    requires Ascending(ids)
    decreases Remaining(ids, token)
  {
    var page := PageOf(ids, pageSize, token);
    if page == [] then []
    else if page[|page| - 1] == "" then [page]
    else
      TokenAdvances(ids, pageSize, token);
      [page] + Walk(ids, pageSize, page[|page| - 1])
  }

  function Remaining(ids: seq<string>, token: string): nat {
    if token == "" then |ids| + 1 else |Filter(ids, After(token))|
  }

  lemma AfterIsSuffix(ids: seq<string>, k: nat)
    requires Ascending(ids) && k < |ids|
    ensures Filter(ids, After(ids[k])) == ids[k + 1..]
  {
    hide StrLe, Filter;
    var p := After(ids[k]);
    assert ids == ids[..k + 1] + ids[k + 1..];
    FilterConcat(ids[..k + 1], ids[k + 1..], p);
    forall x | x in ids[..k + 1] ensures !p(x) {
      var i :| 0 <= i <= k && ids[i] == x;
      if p(x) {
        StrLeAntisymmetric(ids[i], ids[k]);
      }
    }
    FilterNone(ids[..k + 1], p);
    FilterAll(ids[k + 1..], p);
  }

  lemma TokenAdvances(ids: seq<string>, pageSize: nat, token: string)
    requires Ascending(ids)
    requires PageOf(ids, pageSize, token) != []
    ensures var page := PageOf(ids, pageSize, token);
      page[|page| - 1] in ids &&
      (page[|page| - 1] != "" ==> Remaining(ids, page[|page| - 1]) < Remaining(ids, token))
  {
    var page := PageOf(ids, pageSize, token);
    var next := page[|page| - 1];
    FilterMembers(ids, After(token));
    assert next in ids;
    if token != "" {
      assert next in Filter(ids, After(token));
      forall y | y in ids && After(next)(y) ensures After(token)(y) {
        StrLtTransitive(token, next, y);
      }
      FilterFewer(ids, After(next), After(token), next);
    }
  }

  lemma FlattenCons<T>(page: seq<T>, rest: seq<seq<T>>)
    ensures Flatten([page] + rest) == page + Flatten(rest)
  {
    if rest == [] {
      assert [page] + rest == [page];
      assert [page][..0] == [];
    } else {
      var n := |rest| - 1;
      assert ([page] + rest)[..n + 1] == [page] + rest[..n];
      FlattenCons(page, rest[..n]);
    }
  }

  // The token after the first k ids.
  function TokenAt(ids: seq<string>, k: nat): string
    requires k <= |ids|
  {
    if k == 0 then "" else ids[k - 1]
  }

  lemma PageFrom(ids: seq<string>, pageSize: nat, k: nat)
    requires Ascending(ids) && k <= |ids|
    requires k > 0 ==> ids[k - 1] != ""
    ensures PageOf(ids, pageSize, TokenAt(ids, k)) == ids[k..k + Min(pageSize, |ids| - k)]
  {
    if k > 0 {
      AfterIsSuffix(ids, k - 1);
    }
  }

  // From the start, or from a token, the pages hold all the ids that are left.
  lemma {:induction false} WalkFrom(ids: seq<string>, pageSize: nat, k: nat)
    requires Ascending(ids) && pageSize >= 1 && k <= |ids|
    requires k > 0 ==> ids[k - 1] != ""
    requires k == 0 ==> !(pageSize == 1 && |ids| > 1 && ids[0] == "")
    ensures Flatten(Walk(ids, pageSize, TokenAt(ids, k))) == ids[k..]
    decreases |ids| - k
  {
    hide PageOf, StrLe, Flatten;
    PageFrom(ids, pageSize, k);
    var m := k + Min(pageSize, |ids| - k);
    var page := ids[k..m];
    NoBatches();
    FlattenCons(page, []);
    if page != [] {
      assert page[|page| - 1] == ids[m - 1];
      if ids[m - 1] == "" {
        EmptyIdIsFirst(ids, m - 1);
        assert [page] + [] == [page] && page + [] == page;
      } else {
        WalkFrom(ids, pageSize, m);
        FlattenCons(page, Walk(ids, pageSize, ids[m - 1]));
        assert ids[k..] == page + ids[m..];
      }
    }
  }

  lemma NoBatches()
    ensures Flatten<string>([]) == []
  {
  }

  lemma EmptyIdIsFirst(ids: seq<string>, k: nat)
    requires Ascending(ids) && k < |ids| && ids[k] == ""
    ensures k == 0
  {
    assert k > 0 ==> StrLt(ids[0], ids[k]);
  }

  /** The walk from "" lists every distinct id once, in ascending order, unless the page size is
      zero, or is one while a row with the empty id hides the others behind its empty token. */
  lemma WalkCompleteExactly(table: seq<Event>, pageSize: nat)
    ensures DistinctIdsWalk(table, pageSize) == DistinctIds(table) <==>
      var ids := DistinctIds(table);
      ids == [] || (pageSize >= 1 && !(pageSize == 1 && |ids| > 1 && "" in ids))
  {
    DistinctIdsExact(table);
    var ids := DistinctIds(table);
    if "" in ids {
      var k :| 0 <= k < |ids| && ids[k] == "";
      EmptyIdIsFirst(ids, k);
    }
    if ids == [] || (pageSize >= 1 && !(pageSize == 1 && |ids| > 1 && "" in ids)) {
      if pageSize >= 1 {
        WalkFrom(ids, pageSize, 0);
      }
    } else if pageSize == 0 {
      assert Walk(ids, pageSize, "") == [];
    } else {
      assert PageOf(ids, 1, "") == [""];
      assert Walk(ids, 1, "") == [[""]];
      FlattenCons([""], []);
      assert [[""]] == [[""]] + [];
    }
  }

  function DistinctIdsWalk(table: seq<Event>, pageSize: nat): seq<string> {
    DistinctIdsExact(table);
    Flatten(Walk(DistinctIds(table), pageSize, ""))
  }
}
