/** The in-memory table as the Treeview holds it: rows in display order, each
    with its own item identifier, and the order-preserving filters that
    deleting a selection and searching compute from it. */
module RecordTable {
  import opened Text
  import opened DayFile

  /** A table row: the Treeview's identifier for it and its five values. */
  datatype Item = Item(iid: nat, values: Record)

  /** The values of the rows, top to bottom. */
  function Values(items: seq<Item>): (t: seq<Record>)
    ensures |t| == |items|
    ensures forall i :: 0 <= i < |items| ==> t[i] == items[i].values
  {
    if items == [] then [] else Values(items[..|items| - 1]) + [items[|items| - 1].values]
  }

  /** The identifiers of the rows. */
  function Ids(items: seq<Item>): (ids: set<nat>)
    ensures forall i :: 0 <= i < |items| ==> items[i].iid in ids
  {
    if items == [] then {} else Ids(items[..|items| - 1]) + {items[|items| - 1].iid}
  }

  /** Every identifier of the table names one of its rows. */
  lemma {:induction false} IdsNameRows(items: seq<Item>, id: nat)
    requires id in Ids(items)
    ensures exists i :: 0 <= i < |items| && items[i].iid == id
  {
    var init := items[..|items| - 1];
    if id != items[|items| - 1].iid {
      IdsNameRows(init, id);
      var i :| 0 <= i < |init| && init[i].iid == id;
      assert items[i] == init[i];
    }
  }

  /** No identifier names two rows. */
  ghost predicate UniqueIds(items: seq<Item>) {
    forall i, j :: 0 <= i < j < |items| ==> items[i].iid != items[j].iid
  }

  /** The position of the row with identifier `iid`, if there is one. */
  function Find(items: seq<Item>, iid: nat): (k: Option<nat>)
    ensures k.Some? ==> k.value < |items| && items[k.value].iid == iid
    ensures k.None? <==> iid !in Ids(items)
  {
    if items == [] then None
    else if items[|items| - 1].iid == iid then Some(|items| - 1)
    else Find(items[..|items| - 1], iid)
  }

  /** The elements of a sequence, as a set. */
  function Elems<T>(s: seq<T>): set<T> {
    set x | x in s
  }

  /** No element occurs twice. */
  ghost predicate Distinct<T>(s: seq<T>) {
    forall i, j :: 0 <= i < j < |s| ==> s[i] != s[j]
  }

  /** `a` is `b` with some elements left out and the rest kept in order. */
  ghost predicate Subsequence<T>(a: seq<T>, b: seq<T>)
    decreases |b|
  {
    a == [] ||
    (b != [] &&
      (Subsequence(a, b[..|b| - 1]) ||
       (a[|a| - 1] == b[|b| - 1] && Subsequence(a[..|a| - 1], b[..|b| - 1]))))
  }

  /** The rows left after removing every row whose identifier is in `dropped`. */
  function Keep(items: seq<Item>, dropped: set<nat>): (kept: seq<Item>)
    ensures |kept| <= |items|
  {
    if items == [] then []
    else
      var init, last := items[..|items| - 1], items[|items| - 1];
      Keep(init, dropped) + (if last.iid in dropped then [] else [last])
  }

  /** A row is kept exactly when it is in the table and not removed. */
  lemma {:induction false} KeepMembers(items: seq<Item>, dropped: set<nat>)
    ensures forall it :: it in Keep(items, dropped) <==> it in items && it.iid !in dropped
  {
    if items != [] {
      var init, last := items[..|items| - 1], items[|items| - 1];
      KeepMembers(init, dropped);
      assert items == init + [last];
    }
  }

  /** Removing no identifiers leaves the rows as they are. */
  lemma {:induction false} KeepNothing(items: seq<Item>)
    ensures Keep(items, {}) == items
  {
    if items != [] {
      KeepNothing(items[..|items| - 1]);
      assert items == items[..|items| - 1] + [items[|items| - 1]];
    }
  }

  /** Removing rows keeps every remaining identifier below a bound the
      table's identifiers were below. */
  lemma KeepBounded(items: seq<Item>, dropped: set<nat>, bound: nat)
    requires forall i :: 0 <= i < |items| ==> items[i].iid < bound
    ensures forall i :: 0 <= i < |Keep(items, dropped)| ==> Keep(items, dropped)[i].iid < bound
  {
    KeepMembers(items, dropped);
    forall i | 0 <= i < |Keep(items, dropped)|
      ensures Keep(items, dropped)[i].iid < bound
    {
      assert Keep(items, dropped)[i] in items;
    }
  }

  /** Removing rows one selection entry at a time removes them all together. */
  lemma {:induction false} KeepTwice(items: seq<Item>, dropped: set<nat>, iid: nat)
    ensures Keep(Keep(items, dropped), {iid}) == Keep(items, dropped + {iid})
  {
    if items != [] {
      var init, last := items[..|items| - 1], items[|items| - 1];
      KeepTwice(init, dropped, iid);
      var k := Keep(init, dropped);
      if last.iid in dropped {
        assert Keep(items, dropped) == k;
        assert Keep(items, dropped + {iid}) == Keep(init, dropped + {iid});
      } else {
        assert Keep(items, dropped) == k + [last];
        assert (k + [last])[..|k|] == k;
        assert Keep(k + [last], {iid}) == Keep(k, {iid}) + (if last.iid == iid then [] else [last]);
        assert Keep(items, dropped + {iid}) == Keep(init, dropped + {iid}) + (if last.iid == iid then [] else [last]);
      }
    }
  }

  /** Removing a set of identifiers removes exactly as many rows as the set
      shares with the table, when identifiers are unique. */
  lemma {:induction false} KeepCount(items: seq<Item>, dropped: set<nat>)
    requires UniqueIds(items)
    ensures |Keep(items, dropped)| == |items| - |dropped * Ids(items)|
  {
    if items != [] {
      var init, last := items[..|items| - 1], items[|items| - 1];
      assert UniqueIds(init);
      KeepCount(init, dropped);
      LastIdFresh(items);
      CommonWithOneMore(dropped, Ids(init), last.iid);
    }
  }

  /** Adding one new identifier to a table adds it to what a removal set
      shares with the table exactly when the set holds it. */
  lemma CommonWithOneMore(dropped: set<nat>, ids: set<nat>, iid: nat)
    requires iid !in ids
    ensures |dropped * (ids + {iid})| == |dropped * ids| + (if iid in dropped then 1 else 0)
  {
    if iid in dropped {
      assert dropped * (ids + {iid}) == (dropped * ids) + {iid};
    } else {
      assert dropped * (ids + {iid}) == dropped * ids;
    }
  }

  /** With unique identifiers, the last row's identifier is new to the rows
      before it. */
  lemma LastIdFresh(items: seq<Item>)
    requires UniqueIds(items) && items != []
    ensures items[|items| - 1].iid !in Ids(items[..|items| - 1])
    ensures Ids(items) == Ids(items[..|items| - 1]) + {items[|items| - 1].iid}
  {
    var init, last := items[..|items| - 1], items[|items| - 1];
    if last.iid in Ids(init) {
      IdsNameRows(init, last.iid);
      assert false;
    }
  }

  /** Removing rows keeps the remaining ones in their original relative order. */
  lemma {:induction false} KeepIsSubsequence(items: seq<Item>, dropped: set<nat>)
    ensures Subsequence(Keep(items, dropped), items)
  {
    if items != [] {
      var init, last := items[..|items| - 1], items[|items| - 1];
      KeepIsSubsequence(init, dropped);
      var k := Keep(init, dropped);
      if last.iid in dropped {
        assert Keep(items, dropped) == k;
        assert k == [] || Subsequence(k, items[..|items| - 1]);
      } else {
        var kept := k + [last];
        assert Keep(items, dropped) == kept;
        assert kept[..|kept| - 1] == k;
        assert kept[|kept| - 1] == items[|items| - 1];
      }
    }
  }

  /** Removing rows keeps the remaining identifiers unique. */
  lemma {:induction false} KeepUnique(items: seq<Item>, dropped: set<nat>)
    requires UniqueIds(items)
    ensures UniqueIds(Keep(items, dropped))
  {
    if items != [] {
      var init, last := items[..|items| - 1], items[|items| - 1];
      KeepUnique(init, dropped);
      KeepMembers(init, dropped);
      var k := Keep(init, dropped);
      forall it | it in k ensures it.iid != last.iid {
        assert it in init;
      }
    }
  }

  /** A selection without repeats has as many identifiers as entries. */
  lemma {:induction false} DistinctElems<T>(s: seq<T>)
    requires Distinct(s)
    ensures |Elems(s)| == |s|
  {
    if s != [] {
      var init := s[..|s| - 1];
      DistinctElems(init);
      assert Elems(s) == Elems(init) + {s[|s| - 1]};
      assert s[|s| - 1] !in Elems(init);
    }
  }

  /** Removing the rows of a selection of N distinct identifiers of the table
      leaves the other M - N rows, in their original order, with their
      identifiers still unique. */
  lemma KeepSelection(items: seq<Item>, selection: seq<nat>)
    requires UniqueIds(items) && Distinct(selection)
    requires forall k :: 0 <= k < |selection| ==> selection[k] in Ids(items)
    ensures UniqueIds(Keep(items, Elems(selection)))
    ensures Subsequence(Keep(items, Elems(selection)), items)
    ensures |Keep(items, Elems(selection))| == |items| - |selection|
  {
    var dropped := Elems(selection);
    KeepUnique(items, dropped);
    KeepIsSubsequence(items, dropped);
    KeepCount(items, dropped);
    DistinctElems(selection);
    assert dropped * Ids(items) == dropped;
  }

  /** A row is shown for a lowercased search term when the term occurs in the
      lowercased id, name, department or status; the time is not searched. */
  predicate Matches(r: Record, term: string): (m: bool)
    ensures term == [] ==> m
    ensures m ==> |term| <= |r.id| || |term| <= |r.name| || |term| <= |r.dept| || |term| <= |r.status|
  {
    Contains(Lower(r.id), term) || Contains(Lower(r.name), term) ||
    Contains(Lower(r.dept), term) || Contains(Lower(r.status), term)
  }

  /** The rows a search for `term` shows: the matching ones, in table order. */
  function Matching(t: seq<Record>, term: string): (shown: seq<Record>)
    ensures |shown| <= |t|
  {
    if t == [] then []
    else
      var init, last := t[..|t| - 1], t[|t| - 1];
      Matching(init, term) + (if Matches(last, term) then [last] else [])
  }

  /** A row is shown exactly when it is in the table and matches the term. */
  lemma {:induction false} MatchingMembers(t: seq<Record>, term: string)
    ensures forall r :: r in Matching(t, term) <==> r in t && Matches(r, term)
  {
    if t != [] {
      var init, last := t[..|t| - 1], t[|t| - 1];
      MatchingMembers(init, term);
      assert t == init + [last];
    }
  }

  /** Searching is compositional: the rows shown for two runs of rows are
      those shown for the first run followed by those shown for the second,
      so each matching row is shown once per occurrence. */
  lemma {:induction false} MatchingConcat(a: seq<Record>, b: seq<Record>, term: string)
    ensures Matching(a + b, term) == Matching(a, term) + Matching(b, term)
  {
    if b == [] {
      assert a + b == a;
    } else {
      var init, last := b[..|b| - 1], b[|b| - 1];
      MatchingConcat(a, init, term);
      var ma, mi := Matching(a, term), Matching(init, term);
      assert (a + b)[..|a + b| - 1] == a + init;
      assert (a + b)[|a + b| - 1] == last;
      if Matches(last, term) {
        assert Matching(a + b, term) == (ma + mi) + [last];
        assert Matching(b, term) == mi + [last];
        assert (ma + mi) + [last] == ma + (mi + [last]);
      } else {
        assert Matching(a + b, term) == ma + mi;
        assert Matching(b, term) == mi;
      }
    }
  }

  /** The search result keeps the table's order. */
  lemma {:induction false} MatchingIsSubsequence(t: seq<Record>, term: string)
    ensures Subsequence(Matching(t, term), t)
  {
    if t != [] {
      var init, last := t[..|t| - 1], t[|t| - 1];
      MatchingIsSubsequence(init, term);
      var m := Matching(init, term);
      if !Matches(last, term) {
        assert Matching(t, term) == m;
        assert m == [] || Subsequence(m, t[..|t| - 1]);
      } else {
        var shown := m + [last];
        assert Matching(t, term) == shown;
        assert shown[..|shown| - 1] == m;
        assert shown[|shown| - 1] == t[|t| - 1];
      }
    }
  }

  /** The empty term matches every row, so filtering by it shows the whole
      table, as clearing the search does. */
  lemma {:induction false} MatchingEmptyTerm(t: seq<Record>)
    ensures Matching(t, []) == t
  {
    if t != [] {
      var init, last := t[..|t| - 1], t[|t| - 1];
      MatchingEmptyTerm(init);
      assert Matches(last, []) by {
        assert OccursAt(Lower(last.id), [], 0);
      }
    }
  }

  /** A term found in no row shows nothing. */
  lemma MatchingNone(t: seq<Record>, term: string)
    requires forall i :: 0 <= i < |t| ==> !Matches(t[i], term)
    ensures Matching(t, term) == []
  {
    MatchingMembers(t, term);
  }

  /** A term found in exactly one row shows that row alone. */
  lemma {:induction false} MatchingUnique(t: seq<Record>, term: string, j: nat)
    requires j < |t| && Matches(t[j], term)
    requires forall i :: 0 <= i < |t| && i != j ==> !Matches(t[i], term)
    ensures Matching(t, term) == [t[j]]
  {
    var init, last := t[..|t| - 1], t[|t| - 1];
    if j == |t| - 1 {
      MatchingNone(init, term);
    } else {
      MatchingUnique(init, term, j);
    }
  }

  /** Changing only a row's time never changes whether it is shown. */
  lemma MatchIgnoresTime(r: Record, term: string, time: string)
    ensures Matches(r.(time := time), term) == Matches(r, term)
  {
  }
}
