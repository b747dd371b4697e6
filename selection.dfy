/**
 * Row selection (src/components/DataTable.tsx, lines 68-90) and the
 * checkbox states derived from it (lines 102, 144 and 154).
 */
module Selection {
  import opened Seqs

  /** A row id: a number or a string (`number | string`). */
  datatype Id = NumId(n: int) | StrId(s: string)

  /** The selection with the membership of `id` flipped. */
  function Flip(sel: set<Id>, id: Id): (r: set<Id>)
    ensures id in r <==> id !in sel
    ensures forall x :: x != id ==> (x in r <==> x in sel)
  {
    if id in sel then sel - {id} else sel + {id}
  }

  function IdIn<T>(rowId: T -> Id, sel: set<Id>): (p: T -> bool)
  {
    (x: T) => rowId(x) in sel
  }

  /** The rows of `data` whose id is selected, in data order (`data.filter(d => next.has(d.id))`). */
  function SelectedRows<T>(data: seq<T>, rowId: T -> Id, sel: set<Id>): (r: seq<T>)
  {
    Filter(data, IdIn(rowId, sel))
  }

  /** The payload holds only current rows whose id is selected, and every such row. */
  lemma SelectedRowsMembers<T>(data: seq<T>, rowId: T -> Id, sel: set<Id>)
    ensures var r := SelectedRows(data, rowId, sel);
      (forall i :: 0 <= i < |r| ==> r[i] in data && rowId(r[i]) in sel) &&
      (forall i :: 0 <= i < |data| && rowId(data[i]) in sel ==> data[i] in r)
  {
    FilterMembers(data, IdIn(rowId, sel));
  }

  /** Nothing selected: an empty payload. */
  lemma SelectedRowsNone<T>(data: seq<T>, rowId: T -> Id)
    ensures SelectedRows(data, rowId, {}) == []
  {
    FilterNone(data, IdIn(rowId, {}));
  }

  /** The set of ids of `data` (`new Set(data.map(d => d.id))`). */
  function IdsOf<T>(data: seq<T>, rowId: T -> Id): (r: set<Id>)
    ensures forall i :: 0 <= i < |data| ==> rowId(data[i]) in r
    ensures |r| <= |data|
    decreases |data|
  {
    if data == [] then {} else IdsOf(data[..|data| - 1], rowId) + {rowId(data[|data| - 1])}
  }

  /** An id that no row has is not in the set. */
  lemma {:induction false} IdsOfExcludes<T>(data: seq<T>, rowId: T -> Id, x: Id)
    requires forall i :: 0 <= i < |data| ==> rowId(data[i]) != x
    ensures x !in IdsOf(data, rowId)
    decreases |data|
  {
    if data != [] {
      var init := data[..|data| - 1];
      forall i | 0 <= i < |init| ensures rowId(init[i]) != x {
        assert init[i] == data[i];
      }
      IdsOfExcludes(init, rowId, x);
    }
  }

  /** When every row's id is in `S`, so is every id of the set. */
  lemma {:induction false} IdsOfWithin<T>(data: seq<T>, rowId: T -> Id, S: set<Id>)
    requires forall i :: 0 <= i < |data| ==> rowId(data[i]) in S
    ensures IdsOf(data, rowId) <= S
    decreases |data|
  {
    if data != [] {
      var init := data[..|data| - 1];
      forall i | 0 <= i < |init| ensures rowId(init[i]) in S {
        assert init[i] == data[i];
      }
      IdsOfWithin(init, rowId, S);
    }
  }

  /** Every row of `data` in the selection also shows up in the payload: the payload is then all of `data`. */
  lemma SelectedRowsAll<T>(data: seq<T>, rowId: T -> Id)
    ensures SelectedRows(data, rowId, IdsOf(data, rowId)) == data
  {
    FilterAll(data, IdIn(rowId, IdsOf(data, rowId)));
  }

  /** No two rows share an id. */
  ghost predicate UniqueIds<T>(data: seq<T>, rowId: T -> Id)
  {
    forall i, j :: 0 <= i < j < |data| ==> rowId(data[i]) != rowId(data[j])
  }

  lemma {:induction false} UniqueIdsSize<T>(data: seq<T>, rowId: T -> Id)
    requires UniqueIds(data, rowId)
    ensures |IdsOf(data, rowId)| == |data|
    decreases |data|
  {
    if data != [] {
      var init, last := data[..|data| - 1], data[|data| - 1];
      assert UniqueIds(init, rowId);
      UniqueIdsSize(init, rowId);
      forall i | 0 <= i < |init| ensures rowId(init[i]) != rowId(last) {
        assert init[i] == data[i];
      }
      IdsOfExcludes(init, rowId, rowId(last));
    }
  }

  lemma {:induction false} DuplicateIdsSize<T>(data: seq<T>, rowId: T -> Id)
    requires !UniqueIds(data, rowId)
    ensures |IdsOf(data, rowId)| < |data|
    decreases |data|
  {
    var init, last := data[..|data| - 1], data[|data| - 1];
    if UniqueIds(init, rowId) {
      var i, j :| 0 <= i < j < |data| && rowId(data[i]) == rowId(data[j]);
      assert j == |data| - 1;
      assert init[i] == data[i];
      assert IdsOf(data, rowId) == IdsOf(init, rowId);
    } else {
      DuplicateIdsSize(init, rowId);
    }
  }

  /** The id set has one id per row exactly when the ids are unique; duplicates collapse. */
  lemma IdsOfSize<T>(data: seq<T>, rowId: T -> Id)
    ensures UniqueIds(data, rowId) <==> |IdsOf(data, rowId)| == |data|
  {
    if UniqueIds(data, rowId) { UniqueIdsSize(data, rowId); } else { DuplicateIdsSize(data, rowId); }
  }

  /** The new selection after `toggleSelectAll`: cleared when its size equals the row count, all ids otherwise. */
  function SelectAllNext<T>(sel: set<Id>, data: seq<T>, rowId: T -> Id): (r: set<Id>)
  {
    if |sel| == |data| then {} else IdsOf(data, rowId)
  }

  /** Whether the header checkbox is checked (line 102). */
  predicate HeaderChecked<T>(sel: set<Id>, data: seq<T>)
  {
    |sel| == |data| && |data| > 0
  }

  /** Whether a row shows as selected (lines 144, 154). */
  predicate RowChecked<T>(sel: set<Id>, rowId: T -> Id, row: T)
  {
    rowId(row) in sel
  }

  /**
   * For a selection of current ids over rows with unique ids, the size
   * test of line 82 is the same as "every row is selected".
   */
  lemma SizeTestIsSetEquality<T>(sel: set<Id>, data: seq<T>, rowId: T -> Id)
    requires sel <= IdsOf(data, rowId) && UniqueIds(data, rowId)
    ensures |sel| == |data| <==> sel == IdsOf(data, rowId)
  {
    var all := IdsOf(data, rowId);
    UniqueIdsSize(data, rowId);
    assert all == sel + (all - sel) && sel !! (all - sel);
    assert |all| == |sel| + |all - sel|;
    if |sel| == |data| {
      assert all - sel == {};
    }
  }

  /**
   * Under the same conditions the header checkbox is checked exactly when
   * there are rows and every one of them shows as selected.
   */
  lemma HeaderMeansEveryRow<T>(sel: set<Id>, data: seq<T>, rowId: T -> Id)
    requires sel <= IdsOf(data, rowId) && UniqueIds(data, rowId)
    ensures HeaderChecked(sel, data) <==> |data| > 0 && forall i :: 0 <= i < |data| ==> RowChecked(sel, rowId, data[i])
  {
    SizeTestIsSetEquality(sel, data, rowId);
    if |data| > 0 && forall i :: 0 <= i < |data| ==> RowChecked(sel, rowId, data[i]) {
      IdsOfWithin(data, rowId, sel);
    }
  }

  /** From nothing selected over non-empty rows with unique ids, two select-all toggles select all, then nothing. */
  lemma SelectAllTwiceClears<T>(data: seq<T>, rowId: T -> Id)
    requires data != [] && UniqueIds(data, rowId)
    ensures SelectAllNext({}, data, rowId) == IdsOf(data, rowId)
    ensures HeaderChecked(IdsOf(data, rowId), data)
    ensures SelectAllNext(SelectAllNext({}, data, rowId), data, rowId) == {}
  {
    IdsOfSize(data, rowId);
  }

  /**
   * With a duplicated id and a selection of current ids, the selection has
   * fewer ids than there are rows, so select-all always selects everything
   * and the header checkbox never shows checked.
   */
  lemma DuplicateIdsNeverClear<T>(sel: set<Id>, data: seq<T>, rowId: T -> Id)
    requires sel <= IdsOf(data, rowId) && !UniqueIds(data, rowId)
    ensures SelectAllNext(sel, data, rowId) == IdsOf(data, rowId)
    ensures !HeaderChecked(sel, data)
  {
    var all := IdsOf(data, rowId);
    DuplicateIdsSize(data, rowId);
    assert all == sel + (all - sel) && sel !! (all - sel);
    assert |all| == |sel| + |all - sel|;
  }
}
