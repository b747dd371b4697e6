/**
 * The table engine of `DataTable` (src/components/DataTable.tsx): the sort
 * and selection state the component keeps, the three click handlers that
 * update it, and the display order derived from it. The component's
 * `data` prop is passed to each operation; `onRowSelect` receives what the
 * selection methods return.
 */
module Engine {
  import opened Wrappers
  import opened Seqs
  import opened Comparator
  import opened Ordering
  import opened SortState
  import opened Selection

  class TableEngine<T> {
    /** The id of a row (`row.id`). */
    const rowId: T -> Id
    /** The value of a row's field, `None` when it is null or absent (`row[field]`). */
    const cell: (T, Field) -> Option<Value>

    var sortKey: Option<Field>
    var sortDir: Dir
    var selected: set<Id>

    ghost predicate Valid()
      reads this
    {
      Reachable(SortState(sortKey, sortDir))
    }

    constructor (rowId: T -> Id, cell: (T, Field) -> Option<Value>)
      ensures Valid()
      ensures this.rowId == rowId && this.cell == cell
      ensures SortState(sortKey, sortDir) == Initial && selected == {}
    {
      this.rowId := rowId;
      this.cell := cell;
      sortKey := None;
      sortDir := Asc;
      selected := {};
    }

    /**
     * `sortedData`: the rows in display order. The input itself when no key
     * is active; otherwise a sorted copy, with absent values last and, in a
     * column of one kind, present values in order and equal keys in input
     * order.
     */
    method DisplayOrder(data: seq<T>) returns (rows: seq<T>)
      ensures rows == SortedData(data, cell, sortKey, sortDir)
      ensures !SortActive(sortKey) ==> rows == data
      ensures multiset(rows) == multiset(data)
      ensures SortActive(sortKey) ==> NullsLast(rows, ColumnKey(cell, sortKey.value))
      ensures forall k: Kind :: SortActive(sortKey) && Uniform(data, ColumnKey(cell, sortKey.value), k) ==>
        SortedBy(rows, ColumnKey(cell, sortKey.value), sortDir) &&
        StableFor(rows, data, ColumnKey(cell, sortKey.value))
    {
      if !SortActive(sortKey) {
        return data;
      }
      var key := ColumnKey(cell, sortKey.value);
      rows := SortRows(data, key, sortDir);
      SortPermutation(data, key, sortDir);
      SortNullsLast(data, key, sortDir);
      forall k: Kind | Uniform(data, key, k)
        ensures SortedBy(rows, key, sortDir) && StableFor(rows, data, key)
      {
        SortSorted(data, key, sortDir, k);
        forall v ensures Filter(rows, KeyIs(key, v)) == Filter(data, KeyIs(key, v)) {
          SortStable(data, key, sortDir, k, v);
        }
      }
    }

    /** `toggleSort`: a click on the header of `column`. */
    method ToggleSort(column: Column)
      modifies this`sortKey, this`sortDir
      ensures SortState(sortKey, sortDir) == NextSort(old(SortState(sortKey, sortDir)), column)
      ensures old(Valid()) ==> Valid()
      ensures old(Valid()) ==> View(SortState(sortKey, sortDir)) == HeaderClick(old(View(SortState(sortKey, sortDir))), column)
    {
      ghost var before := SortState(sortKey, sortDir);
      if !column.sortable {
        return;
      }
      var key := column.dataIndex;
      if sortKey == Some(key) {
        if sortDir == Asc {
          sortDir := Desc;
        } else if sortDir == Desc {
          sortKey := None;
          sortDir := Asc;
        } else {
          sortDir := Asc;
        }
      } else {
        sortKey := Some(key);
        sortDir := Asc;
      }
      if Reachable(before) {
        NextSortRefinesHeader(before, column);
      }
    }

    /**
     * `toggleSelectRow`: flips `id` in the selection and returns the
     * callback payload, the rows of `data` now selected, in data order.
     */
    method ToggleSelectRow(id: Id, data: seq<T>) returns (payload: seq<T>)
      modifies this`selected
      ensures selected == Flip(old(selected), id)
      ensures payload == SelectedRows(data, rowId, selected)
      ensures forall i :: 0 <= i < |payload| ==> payload[i] in data && rowId(payload[i]) in selected
      ensures forall i :: 0 <= i < |data| && rowId(data[i]) in selected ==> data[i] in payload
    {
      var next := selected;
      if id in next {
        next := next - {id};
      } else {
        next := next + {id};
      }
      payload := Filter(data, IdIn(rowId, next));
      SelectedRowsMembers(data, rowId, next);
      selected := next;
    }

    /**
     * `toggleSelectAll`: clears the selection when its size equals the
     * number of rows, and otherwise selects exactly the ids of `data`;
     * returns the callback payload.
     */
    method ToggleSelectAll(data: seq<T>) returns (payload: seq<T>)
      modifies this`selected
      ensures selected == SelectAllNext(old(selected), data, rowId)
      ensures |old(selected)| == |data| ==> selected == {} && payload == []
      ensures |old(selected)| != |data| ==> selected == IdsOf(data, rowId) && payload == data
      ensures payload == SelectedRows(data, rowId, selected)
    {
      if |selected| == |data| {
        payload := [];
        selected := {};
        SelectedRowsNone(data, rowId);
        return;
      }
      var all := IdsOf(data, rowId);
      payload := data;
      selected := all;
      SelectedRowsAll(data, rowId);
    }
  }
}
