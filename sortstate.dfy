/**
 * The sort-state machine `toggleSort` (src/components/DataTable.tsx,
 * lines 52-66) over the pair (`sortKey`, `sortDir`), and the three-state
 * header machine it implements.
 */
module SortState {
  import opened Wrappers
  import opened Comparator

  /** A column descriptor; a missing `sortable` flag is `false`. */
  datatype Column = Column(key: string, title: string, dataIndex: Field, sortable: bool)

  /** The state pair (`sortKey`, `sortDir`). */
  datatype SortState = SortState(key: Option<Field>, dir: Dir)

  /** The state the table starts in (lines 26-27): no key, direction ascending. */
  const Initial: SortState := SortState(None, Asc)

  /** The effect of a click on the header of column `c`. */
  function NextSort(s: SortState, c: Column): (r: SortState)
  {
    if !c.sortable then s
    else if s.key == Some(c.dataIndex) then
      if s.dir == Asc then SortState(s.key, Desc)
      else if s.dir == Desc then SortState(None, Asc)
      else SortState(s.key, Asc)
    else SortState(Some(c.dataIndex), Asc)
  }

  /** The states the table can reach: the direction is never `null`, and it is ascending when there is no key. */
  ghost predicate Reachable(s: SortState)
  {
    s.dir != Unset && (s.key.None? ==> s.dir == Asc)
  }

  /** The header machine: unsorted, ascending by a field, or descending by a field. */
  datatype Header = Unsorted | Ascending(f: Field) | Descending(f: Field)

  /** The header state a reachable state pair stands for. */
  function View(s: SortState): (h: Header)
    requires Reachable(s)
  {
    match s.key
    case None => Unsorted
    case Some(f) => if s.dir == Asc then Ascending(f) else Descending(f)
  }

  /**
   * Reference transitions of the header machine: a non-sortable column is
   * a self-loop; another sortable column starts ascending; the active one
   * goes ascending, then descending, then unsorted.
   */
  function HeaderClick(h: Header, c: Column): (r: Header)
  {
    if !c.sortable then h
    else match h
      case Ascending(f) => if f == c.dataIndex then Descending(f) else Ascending(c.dataIndex)
      case Descending(f) => if f == c.dataIndex then Unsorted else Ascending(c.dataIndex)
      case Unsorted => Ascending(c.dataIndex)
  }

  lemma InitialReachable()
    ensures Reachable(Initial) && View(Initial) == Unsorted
  {
  }

  /** `toggleSort` keeps the state reachable and moves it as the header machine does. */
  lemma NextSortRefinesHeader(s: SortState, c: Column)
    requires Reachable(s)
    ensures Reachable(NextSort(s, c))
    ensures View(NextSort(s, c)) == HeaderClick(View(s), c)
  {
  }

  /** In a reachable state the `else setSortDir('asc')` branch (line 61) cannot be taken. */
  lemma NullDirectionBranchDead(s: SortState, c: Column)
    requires Reachable(s)
    ensures !(c.sortable && s.key == Some(c.dataIndex) && s.dir != Asc && s.dir != Desc)
  {
  }

  /** A click on a column that is not sortable changes nothing. */
  lemma NonSortableNoOp(s: SortState, c: Column)
    requires !c.sortable
    ensures NextSort(s, c) == s
  {
  }

  /** A click on a sortable column other than the active one sorts by it ascending. */
  lemma OtherColumnStartsAscending(s: SortState, c: Column)
    requires c.sortable && s.key != Some(c.dataIndex)
    ensures NextSort(s, c) == SortState(Some(c.dataIndex), Asc)
  {
  }

  /** Clicks on the active column go ascending to descending to no key. */
  lemma ActiveColumnCycles(f: Field, c: Column)
    requires c.sortable && c.dataIndex == f
    ensures NextSort(SortState(Some(f), Asc), c) == SortState(Some(f), Desc)
    ensures NextSort(SortState(Some(f), Desc), c) == Initial
  {
  }

  /**
   * From the initial state three clicks on one sortable column give
   * ascending, descending, unsorted, and a fourth starts over.
   */
  lemma ClickCycle(c: Column)
    requires c.sortable
    ensures var s1 := NextSort(Initial, c);
      var s2 := NextSort(s1, c);
      var s3 := NextSort(s2, c);
      View(s1) == Ascending(c.dataIndex) && View(s2) == Descending(c.dataIndex) &&
      s3 == Initial && NextSort(s3, c) == s1
  {
  }

  /** After any click on a sortable column, three more clicks on it return to the same state. */
  lemma PeriodThree(s: SortState, c: Column)
    requires c.sortable
    ensures var s1 := NextSort(s, c);
      NextSort(NextSort(NextSort(s1, c), c), c) == s1
  {
  }
}
