/**
 * The engine's functions, proved on the demo page's sample rows
 * (src/App.tsx, lines 5-11).
 */
module Scenarios {
  import opened Wrappers
  import opened Seqs
  import opened Comparator
  import opened Ordering
  import opened SortState
  import opened Selection

  datatype Person = Person(id: int, name: string, age: int)

  function PersonId(p: Person): (id: Id)
  {
    NumId(p.id)
  }

  /** `row[field]` for a `Person`; any other field name is absent. */
  function PersonCell(p: Person, f: Field): (v: Option<Value>)
  {
    if f == "id" then Some(Num(p.id))
    else if f == "name" then Some(Str(p.name))
    else if f == "age" then Some(Num(p.age))
    else None
  }

  const Akshat := Person(1, "Akshat", 24)
  const Riya := Person(2, "Riya", 27)
  const Sana := Person(3, "Sana", 22)
  const Sample: seq<Person> := [Akshat, Riya, Sana]

  const AgeColumn := Column("age", "Age", "age", true)

  /** The age of each sample row, as the sort reads it. */
  lemma AgeKeys()
    ensures ColumnKey(PersonCell, "age")(Akshat) == Some(Num(24))
    ensures ColumnKey(PersonCell, "age")(Riya) == Some(Num(27))
    ensures ColumnKey(PersonCell, "age")(Sana) == Some(Num(22))
  {
    var key := ColumnKey(PersonCell, "age");
    assert |"age"| != |"id"| && |"age"| != |"name"|;
    assert key(Akshat) == PersonCell(Akshat, "age");
    assert key(Riya) == PersonCell(Riya, "age");
    assert key(Sana) == PersonCell(Sana, "age");
  }

  /** Sorting by age ascending gives ids 3, 1, 2. */
  lemma SortByAgeAscending()
    ensures SortedData(Sample, PersonCell, Some("age"), Asc) == [Sana, Akshat, Riya]
  {
    var key := ColumnKey(PersonCell, "age");
    AgeKeys();
    SortRowsLast(Sample, key, Asc);
    SortRowsLast([Akshat, Riya], key, Asc);
    SortRowsLast([Akshat], key, Asc);
    assert Sample[..2] == [Akshat, Riya] && [Akshat, Riya][..1] == [Akshat] && [Akshat][..0] == [];
    assert SortRows([Akshat], key, Asc) == Insert([], Akshat, key, Asc) == [Akshat];
    assert Insert([Akshat], Riya, key, Asc) == [Akshat] + Insert([], Riya, key, Asc);
    assert SortRows([Akshat, Riya], key, Asc) == [Akshat, Riya];
    assert Insert([Akshat, Riya], Sana, key, Asc) == [Sana, Akshat, Riya];
  }

  /** Sorting by age descending gives ids 2, 1, 3. */
  lemma SortByAgeDescending()
    ensures SortedData(Sample, PersonCell, Some("age"), Desc) == [Riya, Akshat, Sana]
  {
    var key := ColumnKey(PersonCell, "age");
    AgeKeys();
    SortRowsLast(Sample, key, Desc);
    SortRowsLast([Akshat, Riya], key, Desc);
    SortRowsLast([Akshat], key, Desc);
    assert Sample[..2] == [Akshat, Riya] && [Akshat, Riya][..1] == [Akshat] && [Akshat][..0] == [];
    assert SortRows([Akshat], key, Desc) == Insert([], Akshat, key, Desc) == [Akshat];
    assert SortRows([Akshat, Riya], key, Desc) == Insert([Akshat], Riya, key, Desc) == [Riya, Akshat];
    assert Insert([Riya, Akshat], Sana, key, Desc) == [Riya] + Insert([Akshat], Sana, key, Desc);
    assert Insert([Akshat], Sana, key, Desc) == [Akshat] + Insert([], Sana, key, Desc);
  }

  /** Without a sort key the sample keeps its order 1, 2, 3. */
  lemma NoKeyKeepsOrder()
    ensures SortedData(Sample, PersonCell, None, Asc) == Sample
    ensures SortedData(Sample, PersonCell, Some(""), Desc) == Sample
  {
  }

  /** Clicking the age header three times shows ascending, descending, then the input order again. */
  lemma AgeHeaderClicks()
    ensures var s1 := NextSort(Initial, AgeColumn);
      var s2 := NextSort(s1, AgeColumn);
      var s3 := NextSort(s2, AgeColumn);
      SortedData(Sample, PersonCell, s1.key, s1.dir) == [Sana, Akshat, Riya] &&
      SortedData(Sample, PersonCell, s2.key, s2.dir) == [Riya, Akshat, Sana] &&
      SortedData(Sample, PersonCell, s3.key, s3.dir) == Sample
  {
    SortByAgeAscending();
    SortByAgeDescending();
  }

  /** Select-all from nothing selects ids 1, 2, 3; a second call clears. */
  lemma SelectAllSample()
    ensures SelectAllNext({}, Sample, PersonId) == {NumId(1), NumId(2), NumId(3)}
    ensures SelectAllNext({NumId(1), NumId(2), NumId(3)}, Sample, PersonId) == {}
  {
    assert Sample[..2] == [Akshat, Riya] && [Akshat, Riya][..1] == [Akshat] && [Akshat][..0] == [];
    assert IdsOf([Akshat], PersonId) == {NumId(1)};
    assert IdsOf([Akshat, Riya], PersonId) == {NumId(1), NumId(2)};
    assert IdsOf(Sample, PersonId) == {NumId(1), NumId(2), NumId(3)};
  }

  /** A selection {1, 2} against the filtered rows [Riya] is replaced by {2}. */
  lemma SelectAllAfterFilter()
    ensures SelectAllNext({NumId(1), NumId(2)}, [Riya], PersonId) == {NumId(2)}
  {
    assert [Riya][..0] == [];
  }

  /**
   * A stale selection {1} against the rows [Riya] has the rows' size, so
   * select-all clears it, although it is not the set of current ids.
   */
  lemma StaleSelectionCleared()
    ensures {NumId(1)} != IdsOf([Riya], PersonId)
    ensures SelectAllNext({NumId(1)}, [Riya], PersonId) == {}
  {
    assert [Riya][..0] == [];
  }

  /** Toggling row 2 with rows [Akshat, Sana] on screen reports nothing, as row 2 is not there. */
  lemma ToggleAbsentRow()
    ensures Flip({}, NumId(2)) == {NumId(2)}
    ensures SelectedRows([Akshat, Sana], PersonId, Flip({}, NumId(2))) == []
  {
    var p := IdIn(PersonId, {NumId(2)});
    assert p(Akshat) == (PersonId(Akshat) in {NumId(2)});
    assert p(Sana) == (PersonId(Sana) in {NumId(2)});
    assert [Akshat, Sana][1..] == [Sana] && [Sana][1..] == [];
    assert Filter([Sana], p) == [];
  }
}
