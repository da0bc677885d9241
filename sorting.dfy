/** The sort specification both list handlers hand to the database: built
    key by key from the `sortBy` list, `createdAt` descending and any other
    key ascending; without a list, a fixed default. The object is modelled
    as the ordered list of its keys with their directions, in the order a
    JavaScript object keeps its (non-numeric) keys: first insertion. */
module Sorting {
  import opened Wrappers
  import opened Records

  datatype Direction = Asc | Desc

  datatype SortKey = SortKey(field: string, direction: Direction)

  /** The direction given to a key named in `sortBy`. */
  function DirectionFor(field: string): Direction
  {
    if field == "createdAt" then Desc else Asc
  }

  /** The order used when no `sortBy` is given. */
  const DefaultSort: seq<SortKey> :=
    [SortKey("createdAt", Desc), SortKey("branch", Asc), SortKey("year", Asc), SortKey("name", Asc)]

  function Fields(obj: seq<SortKey>): (fs: seq<string>)
    ensures |fs| == |obj| && forall k :: 0 <= k < |obj| ==> fs[k] == obj[k].field
  {
    if obj == [] then [] else Fields(obj[..|obj| - 1]) + [obj[|obj| - 1].field]
  }

  /** The elements of `s`, each once, in order of first occurrence. */
  function FirstOccurrences(s: seq<string>): seq<string>
  {
    if s == [] then []
    else
      var seen := FirstOccurrences(s[..|s| - 1]);
      if s[|s| - 1] in seen then seen else seen + [s[|s| - 1]]
  }

  /** Every key of `sortBy` appears once, and nothing else appears. */
  lemma {:induction false} FirstOccurrencesMeaning(s: seq<string>)
    ensures NoDuplicates(FirstOccurrences(s))
    ensures forall x :: x in FirstOccurrences(s) <==> x in s
  {
    if s != [] {
      var init := s[..|s| - 1];
      FirstOccurrencesMeaning(init);
      assert s == init + [s[|s| - 1]];
    }
  }

  /** The first key of the result is the first key asked for. */
  lemma {:induction false} FirstOccurrencesHead(s: seq<string>)
    requires s != []
    ensures FirstOccurrences(s) != [] && FirstOccurrences(s)[0] == s[0]
  {
    if |s| > 1 {
      FirstOccurrencesHead(s[..|s| - 1]);
      assert s[..|s| - 1][0] == s[0];
    }
  }

  /** The default puts the newest first and breaks ties by branch, year and
      name, all ascending; it follows the same direction rule. */
  lemma DefaultSortMeaning()
    ensures Fields(DefaultSort) == ["createdAt", "branch", "year", "name"]
    ensures forall k :: 0 <= k < |DefaultSort| ==> DefaultSort[k].direction == DirectionFor(DefaultSort[k].field)
  {
  }

  /** The sort object of the participant list and of the attendance report.
      Assigning a key already present keeps its position and, the direction
      depending on the key alone, its value; so only new keys change the
      object. */
  method BuildSortObject(sortBy: Option<seq<string>>) returns (obj: seq<SortKey>)
    ensures sortBy.None? ==> obj == DefaultSort
    ensures sortBy.Some? ==> Fields(obj) == FirstOccurrences(sortBy.value)
    ensures sortBy.Some? && sortBy.value != [] ==> obj != [] && obj[0].field == sortBy.value[0]
    ensures forall k :: 0 <= k < |obj| ==> obj[k].direction == DirectionFor(obj[k].field)
  {
    if sortBy.None? {
      return DefaultSort;
    }
    var keys := sortBy.value;
    obj := [];
    for i := 0 to |keys|
      invariant Fields(obj) == FirstOccurrences(keys[..i])
      invariant forall k :: 0 <= k < |obj| ==> obj[k].direction == DirectionFor(obj[k].field)
    {
      var sort := keys[i];
      assert keys[..i + 1][..i] == keys[..i];
      if sort !in Fields(obj) {
        obj := obj + [SortKey(sort, DirectionFor(sort))];
      }
    }
    assert keys[..|keys|] == keys;
    if keys != [] {
      FirstOccurrencesHead(keys);
    }
  }
}
