/** Persisting the visited set under the page's storage key
    (`saveVisitedParks` / `loadVisitedParks`, script.js). The stored JSON text
    is represented by the id list it encodes. */
module Storage {
  import opened Tracker
  import opened Options

  /** `loadVisitedParks`: `saved` is what storage holds under the page's key,
      `None` when the key is absent. An absent key keeps the current set. */
  function LoadVisitedParks(s: State, saved: Option<seq<int>>): (s': State)
    ensures saved.None? ==> s' == s
    ensures saved.Some? ==> forall id :: id in s'.visited <==> id in saved.value
    ensures s'.currentSort == s.currentSort
  {
    match saved
    case None => s
    case Some(ids) => s.(visited := ToSet(ids))
  }

  /** `new Set(ids)`: the ids of a list, duplicates merged. */
  function ToSet(ids: seq<int>): (r: set<int>)
    ensures forall id :: id in r <==> id in ids
    ensures |r| <= |ids|
  {
    if |ids| == 0 then {}
    else ToSet(ids[..|ids| - 1]) + {ids[|ids| - 1]}
  }

  /** `saveVisitedParks`: lists each visited id once. The order is the set's
      enumeration order, which the model leaves open. */
  method SaveVisitedParks(s: State) returns (ids: seq<int>)
    ensures |ids| == |s.visited|
    ensures forall i, j :: 0 <= i < j < |ids| ==> ids[i] != ids[j]
    ensures forall id :: id in ids <==> id in s.visited
  {
    ids := [];
    var rest := s.visited;
    while rest != {}
      invariant rest <= s.visited
      invariant forall id :: id in ids <==> id in s.visited - rest
      invariant |ids| + |rest| == |s.visited|
      invariant forall i, j :: 0 <= i < j < |ids| ==> ids[i] != ids[j]
      decreases |rest|
    {
      HasElement(rest);
      var x :| x in rest;
      assert x !in ids;
      assert |rest - {x}| == |rest| - 1;
      ids := ids + [x];
      rest := rest - {x};
    }
  }

  /** Loading what was saved gives back the saved set, whatever the sort. */
  lemma LoadAfterSave(s: State, ids: seq<int>, t: State)
    requires forall id :: id in ids <==> id in s.visited
    ensures LoadVisitedParks(t, Some(ids)).visited == s.visited
  {
    var loaded := LoadVisitedParks(t, Some(ids)).visited;
    assert forall id :: id in loaded <==> id in s.visited;
  }

  /** A set is empty or has an element. */
  lemma HasElement(s: set<int>)
    ensures s == {} || exists x :: x in s
  {
    if forall x :: x !in s {
      assert s == {};
    }
  }
}
