/** The visited-park tracker of script.js (class `EBRPTracker`) with the map,
    the DOM and the browser's storage stripped away: a set of visited park
    ids and the list's sort-selector value, over an immutable catalogue. */
module Tracker {
  import opened Parks

  /** The mutable part of the tracker. `currentSort` holds the sort
      selector's raw value, as the page stores it. */
  datatype State = State(visited: set<int>, currentSort: string)

  /** The constructor's state, before anything is loaded from storage. */
  const Initial: State := State({}, "alphabetical")

  // ---------------------------------------------------------------------
  // Toggle and clear
  // ---------------------------------------------------------------------

  /** `toggleParkVisit`: flips the membership of `parkId`. The id is not
      checked against the catalogue. */
  function ToggleParkVisit(s: State, parkId: int): (s': State)
    ensures parkId in s'.visited <==> parkId !in s.visited
    ensures forall id :: id != parkId ==> (id in s'.visited <==> id in s.visited)
    ensures s'.currentSort == s.currentSort
  {
    if parkId in s.visited then s.(visited := s.visited - {parkId})
    else s.(visited := s.visited + {parkId})
  }

  /** Toggling the same id twice gives back the state toggled from. */
  lemma ToggleTwice(s: State, parkId: int)
    ensures ToggleParkVisit(ToggleParkVisit(s, parkId), parkId) == s
  {
    var t := ToggleParkVisit(ToggleParkVisit(s, parkId), parkId);
    assert t.visited == s.visited;
  }

  /** Toggles of two ids commute. */
  lemma ToggleCommutes(s: State, a: int, b: int)
    ensures ToggleParkVisit(ToggleParkVisit(s, a), b) == ToggleParkVisit(ToggleParkVisit(s, b), a)
  {
    var l := ToggleParkVisit(ToggleParkVisit(s, a), b);
    var r := ToggleParkVisit(ToggleParkVisit(s, b), a);
    assert l.visited == r.visited;
  }

  /** `clearAllVisits`: empties the visited set; the sort selector stays. */
  function ClearAllVisits(s: State): (s': State)
    ensures s'.visited == {}
    ensures s'.currentSort == s.currentSort
  {
    s.(visited := {})
  }

  /** After clearing, the page shows no park visited: 0 of the catalogue,
      0% when the catalogue is not empty. */
  lemma ClearedStats(s: State, catalogue: seq<Park>)
    ensures UpdateStats(ClearAllVisits(s), catalogue).visitedCount == 0
    ensures |catalogue| > 0 ==> UpdateStats(ClearAllVisits(s), catalogue).percentage == Whole(0)
    ensures WithinCatalogue(ClearAllVisits(s), catalogue)
  {
  }

  /** The sort selector's `change` listener: stores the selected value. */
  function SetSort(s: State, value: string): (s': State)
    ensures s'.currentSort == value
    ensures s'.visited == s.visited
  {
    s.(currentSort := value)
  }

  /** The visited set holds only ids of catalogue parks. The page does not
      enforce this; the lemmas below say which operations keep it. */
  predicate WithinCatalogue(s: State, catalogue: seq<Park>) {
    s.visited <= Ids(catalogue)
  }

  /** A toggle keeps the visited set inside the catalogue exactly when it
      removes an id or the id it adds belongs to the catalogue. */
  lemma ToggleWithinCatalogue(s: State, catalogue: seq<Park>, parkId: int)
    requires WithinCatalogue(s, catalogue)
    ensures WithinCatalogue(ToggleParkVisit(s, parkId), catalogue) <==>
            parkId in s.visited || parkId in Ids(catalogue)
  {
  }

  // ---------------------------------------------------------------------
  // Statistics
  // ---------------------------------------------------------------------

  /** The number `Math.round((visited / total) * 100)` displays: a whole
      number, or NaN for 0/0, or Infinity for a positive count over 0. */
  datatype Percent = Whole(value: int) | NaN | Infinity

  /** `Math.round(v / t * 100)` in exact arithmetic, halves rounded up. */
  function RoundedPercentage(visitedCount: nat, totalCount: nat): (p: Percent)
    ensures totalCount == 0 ==> (p == NaN <==> visitedCount == 0)
    ensures totalCount == 0 ==> (p == Infinity <==> visitedCount > 0)
    ensures totalCount > 0 ==> p.Whole?
    ensures totalCount > 0 ==>
      2 * totalCount * p.value - totalCount <= 200 * visitedCount < 2 * totalCount * p.value + totalCount
  {
    if totalCount == 0 then (if visitedCount == 0 then NaN else Infinity)
    else Whole((200 * visitedCount + totalCount) / (2 * totalCount))
  }

  /** A count within the total yields a percentage from 0 to 100. */
  lemma PercentageInRange(visitedCount: nat, totalCount: nat)
    requires 0 < totalCount && visitedCount <= totalCount
    ensures 0 <= RoundedPercentage(visitedCount, totalCount).value <= 100
  {
    var p := RoundedPercentage(visitedCount, totalCount).value;
    if p > 100 {
      MulMonotone(101, p, 2 * totalCount);
    }
  }

  lemma MulMonotone(a: int, b: int, c: nat)
    requires a <= b
    ensures a * c <= b * c
  {
  }

  /** More visited parks never lower the percentage. */
  lemma PercentageMonotone(v1: nat, v2: nat, totalCount: nat)
    requires 0 < totalCount && v1 <= v2
    ensures RoundedPercentage(v1, totalCount).value <= RoundedPercentage(v2, totalCount).value
  {
    var p1 := RoundedPercentage(v1, totalCount).value;
    var p2 := RoundedPercentage(v2, totalCount).value;
    if p1 > p2 {
      MulMonotone(p2 + 1, p1, 2 * totalCount);
    }
  }

  /** What `updateStats` writes into the page. */
  datatype Stats = Stats(visitedCount: nat, totalCount: nat, percentage: Percent)

  /** `updateStats`: the size of the visited set (which may hold ids outside
      the catalogue), the catalogue size, and the rounded percentage. */
  function UpdateStats(s: State, catalogue: seq<Park>): (st: Stats)
    ensures st.visitedCount == |s.visited| && st.totalCount == |catalogue|
    ensures st.percentage == RoundedPercentage(|s.visited|, |catalogue|)
  {
    var visitedCount := |s.visited|;
    var totalCount := |catalogue|;
    Stats(visitedCount, totalCount, RoundedPercentage(visitedCount, totalCount))
  }

  /** With no park visited the page shows 0%, for any non-empty catalogue. */
  lemma FreshStats(catalogue: seq<Park>)
    requires |catalogue| > 0
    ensures UpdateStats(Initial, catalogue) == Stats(0, |catalogue|, Whole(0))
  {
  }

  /** Halves round up: 1 of 3 shows 33%, 1 of 2 shows 50%, 1 of 8 (12.5)
      shows 13% and 2 of 3 shows 67%. */
  lemma PercentageExamples()
    ensures RoundedPercentage(1, 3) == Whole(33)
    ensures RoundedPercentage(1, 2) == Whole(50)
    ensures RoundedPercentage(1, 8) == Whole(13)
    ensures RoundedPercentage(2, 3) == Whole(67)
    ensures RoundedPercentage(0, 0) == NaN
  {
  }

  // ---------------------------------------------------------------------
  // Export
  // ---------------------------------------------------------------------

  /** One entry of the exported `visitedParks` array. */
  datatype ParkSummary = ParkSummary(name: string, city: string, county: string, acres: real)

  function Summary(p: Park): ParkSummary {
    ParkSummary(p.name, p.city, p.county, p.acres)
  }

  /** The JSON document `exportProgress` offers for download. */
  datatype ExportData = ExportData(
    totalParks: nat,
    visitedCount: nat,
    percentage: Percent,
    exportDate: string,
    visitedParks: seq<ParkSummary>)

  /** The catalogue parks whose id is visited, in catalogue order. */
  function VisitedInCatalogue(catalogue: seq<Park>, visited: set<int>): (r: seq<Park>)
    ensures |r| <= |catalogue|
    ensures forall p :: p in r <==> p in catalogue && p.id in visited
  {
    if |catalogue| == 0 then []
    else
      var rest := VisitedInCatalogue(catalogue[..|catalogue| - 1], visited);
      var last := catalogue[|catalogue| - 1];
      assert catalogue == catalogue[..|catalogue| - 1] + [last];
      if last.id in visited then rest + [last] else rest
  }

  /** The filter works piecewise, so its result keeps catalogue order. */
  lemma {:induction false} VisitedInCatalogueAppend(a: seq<Park>, b: seq<Park>, visited: set<int>)
    ensures VisitedInCatalogue(a + b, visited) ==
            VisitedInCatalogue(a, visited) + VisitedInCatalogue(b, visited)
    decreases |b|
  {
    if |b| > 0 {
      var b' := b[..|b| - 1];
      VisitedInCatalogueAppend(a, b', visited);
      assert (a + b)[..|a + b| - 1] == a + b';
    } else {
      assert a + b == a;
    }
  }

  /** `exportProgress`: the date is the caller's, since it comes from the clock. */
  function ExportProgress(s: State, catalogue: seq<Park>, exportDate: string): (e: ExportData)
    ensures e.totalParks == UpdateStats(s, catalogue).totalCount
    ensures e.visitedCount == UpdateStats(s, catalogue).visitedCount
    ensures e.percentage == UpdateStats(s, catalogue).percentage
    ensures e.exportDate == exportDate
    ensures |e.visitedParks| == |VisitedInCatalogue(catalogue, s.visited)|
    ensures forall i :: 0 <= i < |e.visitedParks| ==>
      e.visitedParks[i] == Summary(VisitedInCatalogue(catalogue, s.visited)[i])
  {
    var details := VisitedInCatalogue(catalogue, s.visited);
    ExportData(
      |catalogue|,
      |s.visited|,
      RoundedPercentage(|s.visited|, |catalogue|),
      exportDate,
      seq(|details|, i requires 0 <= i < |details| => Summary(details[i])))
  }

  /** The download's file name. */
  function ExportFileName(exportDate: string): (name: string)
    ensures |name| == |exportDate| + 19
    ensures name[..14] == "ebrp-progress-" && name[|name| - 5..] == ".json"
    ensures name[14..|name| - 5] == exportDate
  {
    "ebrp-progress-" + exportDate + ".json"
  }

  /** With unique catalogue ids, the filter picks one park per visited id
      that the catalogue knows. */
  lemma {:induction false} VisitedInCatalogueCount(catalogue: seq<Park>, visited: set<int>)
    requires UniqueIds(catalogue)
    ensures |VisitedInCatalogue(catalogue, visited)| == |visited * Ids(catalogue)|
    decreases |catalogue|
  {
    if |catalogue| == 0 {
      assert visited * Ids(catalogue) == {};
    } else {
      var n := |catalogue| - 1;
      var init := catalogue[..n];
      var last := catalogue[n];
      UniqueIdsInit(catalogue);
      VisitedInCatalogueCount(init, visited);
      SplitLast(catalogue);
      IdsSnoc(init, last);
      VisitedInCatalogueSnoc(init, last, visited);
      IntersectWithOneMore(visited, Ids(init), last.id);
    }
  }

  lemma SplitLast(s: seq<Park>)
    requires |s| > 0
    ensures s == s[..|s| - 1] + [s[|s| - 1]]
  {
  }

  lemma VisitedInCatalogueSnoc(init: seq<Park>, last: Park, visited: set<int>)
    ensures VisitedInCatalogue(init + [last], visited) ==
            VisitedInCatalogue(init, visited) + (if last.id in visited then [last] else [])
  {
    assert (init + [last])[..|init|] == init;
  }

  lemma IntersectWithOneMore(a: set<int>, b: set<int>, x: int)
    requires x !in b
    ensures |a * (b + {x})| == |a * b| + (if x in a then 1 else 0)
  {
    if x in a {
      assert a * (b + {x}) == (a * b) + {x};
    } else {
      assert a * (b + {x}) == a * b;
    }
  }

  /** The exported list has as many entries as the exported `visitedCount`
      exactly when every visited id belongs to the catalogue. */
  lemma ExportCountsAgree(s: State, catalogue: seq<Park>, exportDate: string)
    requires UniqueIds(catalogue)
    ensures var e := ExportProgress(s, catalogue, exportDate);
      |e.visitedParks| == e.visitedCount <==> WithinCatalogue(s, catalogue)
  {
    var e := ExportProgress(s, catalogue, exportDate);
    assert |e.visitedParks| == |VisitedInCatalogue(catalogue, s.visited)|;
    assert e.visitedCount == |s.visited|;
    VisitedInCatalogueCount(catalogue, s.visited);
    var common := s.visited * Ids(catalogue);
    if |common| == |s.visited| {
      SubsetOfSameSize(common, s.visited);
    } else {
      assert common != s.visited;
    }
  }

  /** A subset as large as its superset is the superset. */
  lemma SubsetOfSameSize(a: set<int>, b: set<int>)
    requires a <= b && |a| == |b|
    ensures a == b
  {
    assert a * b == a && a + b == b && a - b == {};
    assert |b - a| == 0;
    assert b == a + (b - a);
  }

}
