/** The three list orders of the tracker page (`getSortedParks`, script.js).
    String order is an abstract collation standing in for `localeCompare`. */
module ParkSort {
  import opened Parks
  import opened Comparators
  import opened Sorting

  /** `a.localeCompare(b)`: negative, zero or positive. */
  type Collation = (string, string) -> int

  /** 'alphabetical': by name. */
  function ByName(collate: Collation): (Park, Park) -> int {
    (a: Park, b: Park) => collate(a.name, b.name)
  }

  /** 'city': by city, and by name when the two cities are the same string. */
  function ByCity(collate: Collation): (Park, Park) -> int {
    (a: Park, b: Park) =>
      if a.city == b.city then collate(a.name, b.name) else collate(a.city, b.city)
  }

  /** 'visited': visited parks first, then by name within each group. */
  function ByVisited(collate: Collation, visited: set<int>): (Park, Park) -> int {
    (a: Park, b: Park) =>
      var aVisited := a.id in visited;
      var bVisited := b.id in visited;
      if aVisited && !bVisited then -1
      else if !aVisited && bVisited then 1
      else collate(a.name, b.name)
  }

  /** The list order for the sort-selector value `currentSort`; any value
      other than the three known ones leaves the catalogue order as it is. */
  function GetSortedParks(catalogue: seq<Park>, visited: set<int>, currentSort: string,
                          collate: Collation): (r: seq<Park>)
    ensures multiset(r) == multiset(catalogue)
    ensures currentSort !in {"alphabetical", "city", "visited"} ==> r == catalogue
  {
    if currentSort == "alphabetical" then Sort(catalogue, ByName(collate))
    else if currentSort == "city" then Sort(catalogue, ByCity(collate))
    else if currentSort == "visited" then Sort(catalogue, ByVisited(collate, visited))
    else catalogue
  }

  lemma ByNameIsComparator(collate: Collation)
    requires IsComparator(collate)
    ensures IsComparator(ByName(collate))
  {
    var cmp := ByName(collate);
    forall a: Park, b: Park ensures cmp(a, b) < 0 <==> cmp(b, a) > 0 {
      assert cmp(a, b) == collate(a.name, b.name) && cmp(b, a) == collate(b.name, a.name);
    }
    forall a: Park, b: Park, c: Park | cmp(a, b) <= 0 && cmp(b, c) <= 0 ensures cmp(a, c) <= 0 {
      assert collate(a.name, b.name) <= 0 && collate(b.name, c.name) <= 0;
    }
  }

  lemma ByVisitedIsComparator(collate: Collation, visited: set<int>)
    requires IsComparator(collate)
    ensures IsComparator(ByVisited(collate, visited))
  {
    var cmp := ByVisited(collate, visited);
    forall a: Park, b: Park ensures cmp(a, b) < 0 <==> cmp(b, a) > 0 {
      if (a.id in visited) == (b.id in visited) {
        assert cmp(a, b) == collate(a.name, b.name) && cmp(b, a) == collate(b.name, a.name);
      }
    }
    forall a: Park, b: Park, c: Park | cmp(a, b) <= 0 && cmp(b, c) <= 0 ensures cmp(a, c) <= 0 {
      if (a.id in visited) == (b.id in visited) == (c.id in visited) {
        assert collate(a.name, b.name) <= 0 && collate(b.name, c.name) <= 0;
      }
    }
  }

  /** The city comparator is consistent only when equal-comparing city names
      are the same string: otherwise two parks in cities that collate equal
      but differ would be ordered by city on one side and by name on another. */
  lemma ByCityIsComparator(collate: Collation)
    requires IsComparator(collate)
    requires Distinguishes(collate)
    ensures IsComparator(ByCity(collate))
  {
    var cmp := ByCity(collate);
    forall a: Park, b: Park ensures cmp(a, b) < 0 <==> cmp(b, a) > 0 {
      if a.city == b.city {
        assert cmp(a, b) == collate(a.name, b.name) && cmp(b, a) == collate(b.name, a.name);
      } else {
        assert cmp(a, b) == collate(a.city, b.city) && cmp(b, a) == collate(b.city, a.city);
      }
    }
    forall a: Park, b: Park, c: Park | cmp(a, b) <= 0 && cmp(b, c) <= 0 ensures cmp(a, c) <= 0 {
      var ab := collate(a.city, b.city) <= 0;
      var bc := collate(b.city, c.city) <= 0;
      if a.city == b.city && b.city == c.city {
        assert collate(a.name, b.name) <= 0 && collate(b.name, c.name) <= 0;
      } else if a.city == b.city {
        assert bc && collate(a.city, c.city) <= 0;
      } else if b.city == c.city {
        assert ab && collate(a.city, c.city) <= 0;
      } else {
        assert ab && bc && collate(a.city, c.city) <= 0;
        if a.city == c.city {
          assert false;
        }
      }
    }
  }

  /** Alphabetical mode lists the catalogue, reordered, by name. */
  lemma AlphabeticalOrder(catalogue: seq<Park>, visited: set<int>, collate: Collation)
    requires IsComparator(collate)
    ensures var r := GetSortedParks(catalogue, visited, "alphabetical", collate);
      && multiset(r) == multiset(catalogue)
      && forall i, j :: 0 <= i < j < |r| ==> collate(r[i].name, r[j].name) <= 0
  {
    ByNameIsComparator(collate);
    SortSorted(catalogue, ByName(collate));
  }

  /** City mode lists parks by city, and parks of one city by name. */
  lemma CityOrder(catalogue: seq<Park>, visited: set<int>, collate: Collation)
    requires IsComparator(collate)
    requires Distinguishes(collate)
    ensures var r := GetSortedParks(catalogue, visited, "city", collate);
      && multiset(r) == multiset(catalogue)
      && (forall i, j :: 0 <= i < j < |r| ==> collate(r[i].city, r[j].city) <= 0)
      && (forall i, j :: 0 <= i < j < |r| && r[i].city == r[j].city ==>
            collate(r[i].name, r[j].name) <= 0)
  {
    ByCityIsComparator(collate);
    var r := Sort(catalogue, ByCity(collate));
    SortSorted(catalogue, ByCity(collate));
    forall i, j | 0 <= i < j < |r| ensures collate(r[i].city, r[j].city) <= 0 {
      assert ByCity(collate)(r[i], r[j]) <= 0;
      ComparatorIsTotal(collate, r[i].city, r[i].city);
    }
  }

  /** Visited mode puts every visited park before every unvisited one, and
      orders each of the two groups by name. */
  lemma VisitedOrder(catalogue: seq<Park>, visited: set<int>, collate: Collation)
    requires IsComparator(collate)
    ensures var r := GetSortedParks(catalogue, visited, "visited", collate);
      && multiset(r) == multiset(catalogue)
      && (forall i, j :: 0 <= i < j < |r| && r[j].id in visited ==> r[i].id in visited)
      && (forall i, j :: 0 <= i < j < |r| && (r[i].id in visited <==> r[j].id in visited) ==>
            collate(r[i].name, r[j].name) <= 0)
  {
    ByVisitedIsComparator(collate, visited);
    var r := Sort(catalogue, ByVisited(collate, visited));
    SortSorted(catalogue, ByVisited(collate, visited));
    forall i, j | 0 <= i < j < |r| ensures r[j].id in visited ==> r[i].id in visited {
      assert ByVisited(collate, visited)(r[i], r[j]) <= 0;
    }
    forall i, j | 0 <= i < j < |r| && (r[i].id in visited <==> r[j].id in visited)
      ensures collate(r[i].name, r[j].name) <= 0
    {
      assert ByVisited(collate, visited)(r[i], r[j]) <= 0;
    }
  }

  /** Parks A (visited), B (not visited) and C (visited), with A collating
      before C, come out of visited mode as A, C, B. */
  lemma VisitedOrderExample(a: Park, b: Park, c: Park, collate: Collation)
    requires a.id != b.id && b.id != c.id
    requires collate(a.name, c.name) < 0
    ensures GetSortedParks([a, b, c], {a.id, c.id}, "visited", collate) == [a, c, b]
  {
    var visited := {a.id, c.id};
    var cmp := ByVisited(collate, visited);
    assert GetSortedParks([a, b, c], visited, "visited", collate) == Sort([a, b, c], cmp);
    assert cmp(b, c) == 1;
    assert cmp(a, c) < 0;
    SortThree(a, b, c, cmp);
  }

  /** Sorting three elements when the last belongs before the middle one and
      after the first. */
  lemma SortThree(a: Park, b: Park, c: Park, cmp: (Park, Park) -> int)
    requires cmp(b, c) > 0 && cmp(a, c) <= 0
    ensures Sort([a, b, c], cmp) == [a, c, b]
  {
    assert [a, b, c][1..] == [b, c] && [b, c][1..] == [c] && [c][1..] == [];
    calc {
      Sort([c], cmp);
      Insert(c, Sort([], cmp), cmp);
      [c];
    }
    calc {
      Sort([b, c], cmp);
      Insert(b, [c], cmp);
      [c] + Insert(b, [], cmp);
      [c, b];
    }
    calc {
      Sort([a, b, c], cmp);
      Insert(a, [c, b], cmp);
      [a, c, b];
    }
  }
}
