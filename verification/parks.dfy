/** The park record shared by the tracker page and the city-patching script,
    and the few facts about a catalogue of such records that both rely on. */
module Parks {

  /** One entry of the static catalogue (`parksData`). Acreage and coordinates
      are carried along but never computed on. */
  datatype Park = Park(
    id: int,
    name: string,
    city: string,
    county: string,
    acres: real,
    lat: real,
    lng: real,
    description: string,
    website: string)

  /** The ids a catalogue mentions. */
  function Ids(catalogue: seq<Park>): set<int> {
    set p | p in catalogue :: p.id
  }

  /** No two catalogue entries share an id. */
  predicate UniqueIds(catalogue: seq<Park>) {
    forall i, j :: 0 <= i < j < |catalogue| ==> catalogue[i].id != catalogue[j].id
  }

  lemma IdsSnoc(init: seq<Park>, last: Park)
    ensures Ids(init + [last]) == Ids(init) + {last.id}
  {
    var s := init + [last];
    forall id | id in Ids(s) ensures id in Ids(init) + {last.id} {
      var i :| 0 <= i < |s| && s[i].id == id;
      if i < |init| {
        assert init[i] == s[i];
      }
    }
    forall id | id in Ids(init) ensures id in Ids(s) {
      var i :| 0 <= i < |init| && init[i].id == id;
      assert s[i] == init[i];
    }
    assert s[|init|] == last;
  }

  /** Dropping the last entry of a catalogue with unique ids leaves unique
      ids, none of them the dropped entry's. */
  lemma UniqueIdsInit(catalogue: seq<Park>)
    requires UniqueIds(catalogue) && |catalogue| > 0
    ensures UniqueIds(catalogue[..|catalogue| - 1])
    ensures catalogue[|catalogue| - 1].id !in Ids(catalogue[..|catalogue| - 1])
  {
    var init := catalogue[..|catalogue| - 1];
    forall i, j | 0 <= i < j < |init| ensures init[i].id != init[j].id {
      assert init[i] == catalogue[i] && init[j] == catalogue[j];
    }
    forall p | p in init ensures p.id != catalogue[|catalogue| - 1].id {
      var i :| 0 <= i < |init| && init[i] == p;
      assert catalogue[i] == p;
    }
  }
}
