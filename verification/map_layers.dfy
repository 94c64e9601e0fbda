/** Which catalogue parks are drawn as boundary polygons and which as point
    markers (`createParkPolygons` / `createParkMarkers`, script.js). Shapes,
    styles and handlers are left out; a drawn polygon is identified by the
    index of the boundary feature it was drawn from. */
module MapLayers {
  import opened Parks
  import opened Options

  /** A boundary feature, reduced to its `OFFICIAL_NAME` property. */
  datatype Feature = Feature(officialName: string)

  /** `parksData.find(p => p.name === name)`, as an index: the first park
      with exactly that name. */
  function FindByName(catalogue: seq<Park>, name: string): (r: Option<nat>)
    ensures r.Some? ==> r.value < |catalogue| && catalogue[r.value].name == name
    ensures r.Some? ==> forall j :: 0 <= j < r.value ==> catalogue[j].name != name
    ensures r.None? ==> forall j :: 0 <= j < |catalogue| ==> catalogue[j].name != name
  {
    if |catalogue| == 0 then None
    else if catalogue[0].name == name then Some(0)
    else match FindByName(catalogue[1..], name)
      case None => None
      case Some(i) => Some(i + 1)
  }

  /** The id of the park a feature is drawn for, if its name matches one. */
  function Owner(catalogue: seq<Park>, f: Feature): Option<int> {
    match FindByName(catalogue, f.officialName)
    case None => None
    case Some(i) => Some(catalogue[i].id)
  }

  /** The park each feature is drawn for, feature by feature. */
  function Owners(catalogue: seq<Park>, features: seq<Feature>): (owners: seq<Option<int>>)
    ensures |owners| == |features|
    ensures forall k :: 0 <= k < |features| ==> owners[k] == Owner(catalogue, features[k])
  {
    seq(|features|, k requires 0 <= k < |features| => Owner(catalogue, features[k]))
  }

  /** `this.polygons` as the page builds it: `this.polygons[park.id] = polygon`
      overwrites, so each park keeps only the last feature drawn for it. */
  function BindLast(owners: seq<Option<int>>): (m: map<int, nat>)
    ensures forall id :: id in m ==>
      && m[id] < |owners|
      && owners[m[id]] == Some(id)
      && forall k :: m[id] < k < |owners| ==> owners[k] != Some(id)
    ensures forall k :: 0 <= k < |owners| && owners[k].Some? ==>
      owners[k].value in m && k <= m[owners[k].value]
  {
    if |owners| == 0 then map[]
    else
      var n := |owners| - 1;
      var m := BindLast(owners[..n]);
      assert forall k :: 0 <= k < n ==> owners[..n][k] == owners[k];
      match owners[n]
      case None => m
      case Some(id) => m[id := n]
  }

  /** The features drawn for park `id`, in feature order. */
  function FeaturesOf(owners: seq<Option<int>>, id: int): (ks: seq<nat>)
    ensures forall j :: 0 <= j < |ks| ==> ks[j] < |owners| && owners[ks[j]] == Some(id)
    ensures forall i, j :: 0 <= i < j < |ks| ==> ks[i] < ks[j]
    ensures forall k :: 0 <= k < |owners| && owners[k] == Some(id) ==> k in ks
  {
    if |owners| == 0 then []
    else
      var n := |owners| - 1;
      var before := FeaturesOf(owners[..n], id);
      assert forall k :: 0 <= k < n ==> owners[..n][k] == owners[k];
      if owners[n] == Some(id) then before + [n] else before
  }

  /** The ids some feature is drawn for. */
  function OwnedIds(owners: seq<Option<int>>): (ids: set<int>)
    ensures forall id :: id in ids <==> Some(id) in owners
  {
    if |owners| == 0 then {}
    else
      var n := |owners| - 1;
      assert owners == owners[..n] + [owners[n]];
      OwnedIds(owners[..n]) + (if owners[n].Some? then {owners[n].value} else {})
  }

  /** Every feature drawn for a park stays bound to it, in feature order, so
      a toggle can recolour all of the park's polygons. */
  function BindAll(owners: seq<Option<int>>): (m: map<int, seq<nat>>)
    ensures m.Keys == OwnedIds(owners)
    ensures forall id :: id in m ==> m[id] == FeaturesOf(owners, id) && |m[id]| > 0
  {
    map id | id in OwnedIds(owners) :: FeaturesOf(owners, id)
  }

  /** Both bindings give polygons to the same parks; the page's keeps the
      last of the features `BindAll` keeps. */
  lemma BindLastKeepsLastFeature(owners: seq<Option<int>>)
    ensures BindLast(owners).Keys == BindAll(owners).Keys
    ensures forall id :: id in BindLast(owners) ==>
      BindLast(owners)[id] == BindAll(owners)[id][|BindAll(owners)[id]| - 1]
  {
    var m := BindLast(owners);
    var all := BindAll(owners);
    forall id | id in m ensures id in all {
      assert owners[m[id]] == Some(id);
    }
    forall id | id in all ensures id in m {
      var k :| 0 <= k < |owners| && owners[k] == Some(id);
    }
    forall id | id in m ensures m[id] == all[id][|all[id]| - 1] {
      LastOfFeatures(owners, id);
      var ks := FeaturesOf(owners, id);
      assert all[id] == ks;
      assert m[id] == ks[|ks| - 1];
    }
  }

  /** The index `BindLast` keeps for a park is the last of its features. */
  lemma LastOfFeatures(owners: seq<Option<int>>, id: int)
    requires id in BindLast(owners)
    ensures |FeaturesOf(owners, id)| > 0
    ensures BindLast(owners)[id] == FeaturesOf(owners, id)[|FeaturesOf(owners, id)| - 1]
  {
    var m := BindLast(owners)[id];
    var ks := FeaturesOf(owners, id);
    assert m in ks;
    var j :| 0 <= j < |ks| && ks[j] == m;
    var last := ks[|ks| - 1];
    assert owners[last] == Some(id);
    assert last <= m;
    UpToLast(ks, j);
    assert m <= last;
  }

  lemma UpToLast(ks: seq<nat>, j: nat)
    requires forall a, b :: 0 <= a < b < |ks| ==> ks[a] < ks[b]
    requires j < |ks|
    ensures ks[j] <= ks[|ks| - 1]
  {
    if j < |ks| - 1 {
      assert ks[j] < ks[|ks| - 1];
    }
  }

  /** The polygons `updateMarker` recolours when `id` is toggled, as written:
      only the one `this.polygons[id]` still holds. */
  function RestyledAsWritten(owners: seq<Option<int>>, id: int): (r: set<nat>)
    ensures forall k :: k in r ==>
      && k < |owners| && owners[k] == Some(id)
      && forall j :: k < j < |owners| ==> owners[j] != Some(id)
    ensures Some(id) in owners ==> |r| == 1
    ensures Some(id) !in owners ==> r == {}
  {
    var m := BindLast(owners);
    if id in m then {m[id]} else {}
  }

  /** The polygons recoloured when every drawn polygon stays bound: all of
      those drawn for the park. */
  function Restyled(owners: seq<Option<int>>, id: int): (r: set<nat>)
    ensures forall k :: k in r ==> k < |owners| && owners[k] == Some(id)
    ensures Some(id) !in owners ==> r == {}
  {
    var m := BindAll(owners);
    if id in m then set j | 0 <= j < |m[id]| :: m[id][j] else {}
  }

  /** When every drawn polygon stays bound to its park, a toggle recolours
      exactly the polygons drawn for it. */
  lemma RestyledAreOwned(owners: seq<Option<int>>, id: int)
    ensures forall k :: k in Restyled(owners, id) <==> 0 <= k < |owners| && owners[k] == Some(id)
  {
    var m := BindAll(owners);
    forall k | 0 <= k < |owners| && owners[k] == Some(id) ensures k in Restyled(owners, id) {
      assert id in m;
      var j :| 0 <= j < |m[id]| && m[id][j] == k;
    }
  }

  /** A park whose name matches two boundary features: the page draws both
      polygons for it, but a toggle recolours only the second, so the first
      keeps the colour of the old visited state. */
  lemma StalePolygonAsWritten()
    ensures var catalogue := [Park(5, "A", "C", "K", 1.0, 0.0, 0.0, "", "")];
      var owners := Owners(catalogue, [Feature("A"), Feature("A")]);
      && owners[0] == Some(5)
      && 0 !in RestyledAsWritten(owners, 5)
      && 0 in Restyled(owners, 5)
  {
    var catalogue := [Park(5, "A", "C", "K", 1.0, 0.0, 0.0, "", "")];
    var owners := Owners(catalogue, [Feature("A"), Feature("A")]);
    assert owners == [Some(5), Some(5)];
    assert BindLast(owners)[5] == 1;
    RestyledAreOwned(owners, 5);
  }

  /** `createParkPolygons` as written: each park keeps the index of the last
      feature drawn for it. No boundary data (a failed fetch) draws nothing.
      The parks that get a polygon are the same under `BindAll`. */
  function CreateParkPolygons(catalogue: seq<Park>, boundaries: Option<seq<Feature>>): (m: map<int, nat>)
    ensures boundaries.None? ==> m == map[]
    ensures m.Keys <= Ids(catalogue)
    ensures boundaries.Some? ==>
      var owners := Owners(catalogue, boundaries.value);
      && m == BindLast(owners)
      && m.Keys == BindAll(owners).Keys
  {
    match boundaries
    case None => map[]
    case Some(features) =>
      var owners := Owners(catalogue, features);
      var m := BindLast(owners);
      BindLastKeepsLastFeature(owners);
      assert forall id :: id in m ==> id in Ids(catalogue) by {
        forall id | id in m ensures id in Ids(catalogue) {
          var k := m[id];
          var i := FindByName(catalogue, features[k].officialName).value;
          assert catalogue[i].id == id && catalogue[i] in catalogue;
        }
      }
      m
  }

  /** `createParkMarkers`: one marker per catalogue park whose id has no
      polygon, keyed by id (a later park with the same id replaces an
      earlier one). Only membership of `withPolygon` is consulted. */
  function CreateParkMarkers(catalogue: seq<Park>, withPolygon: set<int>): (m: map<int, nat>)
    ensures forall i :: 0 <= i < |catalogue| ==> (catalogue[i].id in m <==> catalogue[i].id !in withPolygon)
    ensures forall id :: id in m ==> id !in withPolygon && m[id] < |catalogue| && catalogue[m[id]].id == id
  {
    if |catalogue| == 0 then map[]
    else
      var n := |catalogue| - 1;
      var m := CreateParkMarkers(catalogue[..n], withPolygon);
      assert forall i :: 0 <= i < n ==> catalogue[..n][i] == catalogue[i];
      if catalogue[n].id in withPolygon then m else m[catalogue[n].id := n]
  }

  /** Every catalogue park is drawn, as polygons or as a marker and never
      both; without boundary data every park gets a marker. */
  lemma EveryParkDrawnOnce(catalogue: seq<Park>, boundaries: Option<seq<Feature>>)
    ensures var polygons := CreateParkPolygons(catalogue, boundaries);
      var markers := CreateParkMarkers(catalogue, polygons.Keys);
      && polygons.Keys !! markers.Keys
      && Ids(catalogue) == polygons.Keys + markers.Keys
      && (boundaries.None? ==> markers.Keys == Ids(catalogue))
  {
    var polygons := CreateParkPolygons(catalogue, boundaries);
    var markers := CreateParkMarkers(catalogue, polygons.Keys);
    forall id | id in Ids(catalogue) ensures id in polygons || id in markers {
      var p :| p in catalogue && p.id == id;
      var i :| 0 <= i < |catalogue| && catalogue[i] == p;
    }
    forall id | id in markers ensures id in Ids(catalogue) {
      assert catalogue[markers[id]] in catalogue;
    }
  }
}
