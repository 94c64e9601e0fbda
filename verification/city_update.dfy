/** The one-off script update_park_cities.py: it rewrites the `city` of each
    park record whose name it has a mapping for, counts the records it
    changed, and splices the rewritten array back into the data file's text
    between the first `[` and the last `]`. File access and the JSON codec
    are left to the caller. */
module CityUpdate {
  import opened Parks
  import opened Options

  /** The script's `park_cities` table: official park name to city. */
  const ParkCities: map<string, string> := map[
      "Anthony Chabot Regional Park" := "Castro Valley",
      "Antioch/Oakley Regional Shoreline" := "Antioch",
      "Ardenwood Historic Farm" := "Fremont",
      "Bay Point Regional Shoreline" := "Bay Point",
      "Big Break Regional Shoreline" := "Oakley",
      "Bishop Ranch Open Space Regional Preserve" := "San Ramon",
      "Black Diamond Mines Regional Preserve" := "Antioch",
      "Briones Regional Park" := "Lafayette",
      "Brooks Island Regional Preserve" := "Richmond",
      "Browns Island" := "Pittsburg",
      "Brushy Peak Regional Preserve" := "Livermore",
      "Carquinez Strait Regional Shoreline" := "Martinez",
      "Castle Rock Regional Recreation Area" := "Walnut Creek",
      "Tilden (Charles Lee Tilden) Regional Park" := "Berkeley",
      "Claremont Canyon Regional Preserve" := "Berkeley",
      "Contra Loma Regional Park" := "Antioch",
      "Coyote Hills Regional Park" := "Fremont",
      "Crockett Hills Regional Park" := "Crockett",
      "Cull Canyon Regional Recreation Area" := "Castro Valley",
      "Deer Valley Regional Park" := "Antioch",
      "Del Valle Regional Park" := "Livermore",
      "Diablo Foothills Regional Park" := "Walnut Creek",
      "Don Castro Regional Recreation Area" := "Hayward",
      "Redwood (Dr. Aurelia Reinhardt Redwood) Regional Park" := "Oakland",
      "Dublin Hills Regional Park" := "Dublin",
      "Dumbarton Quarry Campground on the Bay" := "Fremont",
      "Five Canyons Open Space" := "Castro Valley",
      "Garin Regional Park" := "Hayward",
      "Dry Creek Pioneer Regional Park" := "Fremont",
      "Hayward Regional Shoreline" := "Hayward",
      "Huckleberry Botanic Regional Preserve" := "Oakland",
      "Judge John Sutter Regional Shoreline" := "Antioch",
      "Kennedy Grove Regional Recreation Area" := "El Sobrante",
      "Lake Chabot Regional Park" := "Castro Valley",
      "Las Trampas Wilderness Regional Preserve" := "San Ramon",
      "Leona Canyon Regional Open Space Preserve" := "Oakland",
      "Little Hills Regional Recreation Area" := "San Pablo",
      "Martin Luther King Jr. Regional Shoreline" := "Oakland",
      "McLaughlin Eastshore State Park" := "Berkeley",
      "Miller/Knox Regional Shoreline" := "Richmond",
      "Mission Peak Regional Preserve" := "Fremont",
      "Morgan Territory Regional Preserve" := "Clayton",
      "Ohlone Wilderness Regional Preserve" := "Fremont",
      "Oyster Bay Regional Shoreline" := "San Leandro",
      "Pleasanton Ridge Regional Park" := "Pleasanton",
      "Point Isabel Regional Shoreline" := "Richmond",
      "Point Pinole Regional Shoreline" := "Richmond",
      "Quarry Lakes Regional Recreation Area" := "Fremont",
      "Robert W. Crown Memorial State Beach" := "Alameda",
      "Roberts Regional Recreation Area" := "Oakland",
      "Round Valley Regional Preserve" := "Brentwood",
      "Shadow Cliffs Regional Recreation Area" := "Pleasanton",
      "Sibley Volcanic Regional Preserve" := "Oakland",
      "Sobrante Ridge Regional Preserve" := "El Sobrante",
      "Sunol Wilderness Regional Preserve" := "Sunol",
      "Sycamore Valley Open Space Regional Preserve" := "Danville",
      "Ted and Kathy Radke Martinez Regional Shoreline" := "Martinez",
      "Temescal Regional Recreation Area" := "Oakland",
      "Thurgood Marshall Regional Park" := "Berkeley",
      "Tilden Nature Area" := "Berkeley",
      "Tilden Regional Parks Botanic Garden" := "Berkeley",
      "Vargas Plateau Regional Park" := "Fremont",
      "Vasco Caves Regional Preserve" := "Brentwood",
      "Waterbird Regional Preserve" := "Antioch",
      "Wildcat Canyon Regional Park" := "Richmond"
    ]

  // ---------------------------------------------------------------------
  // The update loop
  // ---------------------------------------------------------------------

  /** The loop body's effect on one record: the city is the mapped one when
      the name is mapped (assigning an equal city changes nothing). */
  function Patch(p: Park, mapping: map<string, string>): Park {
    if p.name in mapping then p.(city := mapping[p.name]) else p
  }

  /** The loop body counts a record when its name is mapped to a different city. */
  predicate Changes(p: Park, mapping: map<string, string>) {
    p.name in mapping && p.city != mapping[p.name]
  }

  /** The records after the loop. */
  function UpdatedParks(parks: seq<Park>, mapping: map<string, string>): (r: seq<Park>)
    ensures |r| == |parks|
    ensures forall i :: 0 <= i < |parks| && parks[i].name in mapping ==>
      r[i].city == mapping[parks[i].name]
    ensures forall i :: 0 <= i < |parks| && parks[i].name !in mapping ==> r[i] == parks[i]
    ensures forall i :: 0 <= i < |parks| ==> r[i] == parks[i].(city := r[i].city)
  {
    seq(|parks|, i requires 0 <= i < |parks| => Patch(parks[i], mapping))
  }

  /** The positions of the records the loop body changes. */
  function ChangedAt(parks: seq<Park>, mapping: map<string, string>): set<nat> {
    set i: nat | i < |parks| && Changes(parks[i], mapping)
  }

  /** The final `updated_count`: one for each record the loop changes. */
  function ChangeCount(parks: seq<Park>, mapping: map<string, string>): (n: nat)
    ensures n == |ChangedAt(parks, mapping)|
    ensures n <= |parks|
  {
    if |parks| == 0 then 0
    else
      var n := |parks| - 1;
      ChangedAtSnoc(parks, mapping);
      ChangeCount(parks[..n], mapping) + (if Changes(parks[n], mapping) then 1 else 0)
  }

  lemma ChangedAtSnoc(parks: seq<Park>, mapping: map<string, string>)
    requires |parks| > 0
    ensures var n := |parks| - 1;
      ChangedAt(parks, mapping) ==
      ChangedAt(parks[..n], mapping) + (if Changes(parks[n], mapping) then {n} else {})
    ensures |parks| - 1 !in ChangedAt(parks[..|parks| - 1], mapping)
  {
    var n := |parks| - 1;
    assert forall i :: 0 <= i < n ==> parks[..n][i] == parks[i];
  }

  /** The count is zero exactly when no record needs a change. */
  lemma {:induction false} ChangeCountZero(parks: seq<Park>, mapping: map<string, string>)
    ensures ChangeCount(parks, mapping) == 0 <==>
      forall i :: 0 <= i < |parks| ==> !Changes(parks[i], mapping)
    decreases |parks|
  {
    if |parks| > 0 {
      var n := |parks| - 1;
      ChangeCountZero(parks[..n], mapping);
      assert forall i :: 0 <= i < n ==> parks[..n][i] == parks[i];
    }
  }

  /** Running the update on its own output changes nothing and counts zero. */
  lemma UpdateIdempotent(parks: seq<Park>, mapping: map<string, string>)
    ensures UpdatedParks(UpdatedParks(parks, mapping), mapping) == UpdatedParks(parks, mapping)
    ensures ChangeCount(UpdatedParks(parks, mapping), mapping) == 0
  {
    var once := UpdatedParks(parks, mapping);
    ChangeCountZero(once, mapping);
  }

  /** The loop of `update_park_cities`, record by record. */
  method UpdateCities(parks: seq<Park>, mapping: map<string, string>)
    returns (updated: seq<Park>, updatedCount: nat)
    ensures updated == UpdatedParks(parks, mapping)
    ensures updatedCount == ChangeCount(parks, mapping)
  {
    updated := parks;
    updatedCount := 0;
    var i := 0;
    while i < |updated|
      invariant |updated| == |parks|
      invariant 0 <= i <= |parks|
      invariant forall j :: 0 <= j < i ==> updated[j] == Patch(parks[j], mapping)
      invariant forall j :: i <= j < |parks| ==> updated[j] == parks[j]
      invariant updatedCount == ChangeCount(parks[..i], mapping)
    {
      var park := updated[i];
      assert parks[..i + 1][..i] == parks[..i];
      assert ChangeCount(parks[..i + 1], mapping) ==
        ChangeCount(parks[..i], mapping) + (if Changes(park, mapping) then 1 else 0);
      if park.name in mapping {
        var oldCity := park.city;
        var newCity := mapping[park.name];
        if oldCity != newCity {
          updated := updated[i := park.(city := newCity)];
          updatedCount := updatedCount + 1;
        }
      }
      i := i + 1;
    }
    assert parks[..i] == parks;
  }

  // ---------------------------------------------------------------------
  // The file text
  // ---------------------------------------------------------------------

  /** `s.find(c)`: the first index of `c`, `None` for Python's -1. */
  function FindFirst(s: string, c: char): (r: Option<nat>)
    ensures r.Some? ==> r.value < |s| && s[r.value] == c && c !in s[..r.value]
    ensures r.None? ==> c !in s
  {
    if |s| == 0 then None
    else if s[0] == c then Some(0)
    else match FindFirst(s[1..], c)
      case None => None
      case Some(i) => assert s[..i + 1] == [s[0]] + s[1..][..i]; Some(i + 1)
  }

  /** `s.rfind(c)`: the last index of `c`, `None` for Python's -1. */
  function FindLast(s: string, c: char): (r: Option<nat>)
    ensures r.Some? ==> r.value < |s| && s[r.value] == c && c !in s[r.value + 1..]
    ensures r.None? ==> c !in s
  {
    if |s| == 0 then None
    else
      var n := |s| - 1;
      if s[n] == c then Some(n)
      else match FindLast(s[..n], c)
        case None => None
        case Some(i) => assert s[i + 1..] == s[..n][i + 1..] + [s[n]]; Some(i)
  }

  /** `start = content.find('[')` and `end = content.rfind(']') + 1`, when
      the slice `content[start:end]` can hold a JSON array. In every other
      case (either bracket missing, or the last `]` before the first `[`) the
      slice is "" or "]" and `json.loads` raises, so the script stops. */
  function ArraySpan(content: string): (span: Option<(nat, nat)>)
    ensures span.Some? ==>
      && span.value.0 < span.value.1 <= |content|
      && content[span.value.0] == '[' && '[' !in content[..span.value.0]
      && content[span.value.1 - 1] == ']' && ']' !in content[span.value.1..]
    ensures span.None? ==>
      forall i, j :: 0 <= i < j < |content| && content[i] == '[' ==> content[j] != ']'
  {
    match (FindFirst(content, '['), FindLast(content, ']'))
    case (Some(start), Some(last)) =>
      if start < last then Some((start, last + 1))
      else
        assert forall j :: start < j < |content| ==> content[j] in content[last + 1..];
        None
    case (None, _) => None
    case (_, None) => None
  }

  /** `content[:start] + array_text + content[end:]`. */
  function Splice(content: string, arrayText: string): (r: Option<string>)
    ensures r.Some? <==> ArraySpan(content).Some?
    ensures r.Some? ==>
      var (start, end) := ArraySpan(content).value;
      && |r.value| == start + |arrayText| + (|content| - end)
      && r.value[..start] == content[..start]
      && r.value[start..start + |arrayText|] == arrayText
      && r.value[start + |arrayText|..] == content[end..]
  {
    match ArraySpan(content)
    case None => None
    case Some((start, end)) => Some(content[..start] + arrayText + content[end..])
  }

  /** The array text the script reads from a file it has itself written is
      the array text it wrote, as long as that text is a bracketed array. */
  lemma SpliceThenFind(content: string, arrayText: string)
    requires ArraySpan(content).Some?
    requires |arrayText| >= 2 && arrayText[0] == '[' && arrayText[|arrayText| - 1] == ']'
    ensures var written := Splice(content, arrayText).value;
      && ArraySpan(written).Some?
      && var (start, end) := ArraySpan(written).value;
         written[start..end] == arrayText
  {
    var (start, end) := ArraySpan(content).value;
    var prefix := content[..start];
    var suffix := content[end..];
    var written := prefix + arrayText + suffix;
    assert written == Splice(content, arrayText).value;
    FirstAfterPrefix(prefix, arrayText + suffix, '[');
    assert written == prefix + (arrayText + suffix);
    LastBeforeSuffix(prefix + arrayText, suffix, ']');
    assert written == (prefix + arrayText) + suffix;
    assert ArraySpan(written) == Some((|prefix|, |prefix| + |arrayText|));
    assert written[|prefix|..|prefix| + |arrayText|] == arrayText;
  }

  lemma FirstAfterPrefix(prefix: string, rest: string, c: char)
    requires c !in prefix && |rest| > 0 && rest[0] == c
    ensures FindFirst(prefix + rest, c) == Some(|prefix|)
  {
    var w := prefix + rest;
    assert w[|prefix|] == c;
  }

  lemma LastBeforeSuffix(init: string, suffix: string, c: char)
    requires c !in suffix && |init| > 0 && init[|init| - 1] == c
    ensures FindLast(init + suffix, c) == Some(|init| - 1)
  {
    var w := init + suffix;
    var n := |init| - 1;
    assert w[n] == c;
  }

  /** How a run of the script ends. */
  datatype RunResult = Written(text: string, updatedCount: nat) | JsonError

  /** `update_park_cities()` on the file's text, with the JSON codec supplied:
      `parse` is `json.loads` (`None` when it raises) and `dump` is
      `json.dumps(..., indent=4)`. */
  method UpdateParkCitiesFile(content: string, parse: string -> Option<seq<Park>>,
                              dump: seq<Park> -> string)
    returns (r: RunResult)
    ensures ArraySpan(content).None? ==> r == JsonError
    ensures ArraySpan(content).Some? ==>
      var (start, end) := ArraySpan(content).value;
      match parse(content[start..end])
      case None => r == JsonError
      case Some(parks) =>
        && r.Written?
        && r.updatedCount == ChangeCount(parks, ParkCities)
        && Some(r.text) == Splice(content, dump(UpdatedParks(parks, ParkCities)))
  {
    var span := ArraySpan(content);
    if span.None? {
      return JsonError;
    }
    var (start, end) := span.value;
    var parsed := parse(content[start..end]);
    if parsed.None? {
      return JsonError;
    }
    var updated, updatedCount := UpdateCities(parsed.value, ParkCities);
    var text := content[..start] + dump(updated) + content[end..];
    r := Written(text, updatedCount);
  }
}
