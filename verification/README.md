# East Bay Regional Parks tracker — a Dafny model

The tracker page (`script.js`, class `EBRPTracker`) shows the parks of a fixed
catalogue (`parksData`) on a map and in a list. The user marks parks as visited.
The page stores the visited ids in the browser and can export a progress
document. A one-off script (`update_park_cities.py`) rewrites the `city` of each
catalogue record from a name-to-city table and splices the rewritten array back
into the data file's text.

This project models the logic of both, with the map library, the DOM and all
I/O stripped away:

- `parks.dfy`: module `Parks`, the park record and the ids of a catalogue.
- `tracker.dfy`: module `Tracker`, the tracker state. This is a set of visited
  ids plus the sort selector's value. The module covers toggle, clear, the
  statistics with their rounded percentage, and the export document.
- `storage.dfy`: module `Storage`, saving the visited set as an id list and
  loading it back.
- `sorting.dfy`: module `Comparators`, what a consistent sort callback is. Module
  `Sorting`, a stable insertion sort standing in for `Array.prototype.sort`.
- `park_sort.dfy`: module `ParkSort`, the three list orders of `getSortedParks`.
- `map_layers.dfy`: module `MapLayers`, which parks are drawn as boundary
  polygons and which as point markers.
- `city_update.dfy`: module `CityUpdate`, the city-patching loop, Python's
  `find`/`rfind` bracket search and the text splice.
- `options.dfy`: module `Options`, the optional-value type.

String order (`localeCompare`) is a parameter `collate`. The lemmas about the
orders assume it is a consistent comparator.

Points of the code's behaviour that the model keeps as they are:

- `toggleParkVisit` adds any id it is given. Nothing checks it against the
  catalogue (`ToggleWithinCatalogue` states when a toggle keeps the set inside
  the catalogue).
- The page does not guard an empty catalogue: 0 of 0 shows `NaN` and a
  positive count over 0 shows `Infinity`.
- The export's park entries hold name, city, county and acres, with no id.
- `this.polygons[id]` keeps only the last polygon drawn for a park (see
  Findings); `CreateParkPolygons` builds that map.

## Model

| member | source | states |
|---|---|---|
| Tracker.ToggleParkVisit | script.js:198-203 | the toggled id changes membership, every other id keeps its membership, and the sort mode is unchanged |
| Tracker.ToggleTwice | script.js:198-203 | toggling the same id twice gives back the original state |
| Tracker.ToggleCommutes | script.js:198-203 | toggles of two ids give the same state in either order |
| Tracker.ToggleWithinCatalogue | script.js:198-203 | for a visited set inside the catalogue, a toggle keeps it inside exactly when it removes an id or adds a catalogue id; the page itself does not check this |
| Tracker.ClearAllVisits | script.js:280-281 | after clearing, the visited set is empty whatever it held, and the sort mode is kept |
| Tracker.ClearedStats | script.js:280-290 | after clearing, the statistics show 0 visited, 0% for a non-empty catalogue, and the set lies inside the catalogue |
| Tracker.SetSort | script.js:264-266 | the sort selector's listener stores the selected value and leaves the visited set alone |
| Tracker.RoundedPercentage | script.js:256 | for a positive total the result is the whole number nearest to 100·visited/total, with halves rounded up (a two-sided bound); 0/0 is NaN and a positive count over 0 is Infinity |
| Tracker.PercentageInRange | script.js:254-256 | a count no larger than a positive total gives a percentage from 0 to 100 |
| Tracker.PercentageMonotone | script.js:254-256 | visiting more parks never lowers the percentage |
| Tracker.PercentageExamples | script.js:256 | 1 of 3 is 33, 1 of 2 is 50, 1 of 8 is 13, 2 of 3 is 67, and 0 of 0 is NaN |
| Tracker.UpdateStats | script.js:253-256 | the visited count is the size of the visited set, the total is the catalogue size, and the percentage is the rounded one |
| Tracker.FreshStats | script.js:253-256 | in the initial state a non-empty catalogue shows 0 visited and 0% |
| Tracker.VisitedInCatalogue | script.js:294-295 | the exported parks are exactly the catalogue parks whose id is visited, and there are no more of them than catalogue parks |
| Tracker.VisitedInCatalogueAppend | script.js:294-295 | the filter splits over concatenation, so its result keeps catalogue order |
| Tracker.VisitedInCatalogueCount | script.js:294-295 | with unique catalogue ids, the number of exported parks equals the number of visited ids that the catalogue knows |
| Tracker.ExportProgress | script.js:293-309 | the exported total, count and percentage equal those the page displays, the date is the one given (the one the file name is built from), and entry i is the summary of the i-th visited catalogue park |
| Tracker.ExportCountsAgree | script.js:293-306 | with unique catalogue ids, the exported list is as long as the exported visited count exactly when every visited id is a catalogue id |
| Tracker.ExportFileName | script.js:316 | the download name is `ebrp-progress-`, then the date, then `.json` |
| Storage.LoadVisitedParks | script.js:324-329 | with nothing stored the state is unchanged; otherwise the visited set holds exactly the stored ids, and the sort mode is kept |
| Storage.ToSet | script.js:327 | `new Set(ids)` holds exactly the listed ids and is no larger than the list |
| Storage.SaveVisitedParks | script.js:320-322 | the saved list holds each visited id exactly once, and nothing else |
| Storage.LoadAfterSave | script.js:320-329 | loading a list that holds exactly the visited ids gives back the visited set |
| Sorting.Sort | script.js:170-173 | sorting gives a permutation of a copy of the input, so the catalogue itself is untouched |
| Sorting.SortSorted | script.js:173 | for a consistent comparator, each element of the result may precede every later element |
| Sorting.SortStable | script.js:173 | elements that compare equal keep their input order |
| ParkSort.GetSortedParks | script.js:169-196 | every mode returns a permutation of the catalogue; an unrecognised mode returns the catalogue order |
| ParkSort.ByNameIsComparator | script.js:173 | comparing by name is a consistent comparator when the collation is one |
| ParkSort.ByVisitedIsComparator | script.js:182-192 | the visited-first comparator is consistent when the collation is |
| ParkSort.ByCityIsComparator | script.js:175-180 | the city comparator is consistent when the collation is, provided only equal strings collate equal |
| ParkSort.AlphabeticalOrder | script.js:172-173 | alphabetical mode gives a permutation ordered by name |
| ParkSort.CityOrder | script.js:174-180 | city mode gives a permutation ordered by city, with parks of the same city ordered by name |
| ParkSort.VisitedOrder | script.js:181-192 | visited mode puts every visited park before every unvisited one, and orders each group by name |
| ParkSort.VisitedOrderExample | script.js:181-192 | parks A (visited), B (unvisited) and C (visited), with A's name before C's, come out as A, C, B |
| MapLayers.FindByName | script.js:49 | `find` gives the first park with exactly that name, or none if no park has it |
| MapLayers.Owners | script.js:46-49 | each boundary feature is matched to the park its official name finds |
| MapLayers.BindLast | script.js:85 | as written, each park is bound to the last feature drawn for it: an earlier or equal index for every feature of that park, and no later one |
| MapLayers.FeaturesOf | script.js:46-85 | the features drawn for a park, in increasing order, all of them and no others |
| MapLayers.OwnedIds | script.js:49-50 | the parks that some feature is drawn for |
| MapLayers.BindAll | script.js:44-88 | the corrected binding: every park that some feature matches is bound to all of its features |
| MapLayers.BindLastKeepsLastFeature | script.js:85 | both bindings give polygons to the same parks; the one as written keeps only the last of the features of the corrected binding |
| MapLayers.RestyledAsWritten | script.js:212-222 | as written, a toggle recolours at most one polygon of the park, the last one drawn for it, and exactly one when any was drawn |
| MapLayers.Restyled | script.js:212-222 | under the corrected binding, a toggle recolours only polygons drawn for the toggled park, and none when the park has none |
| MapLayers.RestyledAreOwned | script.js:212-222 | under the corrected binding, a toggle restyles exactly the polygons drawn for the toggled park |
| MapLayers.StalePolygonAsWritten | script.js:85 | for a park that matches two features, the code as written does not restyle the first polygon on a toggle; the corrected binding does |
| MapLayers.CreateParkPolygons | script.js:44-88 | without boundary data no polygon is drawn; otherwise each park keeps the last feature matching its name, only catalogue ids get polygons, and they are the same parks the corrected binding gives polygons to |
| MapLayers.CreateParkMarkers | script.js:90-110 | a catalogue park gets a marker exactly when its id has no polygon; each marker belongs to a catalogue park with that id |
| MapLayers.EveryParkDrawnOnce | script.js:44-110 | with the polygon map as the page builds it, every catalogue park is drawn as a polygon or as a marker, never both; without boundary data every park gets a marker |
| CityUpdate.UpdatedParks | update_park_cities.py:93-103 | a mapped name gets the mapped city, an unmapped record is unchanged, length and order are kept, and no field but `city` changes |
| CityUpdate.ChangeCount | update_park_cities.py:95-100 | `updated_count` is the number of positions whose record has a mapped name with a city different from the mapped one, hence at most the number of records |
| CityUpdate.ChangeCountZero | update_park_cities.py:95-100 | the count is zero exactly when no record has a mapped name with a different city |
| CityUpdate.UpdateIdempotent | update_park_cities.py:92-100 | updating the output again changes nothing and counts zero |
| CityUpdate.UpdateCities | update_park_cities.py:92-103 | the in-place loop yields the updated records and the count of records whose city actually changed |
| CityUpdate.FindFirst | update_park_cities.py:84 | `find` gives the first index of the character, or reports that it is absent |
| CityUpdate.FindLast | update_park_cities.py:85 | `rfind` gives the last index of the character, or reports that it is absent |
| CityUpdate.ArraySpan | update_park_cities.py:84-89 | the slice runs from the first `[` through the last `]` when that `]` comes later; otherwise no `[` precedes any `]`, and the slice cannot be a JSON array |
| CityUpdate.Splice | update_park_cities.py:106 | the rewritten text keeps the prefix before the first `[` and the suffix after the last `]`, with the new array text between them |
| CityUpdate.SpliceThenFind | update_park_cities.py:84-106 | reading back a file the script wrote finds exactly the array text it wrote |
| CityUpdate.UpdateParkCitiesFile | update_park_cities.py:78-109 | a run fails when the bracket slice is missing or does not parse; otherwise it writes the spliced text of the updated records, with the count of changed records |

## Left out

- Tracker.RoundedPercentage: computes `Math.round(v / t * 100)` in exact rational arithmetic, not in IEEE doubles. The two differ when the double product falls just below a half. For example, 23 of 40 gives 57 in JavaScript and 58 here. The bound it states is the exact one.
- Storage.SaveVisitedParks: leaves the list order open. `Array.from` lists a JavaScript `Set` in insertion order, and the set model does not record insertion order.
- Storage.LoadVisitedParks: the stored JSON text is represented by the id list it encodes. An empty stored string (falsy, so the page keeps the set), malformed JSON (`JSON.parse` throws) and non-numeric entries are not modelled.
- ParkSort.CityOrder: assumes a collation under which only equal strings compare equal. Otherwise the city comparator is not consistent, and ECMAScript leaves the sort order implementation-defined.
- `localeCompare` itself: collation is a parameter, not locale data.
- The sort in `getSortedParks` is modelled as a stable insertion sort. Every sort that ECMAScript 2019 allows gives the same result for a consistent comparator.
- The Leaflet map, tile layer, polygon and icon styling, hover handlers and popups: these are rendering through a library outside this model. A drawn polygon is represented by the index of its feature.
- List rendering, checkbox syncing and the confirm dialog before clearing: these are DOM interaction.
- The boundary `fetch`, `localStorage` access and the Blob download: these are I/O. A failed fetch is modelled as absent boundary data.
- The export date: it comes from the clock, so `ExportProgress` takes it as a parameter. `JSON.stringify` formatting is left out.
- `update_park_cities.py` file reading and writing, `json.loads`, `json.dumps` and the printed messages. The codec is a pair of function parameters, and `json.loads` raising is the `JsonError` result.
- CityUpdate.UpdateParkCitiesFile: a record without `name` or `city` keys (a `KeyError` in Python) cannot occur, because every modelled record has both fields.
- calculate_polygon_areas.py is not part of this model. It reprojects shapes and sums floating-point areas.

## Findings

| source | as written | input that shows it | evidently intended | confidence | as-written member | corrected member |
|---|---|---|---|---|---|---|
| script.js:85 | `this.polygons[park.id] = polygon` keeps only the last polygon drawn for a park, so `updateMarker` restyles only that one (and `updatePopupContent` refreshes only its popup) | a park named "A" and two boundary features whose official name is "A": both are drawn, but a toggle recolours only the second | every polygon drawn for a park stays bound to it and is restyled on a toggle | medium; not executed | MapLayers.StalePolygonAsWritten | MapLayers.RestyledAreOwned |
