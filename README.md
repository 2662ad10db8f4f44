# weather-portal core in Dafny

A model of the domain and infrastructure core of weather-portal, a web front end that finds places through the Nominatim geocoder and links them to mountain-weather services. It covers:

- **Mountain proximity engine.**
  - `SpatialIndex` keeps an exact-coordinate table, where the last mountain written at a position wins.
  - It also keeps a grid of square cells `gridSize` degrees wide, each listing its mountains in input order.
  - `MountainProximityService.findNearestMountain` returns an exact hit at once. Otherwise it scans the 3×3 block of cells around the query and keeps the first candidate whose distance is within the threshold and strictly below the best so far.
- **Value objects and the place entity.**
  - `Coordinates` validates its range.
  - `PlaceId` rejects blank identifiers.
  - `Place` has suffix-based country tests, the Japanese address formatting and the object round trip.
- **`PlaceFilterService`.** It provides the country filters and first-occurrence de-duplication by place id.
- **`LRUCache`.** It holds a map of timestamped entries and an access order whose first key is the least recently used. It has capacity eviction, TTL expiry and `cleanup`.
- **The two local-storage repositories.** Search history moves a query to the front and caps the list at 20. Favourites are toggled by place id.
- **`WeatherServiceLinkBuilder`.** It builds the four coordinate links and the optional Yamaten link.
- **`NominatimApiClient.transformToPlace`.** It maps one geocoder record to a `Place`, with the fallbacks for the name and the position.
- **`isValidOsmId` of the detail view.**

The modules follow the source files:

| module | file |
|---|---|
| `SpatialIndexing` | `spatial_index.dfy` |
| `MountainProximity` | `proximity.dfy` |
| `Coordinates` | `coordinates.dfy` |
| `PlaceIds` | `place_id.dfy` |
| `Places` | `place.dfy` |
| `PlaceFilter` | `place_filter.dfy` |
| `Cache` | `lru_cache.dfy` |
| `History` | `history.dfy` |
| `Favorites` | `favorites.dfy` |
| `WeatherLinks` | `weather_links.dfy` |
| `Nominatim` | `nominatim.dfy` |
| `OsmIds` | `detail.dfy` |

Four support modules hold shared definitions:

- `Wrappers`, `Errors` and `Storage` (`wrappers.dfy`). `Storage.Stored` is what a storage key holds: nothing, something that is not an array, or a list of items.
- `Seqs` (`seqs.dfy`) models the JavaScript array operations: `filter`, `indexOf`, `findIndex`, `splice` and `reverse`.
- `Strings` (`strings.dfy`) models `split`, `join`, `endsWith`, `trim`, and decimal integers with `Number`.

Modelling choices:

- Numbers are `real`s. How JavaScript prints a non-integral number is a parameter `fmt: real -> string`. Integers, such as grid cells and Nominatim ids, are printed exactly.
- The Turf great-circle distance is a parameter `dist`, and nothing is assumed about it.
- `Infinity` as a threshold is `Limit.Unbounded`.
- `Date.now()` is a parameter `now`.
- A `throw` in a constructor or in `fromObject` is a `Failure` carrying the error that would be thrown.

Two behaviours of the source worth noting:

- The grid cell is `Math.floor(lat / gridSize)`, which rounds toward minus infinity, not toward zero (`src/domain/services/SpatialIndex.ts:57-61`).
- A favourites read fails, rather than returning `[]`, when a stored record is not a valid place. `Place.fromObject` throws there, and `toggle` and `isFavorite` pass that failure on.

## Model

| member | source | states |
|---|---|---|
| SpatialIndexing.SpatialIndex.constructor | src/domain/services/SpatialIndex.ts:17-45 | Filling the two tables in the constructor's loop gives the exact table and the grid of the located input mountains. The index then has no mutator, since its tables are `const`. |
| SpatialIndexing.TablesIgnoreUnlocated | src/domain/services/SpatialIndex.ts:29-31 | Dropping the mountains without `lat` or `lon` first changes neither table, so such mountains are never indexed. |
| SpatialIndexing.ExactTableSpec | src/domain/services/SpatialIndex.ts:33-36 | A position is in the exact table iff some input mountain sits there. It then holds the last such mountain, and no later mountain is at that position. |
| SpatialIndexing.GridTableSpec | src/domain/services/SpatialIndex.ts:39-43 | Each cell lists exactly the input mountains lying in it, in input order, and a cell exists iff that list is non-empty. |
| SpatialIndexing.GridKeySplits | src/domain/services/SpatialIndex.ts:57-61 | Splitting a grid key at the comma gives the two printed cell numbers. |
| SpatialIndexing.GridKeyRoundTrip | src/domain/services/SpatialIndex.ts:77 | Splitting a grid key at the comma and parsing both halves with `Number` gives back the cell it was built from. |
| SpatialIndexing.GridKeyInjective | src/domain/services/SpatialIndex.ts:57-61 | Distinct cells have distinct keys. |
| SpatialIndexing.CenterCell | src/domain/services/SpatialIndex.ts:76-77 | The centre cell parsed back from the query's key is the query's cell. |
| SpatialIndexing.BlockCells | src/domain/services/SpatialIndex.ts:80-82 | The loops visit 9 distinct cells, exactly those at most one row and one column from the centre. |
| SpatialIndexing.VisitedIsGather | src/domain/services/SpatialIndex.ts:80-88 | After any number of loop turns, `nearby` is the concatenation of the lists of the visited cells, in loop order; missing cells add nothing. |
| SpatialIndexing.GatherTable | src/domain/services/SpatialIndex.ts:80-88 | Concatenating the lists of distinct cells gives, as a multiset, the input mountains that lie in those cells. |
| SpatialIndexing.NeighbourhoodSpec | src/domain/services/SpatialIndex.ts:74-91 | The 3×3 neighbourhood holds every located input mountain of the block exactly as often as the input does. |
| SpatialIndexing.NeighbourhoodBounded | src/domain/services/SpatialIndex.ts:74-91 | Every mountain in the neighbourhood lies at most one cell from the query's cell on each axis. |
| SpatialIndexing.SpatialIndex.FindExact | src/domain/services/SpatialIndex.ts:66-69 | Finds something iff an input mountain sits exactly at the position, and then finds the last such mountain. |
| SpatialIndexing.SpatialIndex.Nearby | src/domain/services/SpatialIndex.ts:74-91 | The candidates are, as a multiset, the located input mountains of the 3×3 block, and each lies in the block. |
| SpatialIndexing.SpatialIndex.GetNearbyMountains | src/domain/services/SpatialIndex.ts:74-91 | The nested offset loops, rows outer, return exactly `Nearby`. |
| SpatialIndexing.SpatialIndex.GetAllMountains | src/domain/services/SpatialIndex.ts:96-98 | Returns one mountain per occupied position: the one the exact table holds there, no position twice, and every located input position covered. |
| SpatialIndexing.EmptyIndex | src/domain/services/SpatialIndex.ts:17-23 | An index built from no mountains finds no exact hit and no neighbours anywhere. |
| SpatialIndexing.ListingStep | src/domain/services/SpatialIndex.ts:97 | Listing one more position of the exact table keeps the listing a duplicate-free list of table entries covering every visited position. |
| MountainProximity.NearestSpec | src/domain/services/MountainProximityService.ts:59-70 | The scan keeps nothing iff no distance is within the threshold. Otherwise it keeps the first candidate with the least admissible distance; the initial `max + 1` bound never turns an admissible candidate away. |
| MountainProximity.NearestIsFirstNearest | src/domain/services/MountainProximityService.ts:62-69 | The first-nearest candidate is unique, so the strict `<` picks the earliest of tied candidates. |
| MountainProximity.NearestWiden | src/domain/services/MountainProximityService.ts:59-70 | Raising the threshold keeps the candidate already found. |
| MountainProximity.Scan | src/domain/services/MountainProximityService.ts:58-72 | The loop over the candidates, updating `minDist` and `nearestMountain`, returns the candidate `Nearest` selects. |
| MountainProximity.ClosestSpec | src/domain/services/MountainProximityService.ts:58-72 | The scan's result is nothing iff no candidate is within the threshold; otherwise it is the first nearest admissible candidate. |
| MountainProximity.ClosestAmong | src/domain/services/MountainProximityService.ts:58-72 | The same, stated over a pool whose selected members are the candidates: the result is an admissible pool member and no admissible member is closer. |
| MountainProximity.NearbyMembers | src/domain/services/MountainProximityService.ts:52-55 | A mountain is a candidate iff it is an input mountain located in the 3×3 block of the query. |
| MountainProximity.MountainProximityService.constructor | src/domain/services/MountainProximityService.ts:25-28 | The service indexes the given mountains with cells of 0.1 degree. |
| MountainProximity.MountainProximityService.FindMountainAtCoordinates | src/domain/services/MountainProximityService.ts:33-35 | Finds something iff an input mountain sits exactly at the coordinates, and what it finds is the last such mountain in input order (the last writer of the coordinate table). |
| MountainProximity.MountainProximityService.FindNearestMountain | src/domain/services/MountainProximityService.ts:41-73 | Returns the exact hit if there is one; otherwise returns the scan's choice among the neighbourhood candidates. |
| MountainProximity.MountainProximityService.NearestMountainSpec | src/domain/services/MountainProximityService.ts:41-73 | An exact hit wins whatever the threshold. Otherwise the result is the first nearest admissible candidate in neighbourhood order, and there is none iff no candidate is admissible. |
| MountainProximity.MountainProximityService.NearestAmongInputs | src/domain/services/MountainProximityService.ts:41-73 | With no exact hit, the result is an input mountain of the block within the threshold, no such mountain is closer, and there is none iff the block has none within the threshold. |
| MountainProximity.MountainProximityService.NearestMountainWiden | src/domain/services/MountainProximityService.ts:41-73 | A mountain found under a threshold is still the one found under any larger threshold. |
| MountainProximity.MountainProximityService.NearestIsGlobal | src/domain/services/MountainProximityService.ts:41-73 | When all admissible input mountains lie in the block, the result is nearest among all inputs. |
| MountainProximity.MountainProximityService.CandidatesAreBlock | src/domain/services/MountainProximityService.ts:52-55 | The candidates are exactly the input mountains the block filter selects. |
| MountainProximity.MountainProximityService.GetMountainIdForPlace | src/domain/services/MountainProximityService.ts:78-81 | The `mid` of the mountain found with the default 5 km threshold, or nothing. |
| MountainProximity.MountainProximityService.GetDistanceToNearestMountain | src/domain/services/MountainProximityService.ts:86-95 | Nothing iff no mountain is found with an unbounded threshold; otherwise the distance to that mountain. |
| MountainProximity.MountainProximityService.UnboundedFindsAny | src/domain/services/MountainProximityService.ts:86-90 | With no threshold a mountain is found iff the block around the query holds a located input mountain. |
| Coordinates.New | src/domain/value-objects/Coordinates.ts:7-21 | Succeeds iff -90 ≤ lat ≤ 90 and -180 ≤ lon ≤ 180, keeping both values. The latitude error comes first, then the longitude error. |
| Coordinates.Equals | src/domain/value-objects/Coordinates.ts:26-28 | True iff both components are equal. |
| Coordinates.EqualsIsEquivalence | src/domain/value-objects/Coordinates.ts:26-28 | `equals` is reflexive, symmetric and transitive. |
| Coordinates.ToObject | src/domain/value-objects/Coordinates.ts:33-38 | The record of both components; the definition, whose round trip is `Coordinates.ObjectRoundTrip`. |
| Coordinates.FromObject | src/domain/value-objects/Coordinates.ts:43-45 | Succeeds iff the record is in range; `toObject` of the result is the record. |
| Coordinates.ObjectRoundTrip | src/domain/value-objects/Coordinates.ts:33-45 | `fromObject(c.toObject())` is `c` for every valid `c`. |
| Coordinates.ToString | src/domain/value-objects/Coordinates.ts:50-52 | `"lat,lon"` with both numbers printed by `fmt`; the definition, see `Coordinates.ToStringSplits` and `Coordinates.ToStringInjective`. |
| Coordinates.ToStringSplits | src/domain/value-objects/Coordinates.ts:50-52 | With a comma-free number format, cutting `"lat,lon"` at the comma gives the two printed numbers, latitude first. |
| Coordinates.ToStringInjective | src/domain/value-objects/Coordinates.ts:50-52 | With an injective, comma-free number format, equal strings mean equal coordinates. This is why the exact table may be keyed by the pair. |
| PlaceIds.New | src/domain/value-objects/PlaceId.ts:7-11 | Fails with the empty-id error iff every character is whitespace, the empty string included. Otherwise it stores the string untrimmed. |
| PlaceIds.ToString | src/domain/value-objects/PlaceId.ts:13-15 | The stored string; the definition, see `PlaceIds.New`. |
| PlaceIds.FromString | src/domain/value-objects/PlaceId.ts:21-23 | Refuses a blank string with the empty-id error, as the constructor does, and keeps any other string as it is. |
| PlaceIds.Equals | src/domain/value-objects/PlaceId.ts:17-19 | True iff the stored strings are equal. |
| PlaceIds.EqualsIsEquivalence | src/domain/value-objects/PlaceId.ts:17-19 | `equals` is reflexive, symmetric and transitive. |
| PlaceIds.Examples | tests/domain/value-objects/PlaceId.test.ts:10-35 | `'12345'` is kept, `''` and `'   '` are rejected, and equal and different ids compare as the tests expect. |
| Strings.TrimEmpty | src/domain/value-objects/PlaceId.ts:8 | `trim()` leaves the empty string iff every character is whitespace. |
| Places.AddressParts | src/domain/entities/Place.ts:71-80 | `[]` unless the display name ends with 日本. Otherwise: no part is 日本 or a postal code, the parts keep their order within the segments without the last one, every other segment is kept, and there are at most that many parts. |
| Places.AddressPartsCounts | src/domain/entities/Place.ts:75-79 | For a display name ending with 日本, every segment but the last that is neither 日本 nor a postal code occurs in the parts exactly as often as among those segments, and any other value not at all. With the subsequence ensures of `Places.AddressParts`, this fixes the parts. |
| Places.JapaneseAddress | src/domain/entities/Place.ts:71-80 | "town, prefecture, NNN-NNNN, 日本" gives `[town, prefecture]`. |
| Places.FormattedAddress | src/domain/entities/Place.ts:85-88 | Empty when there are no address parts, in particular when the display name does not end with 日本. When no part holds a space, splitting the address at its spaces gives the parts in reverse order. |
| Places.JoinReversedSplits | src/domain/entities/Place.ts:85-88 | Splitting the formatted address at its spaces gives the parts in reverse order, when no part holds a space. |
| Places.ToObject | src/domain/entities/Place.ts:93-111 | The record of the place's fields, id as its string and position as latitude and longitude; the definition, whose round trip is `Places.ObjectRoundTrip`. |
| Places.FromObject | src/domain/entities/Place.ts:116-133 | Succeeds iff the id is not blank and the coordinates are in range. The place is then valid and `toObject` gives the record back. A failure reports the blank id first, then an out-of-range latitude, then an out-of-range longitude. |
| Places.ObjectRoundTrip | src/domain/entities/Place.ts:93-133 | `fromObject(p.toObject())` is `p` for every valid place. |
| Places.Equals | src/domain/entities/Place.ts:138-140 | True iff the place ids are equal, whatever the other fields. |
| Strings.JoinSplit | src/domain/entities/Place.ts:75-76 | Joining the parts of a split with the same separator gives the string back. |
| Seqs.Reverse | src/domain/entities/Place.ts:87 | The reversed list holds the element at `n-1-i` at position `i`. |
| Places.IsInCountry | src/domain/entities/Place.ts:57-59 | The display name ends with the country; the definition, see `PlaceFilter.FilterByCountrySpec`. |
| Places.IsInJapan | src/domain/entities/Place.ts:64-66 | The country test with `'Japan'`; the definition, see `PlaceFilter.FilterJapanOnly`. |
| PlaceFilter.FilterByCountrySpec | src/domain/services/PlaceFilterService.ts:20-22 | Keeps exactly the places whose display name ends with the country, each as often as the input holds it, in their order; a second pass changes nothing. |
| PlaceFilter.FilterByCountry | src/domain/services/PlaceFilterService.ts:20-22 | The filtered list is never longer than the input. |
| PlaceFilter.FilterJapanOnly | src/domain/services/PlaceFilterService.ts:13-15 | The same list as the country filter with `'Japan'`. |
| PlaceFilter.FilterByTargetCountry | src/domain/services/PlaceFilterService.ts:27-29 | The same list as the Japan filter, the configured target country being `'Japan'`. |
| PlaceFilter.RemoveDuplicates | src/domain/services/PlaceFilterService.ts:34-44 | The loop with its `seen` set returns `Dedup(places)`. |
| PlaceFilter.DedupSpec | src/domain/services/PlaceFilterService.ts:34-44 | The result has pairwise distinct ids and the same set of ids as the input, and is a subsequence of it. |
| PlaceFilter.DedupKeepsFirst | src/domain/services/PlaceFilterService.ts:35-43 | Every kept place is the first input place with its id. |
| PlaceFilter.DedupDistinct | src/domain/services/PlaceFilterService.ts:34-44 | A list without repeated ids is returned unchanged. |
| PlaceFilter.DedupIdempotent | src/domain/services/PlaceFilterService.ts:34-44 | Removing duplicates twice is the same as removing them once. |
| Cache.WithoutSpec | src/infrastructure/cache/LRUCache.ts:70 | Filtering a key out removes exactly that key and keeps the order of the rest. A duplicate-free order shrinks by one iff the key was there. |
| Cache.RemoveInv | src/infrastructure/cache/LRUCache.ts:69-72 | `delete` keeps the invariant: the order lists every key of the map exactly once, and there are at most `maxSize` entries. |
| Cache.TouchInv | src/infrastructure/cache/LRUCache.ts:90-95 | Moving a present key to the end keeps the invariant. |
| Cache.InsertInv | src/infrastructure/cache/LRUCache.ts:51-52 | Storing an entry and moving its key to the end keeps the invariant when the key is present or there is room. |
| Cache.PutInv | src/infrastructure/cache/LRUCache.ts:39-53 | `set` keeps the invariant, so the size never exceeds a capacity of at least one. |
| Cache.AfterGetInv | src/infrastructure/cache/LRUCache.ts:21-37 | `get` and `has` keep the invariant. |
| Cache.PutOverwrites | src/infrastructure/cache/LRUCache.ts:41-43 | Overwriting a present key never evicts; the other entries are unchanged. |
| Cache.PutEvictsOldest | src/infrastructure/cache/LRUCache.ts:97-104 | A new key written into a full cache removes the first key of the order and nothing else. |
| Cache.PutWithRoom | src/infrastructure/cache/LRUCache.ts:39-53 | A new key written into a cache with room is added and every entry kept. |
| Cache.PutCache | src/infrastructure/cache/LRUCache.ts:45-51 | After a write the map is the map after eviction, with the new entry. Its ttl is the given one, a 0 included, or else the default. |
| Cache.PutRecent | src/infrastructure/cache/LRUCache.ts:52 | After `set`, the key is last in the order and holds the new value and ttl; the other keys keep their relative order. |
| Cache.IsExpired | src/infrastructure/cache/LRUCache.ts:83-88 | A ttl of 0 never expires; otherwise the entry has expired once more than ttl has passed since its timestamp. The definition, see `Cache.PutThenLookup`. |
| Cache.PutThenLookup | src/infrastructure/cache/LRUCache.ts:83-88 | A value written at time `t` is read back at any `now` with `now - t <= ttl`, and at any time when the ttl is 0. |
| Cache.AfterGetSpec | src/infrastructure/cache/LRUCache.ts:21-37 | A successful `get` leaves the entries alone and makes the key the most recently used, keeping the order of the others. A miss, by `get` or `has`, leaves the key absent. |
| Cache.LRUCache.constructor | src/infrastructure/cache/LRUCache.ts:13-19 | A new cache is empty and satisfies the invariant. |
| Cache.LRUCache.Size | src/infrastructure/cache/LRUCache.ts:79-81 | The number of entries equals the length of the order and is at most `maxSize` when that is at least one. |
| Cache.LRUCache.UpdateAccessOrder | src/infrastructure/cache/LRUCache.ts:90-95 | The order becomes the old order without the key, followed by the key. |
| Cache.LRUCache.Delete | src/infrastructure/cache/LRUCache.ts:69-72 | Returns true iff the key was present, removes it from both fields and keeps the invariant. |
| Cache.LRUCache.Clear | src/infrastructure/cache/LRUCache.ts:74-77 | Both fields are emptied. |
| Cache.LRUCache.EvictLRU | src/infrastructure/cache/LRUCache.ts:97-104 | Deletes the first key of the order, if any. |
| Cache.LRUCache.Get | src/infrastructure/cache/LRUCache.ts:21-37 | Returns the value of a live entry, else nothing. An expired entry is deleted, and a live one becomes the most recently used. |
| Cache.LRUCache.Set | src/infrastructure/cache/LRUCache.ts:39-53 | The new state is `Put` of the old one and keeps the invariant. |
| Cache.LRUCache.Has | src/infrastructure/cache/LRUCache.ts:55-67 | True iff the key holds a live entry; an expired entry is deleted. |
| Cache.LRUCache.Cleanup | src/infrastructure/cache/LRUCache.ts:109-118 | Leaves exactly the unexpired entries, the order filtered to them, and returns the number of entries removed. |
| Cache.LRUCache.Visit | src/infrastructure/cache/LRUCache.ts:111-116 | One loop turn deletes the key iff its entry has expired, and says whether it did. |
| History.WithoutFirst | src/infrastructure/repositories/HistoryRepository.ts:30-33 | An absent query leaves the history unchanged. A present one loses exactly the entry at its first position, and the other entries keep their order. |
| Seqs.IndexOf | src/infrastructure/repositories/HistoryRepository.ts:30 | The first position holding the value, or -1 iff it is absent. |
| Seqs.RemoveAt | src/infrastructure/repositories/HistoryRepository.ts:32 | `splice(i, 1)`: the elements before `i` stay in place and those after it move down by one, so exactly the element at `i` is removed and the order is kept. |
| History.Added | src/infrastructure/repositories/HistoryRepository.ts:26-44 | The query comes first, followed by the history without the query's first occurrence, cut so that the length is the old length, plus one if the query is new, capped at 20. |
| History.AddedRepeatedEntries | src/infrastructure/repositories/HistoryRepository.ts:30-33 | On the stored history `[x, q, x]`, adding `q` saves `[q, x, x]`: only the first occurrence moves. |
| History.AddedKeepsOrder | src/infrastructure/repositories/HistoryRepository.ts:30-41 | The entries after the query keep their relative order from the old history. |
| History.AddedDistinct | src/infrastructure/repositories/HistoryRepository.ts:30-41 | A duplicate-free history stays duplicate-free. After the query come all other entries in order, with only the tail cut off. |
| History.WithoutFirstDistinct | src/infrastructure/repositories/HistoryRepository.ts:30-33 | Without repeated queries, removing the first occurrence removes every occurrence. |
| History.AddedTwice | src/infrastructure/repositories/HistoryRepository.ts:26-44 | Adding the same query twice in a row is adding it once. |
| History.HistoryRepository.constructor | src/infrastructure/repositories/HistoryRepository.ts:16 | The repository reads the given storage contents. |
| History.HistoryRepository.GetAll | src/infrastructure/repositories/HistoryRepository.ts:18-24 | Missing or non-array data reads as `[]`; a stored list is returned as it is. |
| History.HistoryRepository.Add | src/infrastructure/repositories/HistoryRepository.ts:26-44 | Saves `Added(old history, query)`. |
| History.HistoryRepository.Clear | src/infrastructure/repositories/HistoryRepository.ts:46-48 | The key is removed and the history reads as `[]`. |
| Favorites.Decode | src/infrastructure/repositories/FavoriteRepository.ts:27 | Reading stored records succeeds with one place per record, each from `fromObject`. Otherwise it fails with the error of the first bad record. |
| Favorites.Encode | src/infrastructure/repositories/FavoriteRepository.ts:56-59 | One record per place, each `toObject` of that place. |
| Favorites.DecodeEncode | src/infrastructure/repositories/FavoriteRepository.ts:56-59 | Saved valid favourites read back unchanged. |
| Favorites.DecodeValid | src/infrastructure/repositories/FavoriteRepository.ts:20-28 | Whatever reads back successfully is made of valid places. |
| Seqs.FindIndex | src/infrastructure/repositories/FavoriteRepository.ts:32 | The first position satisfying the predicate, or -1 iff there is none. |
| Favorites.Toggled | src/infrastructure/repositories/FavoriteRepository.ts:30-45 | Reports "added" iff no favourite has the place's id. An added place goes in front; otherwise the first favourite with that id is removed and the rest keep their order. |
| Favorites.ToggleTwice | src/infrastructure/repositories/FavoriteRepository.ts:30-45 | Toggling an absent place twice gives the list back. |
| Favorites.ToggleThenContains | src/infrastructure/repositories/FavoriteRepository.ts:30-50 | On distinct ids, the place is a favourite after the toggle iff the toggle reported "added", and the ids stay distinct. |
| Favorites.ToggledValid | src/infrastructure/repositories/FavoriteRepository.ts:30-45 | Toggling a valid place keeps every favourite valid. |
| Favorites.ToggleReadBack | src/infrastructure/repositories/FavoriteRepository.ts:30-50 | On distinct ids, after a toggle the saved list reads back as the toggled list, and `isFavorite` answers what `toggle` returned. |
| Favorites.FavoriteRepository.constructor | src/infrastructure/repositories/FavoriteRepository.ts:18 | The repository reads the given storage contents. |
| Favorites.FavoriteRepository.GetAll | src/infrastructure/repositories/FavoriteRepository.ts:20-28 | Missing or non-array data reads as `[]`; stored records are decoded. |
| Favorites.FavoriteRepository.Toggle | src/infrastructure/repositories/FavoriteRepository.ts:30-45 | Saves the toggled list and returns whether the place was added. A failed read fails the toggle and leaves the storage alone. |
| Favorites.FavoriteRepository.IsFavorite | src/infrastructure/repositories/FavoriteRepository.ts:47-50 | True iff some stored favourite has the place's id; a failed read fails. |
| Favorites.FavoriteRepository.Clear | src/infrastructure/repositories/FavoriteRepository.ts:52-54 | The key is removed and the favourites read as `[]`. |
| Favorites.FavoriteRepository.Save | src/infrastructure/repositories/FavoriteRepository.ts:56-59 | Stores the records of the places. |
| WeatherLinks.ServiceName | src/config/api.config.ts:16-42 | The configured display name of each service; the definition, see `WeatherLinks.LinksLabelled`. |
| WeatherLinks.BaseUrl | src/config/api.config.ts:16-42 | The configured base URL of each service; the definition, see `WeatherLinks.CoordinateUrlUnderBase`. |
| WeatherLinks.CoordinateUrl | src/config/api.config.ts:17-41 | The configured URL template of each coordinate service applied to the printed latitude and longitude; the definition, see `WeatherLinks.CoordinateUrlUnderBase`. |
| WeatherLinks.CoordinateUrlUnderBase | src/config/api.config.ts:16-42 | Every coordinate URL starts with its service's base URL. |
| WeatherLinks.CoordinateLink | src/domain/services/WeatherServiceLinkBuilder.ts:19-25 | A coordinate link carries its service, the service's name and the URL built from the place's latitude and longitude. |
| WeatherLinks.YamatenLink | src/domain/services/WeatherServiceLinkBuilder.ts:53-62 | No link iff the id is missing or empty. Otherwise the URL is the Yamaten prefix followed by the id. |
| WeatherLinks.AllLinks | src/domain/services/WeatherServiceLinkBuilder.ts:78-92 | Four links, or five when there is a Yamaten link. |
| WeatherLinks.BuildAllLinks | src/domain/services/WeatherServiceLinkBuilder.ts:78-92 | Building the list and pushing the optional link gives `AllLinks`. |
| WeatherLinks.AllLinksSpec | src/domain/services/WeatherServiceLinkBuilder.ts:78-92 | Five links iff the mountain id is non-empty. The first four are the SCW, Windy, Weather News and Meteoblue links in that order, and the fifth is the Yamaten link. |
| WeatherLinks.LinksLabelled | src/domain/services/WeatherServiceLinkBuilder.ts:19-72 | Every link carries its service's name and a URL under that service's base URL. |
| WeatherLinks.LinksFollowCoordinates | src/domain/services/WeatherServiceLinkBuilder.ts:23 | Places at the same coordinates get the same links. |
| Nominatim.PlaceName | src/infrastructure/api/NominatimApiClient.ts:107 | `name` if non-empty, else `names.name` if non-empty, else `''`; `''` iff both are missing or empty. |
| Nominatim.Position | src/infrastructure/api/NominatimApiClient.ts:110-123 | `lat`/`lon` when both are present, else the geometry's position with longitude first, else (0, 0). |
| Nominatim.TransformToPlace | src/infrastructure/api/NominatimApiClient.ts:105-133 | Succeeds iff the chosen position is in range, failing with the coordinate error otherwise. It copies the ids as decimal strings and copies the name, display name and type. |
| Nominatim.IdsRoundTrip | src/infrastructure/api/NominatimApiClient.ts:126-127 | The place's id strings parse back to the record's numbers. |
| Nominatim.NoPositionAtOrigin | src/infrastructure/api/NominatimApiClient.ts:119-123 | A record without any position becomes a place at (0, 0). |
| Nominatim.TransformedRoundTrip | src/infrastructure/api/NominatimApiClient.ts:125-132 | The transformed place survives `toObject` followed by `fromObject`. |
| Strings.DecimalRoundTrip | src/infrastructure/api/NominatimApiClient.ts:126 | `Number` of the decimal spelling of an integer is that integer. |
| OsmIds.IsValidOsmId | src/detail.ts:7-9 | At least one digit and nothing else, with a value from 1 to 2^53 - 1; the definition, see `OsmIds.CanonicalIds`, `OsmIds.LeadingZerosIgnored` and `OsmIds.Examples`. |
| OsmIds.CanonicalIds | src/detail.ts:7-9 | The decimal spelling of `n` is accepted iff 1 ≤ n ≤ 9007199254740991. |
| OsmIds.LeadingZerosIgnored | src/detail.ts:7-9 | Leading zeros change nothing about acceptance. |
| OsmIds.Examples | src/detail.ts:8 | `''`, `'0'`, `'000'`, `'-1'`, `'1.5'`, `' 42'` and `'12a'` are rejected; `'007'` and `'42'` are accepted. |

## Left out

- The Turf `distance` is an uninterpreted parameter. No property of it, not even non-negativity, is used.
- IEEE-754 behaviour is not modelled: rounding in `lat / gridSize`, `-0` and `0` printing alike in the exact key, `NaN` passing `Coordinates.validate`, and the `Infinity + 1` arithmetic (the model uses `Limit.Unbounded`).
- JavaScript's number-to-string conversion in `Coordinates.toString`, `getCoordinateKey` and the URL templates is the parameter `fmt`.
- SpatialIndexing.SpatialIndex.GetAllMountains: the result order is not stated. The source returns the exact table's insertion order.
- The exact table is keyed by the coordinate pair rather than by the string `"lat,lon"`. `Coordinates.ToStringInjective` shows the two agree when `fmt` is injective and comma-free.
- Cache.LRUCache.Cleanup: the keys are visited in an arbitrary order, not the `Map` insertion order. The final state and the count do not depend on the order.
- Cache.LRUCache.Cleanup: one clock reading `now` holds for the whole sweep. The source reads `Date.now()` again for every entry, so on a moving clock it may also remove entries that expire during the sweep, more than `Live(old(cache), now)`.
- `getStats` of the spatial index is not modelled: it is statistics only and divides by zero on an empty grid.
- `Date.now()` is the parameter `now`. The clock and its monotonicity are not modelled.
- The storage adapters, JSON parsing and the network calls `search` and `getPlaceDetails` are not modelled. A storage key is modelled as holding nothing, a non-array value, or a list of records of the right shape. Stored arrays whose items have the wrong shape are not modelled.
- OsmIds.IsValidOsmId compares the exact value of the digit string with 2^53 - 1, rather than the rounded double from `Number`. The two agree: every digit string above the bound rounds to at least 2^53.
- The configuration constants are inlined: 20 history items, 100 entries, a one-hour TTL, 5 km, `'Japan'` and the 0.1 degree cell.
- The application services, the service container, the Vue composables and the `useDetail` watcher are thin wrappers or UI, and are not modelled.
