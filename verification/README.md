# spotify-playlist-editor: the data layer, in Dafny

spotify-playlist-editor is a command-line tool. It reads a Spotify playlist,
ranks the playlist's genres by frequency, and asks the Spotify Web API for
recommendations seeded from the playlist's artists, genres or tracks. It then
adds the accepted tracks to the playlist. This project models the tool's data
layer and proves what that layer promises:

- `src/util.js`:
  - the frequency table `countFrequencies` builds;
  - the stable descending ranking `sortFrequencies` produces;
  - `getRandomElements`, which shuffles the caller's array in place and takes a prefix.
- `src/helper.js`:
  - `fetchAll`, the paging driver: sequential windows of 50;
  - the artist-id batches of `fetchArtistsDetails`;
  - the flattening helpers and first-seen deduplication helpers for artists and genres;
  - the parts of `fetchRecommendedTracks` that choose seeds, build the `seed_<kind>` option and filter the results for novelty;
  - the URI mapping of `addToPlaylist`.

Layout, one module per file:

- `wrappers.dfy` (`Wrappers`): `Result`, the outcome of a service call. A `Failure` stands for a rejected promise.
- `sequences.dfy` (`Sequences`): the JavaScript array idioms the helpers are built from:
  - `slice`, `map`, `flat`;
  - `findIndex`;
  - the `filter((v, i, arr) => arr.findIndex(...) === i)` deduplication idiom.
- `util.dfy` (`Util`): the frequency table and ranking, and the in-place shuffle.
- `paging.dfy` (`Paging`): `fetchAll` and the batch slicing.
- `aggregation.dfy` (`Aggregation`): tracks, artists and genres, and the artist-details lookup.
- `recommendation.dfy` (`Recommendation`): seeds, the option object, the novelty filter, and adding to a playlist.

Service calls are function parameters:

- `getArtists` (ids → artists);
- `getRecommendations` (option map → tracks);
- the page function of `fetchAll`;
- `refreshAccessToken` and `addTracksToPlaylist`.

Each returns a `Result`. The methods' contracts tie what they return to these parameters.

`getRandomElements` sorts with a random comparator. It is modelled as a loop of swaps, each swap choosing an arbitrary partner, so any permutation can come out. Its contract holds for all of them.

## Model

| member | source | states |
|---|---|---|
| Sequences.FindIndex | src/helper.js:42 | `arr.findIndex(o => key(o) === k)`: -1 when no element has the key, otherwise the smallest index whose element has it |
| Sequences.FindIndexIdentity | src/helper.js:54 | searching by the value itself finds nothing exactly when the value is absent |
| Sequences.FlattenAppend | src/helper.js:35 | `.flat()` keeps the outer order, then the inner order: flattening a concatenation concatenates the flattenings |
| Sequences.Flatten | src/helper.js:35 | `.flat()`: the flattened list's length is the sum of the inner lengths |
| Sequences.FlattenMember | src/helper.js:35 | an item is in the flattened list exactly when it is in one of the inner lists |
| Sequences.JsSlice | src/helper.js:68 | `slice(start, end)` with both bounds clamped to the length: empty when the clamped end is not past `start`, otherwise the `end - start` items (clamped) starting at `start`, in order |
| Sequences.Map | src/helper.js:68 | `.map(f)`: one result per item, item `i` giving `f` of item `i` |
| Sequences.MapSlice | src/helper.js:68 | mapping a slice to ids is slicing the mapped ids |
| Sequences.FirstsBelow | src/helper.js:41-43 | the filter over the first `n` positions keeps at most `n` elements |
| Sequences.DistinctBy | src/helper.js:41-43 | the filter keeps at most as many elements as it is given (its full characterisation is `DistinctByFacts`) |
| Sequences.Distinct | src/helper.js:59 | deduplication by equality keeps at most as many values as it is given (its full characterisation is `DistinctFacts`) |
| Sequences.DistinctSnoc | src/util.js:3-5 | deduplicating one more value appends it exactly when it has not occurred yet |
| Sequences.NoDuplicatesSnoc | src/util.js:5 | a new key appended to a repetition-free key list keeps it repetition-free |
| Sequences.DistinctBySnoc | src/helper.js:41-43 | appending one element adds it to the deduplicated list exactly when no earlier element has its key |
| Sequences.DistinctByFacts | src/helper.js:41-43 | the filter keeps, in input order, exactly the first element of each key: each kept element is the first one with its key, kept positions increase, every input key is kept, and no key is kept twice |
| Sequences.DistinctByIdempotent | src/helper.js:41-43 | deduplicating an already deduplicated list returns it unchanged |
| Sequences.DistinctFacts | src/helper.js:59 | deduplication by equality has no repeats, the same members as its input, and keeps first occurrences in order |
| Sequences.NoDuplicatesCount | src/helper.js:59 | a list without repeats holds each value at most once |
| Sequences.SubMultisetNoDuplicates | src/util.js:24 | a selection that uses no input slot twice, drawn from a list without repeats, has no repeats |
| Sequences.MapSubMultiset | src/helper.js:126 | mapping a selection that uses no slot twice gives a selection of the mapped list that uses no slot twice |
| Util.TotalAppendNew | src/util.js:4 | a new key entered with count 1 raises the sum of counts by one |
| Util.TotalIncrement | src/util.js:4 | bumping an existing key's count raises the sum of counts by one |
| Util.CountedRepeat | src/util.js:3-5 | after a repeated value is counted, the table still describes the longer prefix |
| Util.CountedNew | src/util.js:3-5 | after a new value is entered, the table still describes the longer prefix |
| Util.CountsSnoc | src/util.js:3-4 | storing one more than a value's old multiplicity under it keeps every stored count equal to its value's multiplicity in the longer prefix |
| Util.CountedRepeatAt | src/util.js:3-4 | the loop step for a value already present, stated at position `i` of the input |
| Util.CountedNewAt | src/util.js:3-5 | the loop step for a new value, stated at position `i` of the input |
| Util.CountedTable | src/util.js:1-7 | the table left after the whole input lists each distinct value once, in first-seen order, with its number of occurrences (at least one), and the counts add up to the input's length |
| Util.CountFrequencies | src/util.js:1-7 | the keys are the distinct input values in first-insertion order, with no repeats; a string is a key exactly when it occurs in the input; each count is that value's number of occurrences and at least 1; the counts sum to the input length |
| Util.Entries | src/util.js:14-17 | the `reduce` yields one `{key, value}` entry per table key |
| Util.Insert | src/util.js:18 | placing one more entry after every entry whose value is at least its own lengthens the list by one |
| Util.SortDesc | src/util.js:18 | the stable descending ranking has as many entries as its input (its full characterisation is `SortDescCorrect`) |
| Util.InsertMultiset | src/util.js:18 | inserting one entry into the sorted prefix adds exactly that entry |
| Util.InsertNonIncreasing | src/util.js:18 | inserting into a non-increasing list keeps it non-increasing |
| Util.InsertWithValue | src/util.js:18 | inserting an entry appends it to the entries of its value and leaves other values' entries unchanged |
| Util.SortDescCorrect | src/util.js:18 | the ranking is non-increasing by value, a permutation of its input, and stable: the entries sharing a value keep their input order |
| Util.InsertAt | src/util.js:18 | the position where the in-place shift stops is where the ordered insert puts the entry |
| Util.ShiftSmaller | src/util.js:18 | the inner loop of one insertion step moves the entries smaller than the new one, and only those, one slot right; everything before the free slot and after position `i` stays |
| Util.InsertNext | src/util.js:18 | one pass of the in-place sort turns the array's sorted prefix plus the next entry into their ordered insert and leaves the rest of the array alone |
| Util.SortByValueDesc | src/util.js:18 | sorting the array in place by descending value leaves it holding the stable descending ranking of its old contents |
| Util.EntriesPerKey | src/util.js:14-18 | any reordering of a table's entries holds each key exactly once, with that key's count |
| Util.SortFrequencies | src/util.js:13-20 | one entry per table key, with the table's count; the entries are a permutation of the table's, ordered by non-increasing count, with equal counts kept in key order |
| Util.GetRandomElements | src/util.js:22-25 | the caller's array is left a permutation of its old contents; the result is its first `min(count, length)` elements and uses no old slot twice |
| Paging.PageCount | src/helper.js:11 | `Math.ceil(total / 50)`: the fewest windows of 50 that cover `total` |
| Paging.Windows | src/helper.js:13-14 | exactly `ceil(total / 50)` calls are made |
| Paging.WindowsPartition | src/helper.js:13-14 | call `i` asks for `(i * 50, 50)`: the windows are strictly increasing and never overlap, each starts below `total`, and every index below `total` lies in window `x / 50` |
| Paging.WindowsOf120 | src/helper.js:11-14 | a total of 120 makes three calls, at offsets 0, 50 and 100 |
| Paging.Sequential | src/helper.js:13-16 | a successful run means every call succeeded; a first call that fails makes the whole run fail with its error |
| Paging.SequentialAppend | src/helper.js:13-16 | running two request lists back to back gives the concatenation of their pages, or the first rejection |
| Paging.SequentialSingle | src/helper.js:14 | one request yields exactly its page or its rejection |
| Paging.SequentialFacts | src/helper.js:13-17 | the fetch succeeds exactly when every call succeeds, and then yields the pages concatenated in call order; otherwise it fails with the first failing call's error |
| Paging.FetchAll | src/helper.js:9-18 | the result is the sequential run of the windows; the calls made are a prefix of the windows in order; with a total of 0 no call is made and the result is empty; a rejection stops the loop at the failing call |
| Paging.FetchSuffixLength | src/helper.js:13-16 | the windows from number `i` on, answered with full pages, yield the items that remain |
| Paging.FetchAllLength | src/helper.js:9-18 | when each page holds the items left in its window, the fetch yields exactly `total` items |
| Paging.Batches | src/helper.js:64-69 | there are `ceil(n / 50)` batches, each of at most 50 items |
| Paging.BatchesSuffix | src/helper.js:68 | the batches from number `i` on concatenate to the list from offset `i * 50` on |
| Paging.BatchesPartition | src/helper.js:68 | every batch holds between 1 and 50 items, and the batches concatenate back to the whole list in order |
| Aggregation.ArtistsOfTracks | src/helper.js:34-37 | `tracks.map(t => t.artists).flat()`: as many entries as there are artist credits |
| Aggregation.ArtistsOfTracksOrder | src/helper.js:34-37 | artists come track by track, and within a track in credit order |
| Aggregation.ArtistsOfTracksContents | src/helper.js:34-37 | the length is the sum of the tracks' artist counts, and an artist is listed exactly when some track credits it |
| Aggregation.GenresOfArtists | src/helper.js:47-50 | `artists.map(a => a.genres).flat()`: as many entries as the artists have genres together |
| Aggregation.GenresOfArtistsOrder | src/helper.js:47-50 | genres come artist by artist, and within an artist in listed order |
| Aggregation.GenresOfArtistsContents | src/helper.js:47-50 | the length is the sum of the artists' genre counts, and a genre is listed exactly when some artist has it |
| Aggregation.DistinctArtistsOfTracks | src/helper.js:39-45 | the first credit of each artist id, in first-seen order; every credited id is covered and no id repeats |
| Aggregation.DistinctArtistsIdempotent | src/helper.js:39-45 | deduplicating the distinct artists again changes nothing |
| Aggregation.DistinctGenres | src/helper.js:58-61 | no genre repeats; the genres are exactly the input's, each kept at its first occurrence, in order |
| Aggregation.DistinctGenresIdempotent | src/helper.js:58-61 | deduplicating the distinct genres again changes nothing |
| Aggregation.DistinctGenresOfArtists | src/helper.js:52-56 | no genre repeats; a genre is kept exactly when some artist has it, at its first occurrence in the flattened list |
| Aggregation.SequentialSameCalls | src/helper.js:66-71 | two request lists that make the same calls in the same order give the same result |
| Aggregation.FetchArtistsDetails | src/helper.js:63-74 | the windowed lookups equal one lookup per batch of at most 50 ids, in order, with the first rejection ending it |
| Aggregation.ArtistBatchesPartition | src/helper.js:64-69 | the id batches hold 1 to 50 ids each, number `ceil(n / 50)`, and concatenate back to the artists' ids in order |
| Aggregation.FetchArtistsGenres | src/helper.js:76-79 | the genres of the looked-up artists, in artist order; on success a genre is present exactly when some looked-up artist has it |
| Aggregation.FetchDistinctGenresOfTracks | src/helper.js:81-86 | deduplicates the artists first, then looks up their genres, then deduplicates the genres; a rejected lookup rejects the call; the genres returned never repeat |
| Recommendation.SplitPrefix | src/helper.js:138 | splitting at commas, a comma-free start joins onto the first part |
| Recommendation.SplitJoin | src/helper.js:138 | a non-empty list of comma-free seed values, joined with commas, splits back into itself |
| Recommendation.JoinEmpty | src/helper.js:138 | no seeds give the empty option value, which reads back as one empty value |
| Recommendation.Join | src/helper.js:138 | no values join to the empty string; otherwise the joined string holds the values and one comma between each two, so its length is their total length plus the count minus one |
| Recommendation.SeedOptions | src/helper.js:137-138 | the option object has the single key `seed_<kind>`; when there is at least one seed and no seed holds a comma, the key's value reads back as the seeds |
| Recommendation.SeedOptionKeys | src/helper.js:137-138 | for any seed list, the empty one included, different seed kinds give different option keys |
| Recommendation.NewTracks | src/helper.js:144-151 | the kept recommendations are at most as many as those returned, and none has an id found in the playlist |
| Recommendation.FindTrack | src/helper.js:145 | `allTracks.find` by id finds nothing exactly when no playlist track has the id |
| Recommendation.FilterNewTracks | src/helper.js:143-151 | the `forEach`/`push` loop yields exactly the novelty filter of the recommendations |
| Recommendation.NewTracksMembers | src/helper.js:144-151 | a track is kept exactly when it was recommended and no playlist track has its id |
| Recommendation.NewTracksAppend | src/helper.js:144-151 | the filter keeps the service's order: filtering a concatenation concatenates the filtered parts |
| Recommendation.NewTracksSameIds | src/helper.js:145 | which tracks are new depends only on the set of ids in the playlist |
| Recommendation.NewTracksPermutation | src/helper.js:132-133 | reordering the playlist, as the TRACKS shuffle does, does not change which recommendations are new |
| Recommendation.NewTracksExample | src/helper.js:144-151 | a playlist holding A and B, recommended A, C and D, gets C and D |
| Recommendation.SeedPool | src/helper.js:123-136 | the ARTISTS pool has one id per artist credit, the TRACKS pool one id per track, and both always exist; the GENRES pool, when the lookup succeeds, has no repeats |
| Recommendation.ArtistSeedsMayRepeat | src/helper.js:124-127 | artist seeds come from the undeduplicated artist list: two tracks crediting one artist put its id in the pool twice, and that id may be drawn twice |
| Recommendation.GenreSeedsDistinct | src/helper.js:128-131 | genre seeds come from the deduplicated genres, so they never repeat |
| Recommendation.FetchRecommendedTracks | src/helper.js:121-152 | seeds number `min(5, pool size)` and use no pool slot twice; the pool is every credited artist id, the distinct genres, or every track id; the request carries the `seed_<kind>` option; with TRACKS the seeds are the ids of the first five tracks of the caller's array as the shuffle left it; the result is the recommendations whose ids are not in the playlist as it was on entry, in service order; a rejected genre lookup or request rejects the call; only TRACKS seeds reorder the caller's array, always to a permutation; genre seeds never repeat |
| Recommendation.TrackUris | src/helper.js:116 | one URI per track, each track's own, in track order |
| Recommendation.AddToPlaylist | src/helper.js:115-119 | refreshes the token first; when that fails the call fails with its error and no URI is handed to the add; otherwise it adds the tracks' URIs, one per track in track order, and returns the add's outcome |

## Left out

- `src/main.js` and `src/cli.js` are not part of this model. They hold authentication, prompts, console output, the action dispatch and the accept/repeat loop.
- `fetchPlaylistTracks` (src/helper.js:20-32) is not modelled as its own member. It is `FetchAll` with a page function that asks the playlist-items endpoint and unwraps `items[].track`. That page function is one of the modelled service calls.
- `fetchGenresOfPlaylist`, `fetchArtistsOfPlaylist` and `fetchPlaylistData` (src/helper.js:88-107) are not modelled. Each chains a playlist fetch into members that are modelled, or forwards the service's promise.
- The Spotify Web API calls are parameters; `.body` unwrapping and async/await sequencing are not modelled. Each call returns `Success` or `Failure`, and a `Failure` ends the computation the way an awaited rejection does. The model does not cover the call inside `fetchPlaylistData` that turns a rejection into a value.
- Util.GetRandomElements: the probability distribution of the random-comparator sort, and its bias, are not modelled. The contract holds for every permutation. `count` is a natural number; the source's behaviour for a negative `count` (a slice up to an end counted from the back) is not covered.
- Util.CountFrequencies: the table is an insertion-ordered string map. A JavaScript object enumerates integer-like keys first, in numeric order, so for such keys `Object.keys` order (and with it the tie order of `sortFrequencies`) differs from insertion order. An inherited property name used as a value (for example `"constructor"`) is truthy on a fresh `{}` and would not count from 1. Neither quirk is modelled. The model assumes that no value passed in is integer-like or an inherited property name. It is called with genre names (src/main.js:50-51) and with artist names (src/main.js:64-65). An artist name such as "311" breaks this assumption: for such a value, the key order and the tie order in the model differ from the source's.
- Util.SortFrequencies: the comparator `b.value - a.value` is taken over natural-number counts, with the stable ordering JavaScript guarantees since ES2019.
- Paging.PageCount: `Math.ceil(total / 50)` uses floating point; it is modelled as integer ceiling division. The two agree for every total below 2^53.
- Recommendation.FetchRecommendedTracks: the `default` branch of the `switch` is not modelled, since `SeedKind` has exactly the three `RECOMMEND_SEEDS` values the prompt offers. For any other seed string, src/helper.js:134-135 leaves the seed list empty and still writes `seed_<value>`. `seeds` is a ghost record of the values sent, not a result of the source function.
- Recommendation.AddToPlaylist: the URIs handed to the add call are returned as a ghost record, empty when the refresh fails; the playlist is identified by its id.
- Track, artist and playlist objects keep only the fields the core reads (`id`, `name`, `uri`, `artists`, `genres`).
