/**
 * `fetchRecommendedTracks` and `addToPlaylist` in src/helper.js: choosing up
 * to five seed values, building the `seed_<kind>` option, dropping the
 * recommendations the playlist already holds, and sending track URIs back.
 */
module Recommendation {
  import opened Wrappers
  import opened Sequences
  import opened Util
  import opened Aggregation

  /** `RECOMMEND_SEEDS`: what the recommendations are seeded with. */
  datatype SeedKind = Artists | Genres | Tracks

  /** The string value of each `RECOMMEND_SEEDS` entry. */
  function SeedName(kind: SeedKind): string
  {
    match kind
    case Artists => "artists"
    case Genres => "genres"
    case Tracks => "tracks"
  }

  /** At most this many seed values are drawn. */
  const MaxSeeds: nat := 5

  function TrackId(t: Track): string { t.id }

  function TrackUri(t: Track): string { t.uri }

  // ---------------------------------------------------------------------------
  // The recommendation option
  // ---------------------------------------------------------------------------

  /** `values.join(',')`. */
  function Join(values: seq<string>): (r: string)
    ensures values == [] ==> r == ""
    ensures values != [] ==> |r| == SumLengths(values) + |values| - 1
  {
    if values == [] then ""
    else if |values| == 1 then values[0]
    else values[0] + "," + Join(values[1..])
  }

  /** `s.split(',')`, how the joined option reads back: the empty string splits into one empty part. */
  function Split(s: string): (parts: seq<string>)
    ensures |parts| > 0
  {
    if s == [] then [""]
    else if s[0] == ',' then [""] + Split(s[1..])
    else
      var rest := Split(s[1..]);
      [[s[0]] + rest[0]] + rest[1..]
  }

  predicate NoComma(v: string)
  {
    forall i :: 0 <= i < |v| ==> v[i] != ','
  }

  lemma {:induction false} SplitPrefix(v: string, t: string)
    requires NoComma(v)
    ensures Split(v + t) == [v + Split(t)[0]] + Split(t)[1..]
  {
    if v == [] {
      assert v + t == t;
      assert v + Split(t)[0] == Split(t)[0];
      assert [Split(t)[0]] + Split(t)[1..] == Split(t);
    } else {
      assert (v + t)[0] == v[0];
      assert (v + t)[1..] == v[1..] + t;
      SplitPrefix(v[1..], t);
      assert [v[0]] + (v[1..] + Split(t)[0]) == v + Split(t)[0];
    }
  }

  /**
   * Joining a non-empty list of comma-free values and splitting the result
   * at the commas gives the list back.
   */
  lemma {:induction false} SplitJoin(values: seq<string>)
    requires |values| > 0
    requires forall k :: 0 <= k < |values| ==> NoComma(values[k])
    ensures Split(Join(values)) == values
  {
    if |values| == 1 {
      SplitPrefix(values[0], "");
      assert values[0] + "" == values[0];
    } else {
      assert forall k :: 0 <= k < |values[1..]| ==> values[1..][k] == values[k + 1];
      SplitJoin(values[1..]);
      assert values[0] + "," + Join(values[1..]) == values[0] + ("," + Join(values[1..]));
      SplitPrefix(values[0], "," + Join(values[1..]));
      assert ("," + Join(values[1..]))[1..] == Join(values[1..]);
      assert values[0] + "" == values[0];
      assert [values[0]] + values[1..] == values;
    }
  }

  /** The empty seed list joins to the empty string, which splits into one empty value. */
  lemma JoinEmpty()
    ensures Join([]) == ""
    ensures Split(Join([])) == [""]
  {
  }

  function OptionKey(kind: SeedKind): string
  {
    "seed_" + SeedName(kind)
  }

  /**
   * The option object: the single key `seed_<kind>`, whose value reads back
   * as the seeds whenever there is at least one seed and none holds a comma.
   */
  function SeedOptions(kind: SeedKind, seeds: seq<string>): (options: map<string, string>)
    ensures options.Keys == {OptionKey(kind)}
    ensures |seeds| > 0 && (forall k :: 0 <= k < |seeds| ==> NoComma(seeds[k])) ==>
      Split(options[OptionKey(kind)]) == seeds
  {
    assert |seeds| > 0 && (forall k :: 0 <= k < |seeds| ==> NoComma(seeds[k])) ==> Split(Join(seeds)) == seeds by {
      if |seeds| > 0 && (forall k :: 0 <= k < |seeds| ==> NoComma(seeds[k])) {
        SplitJoin(seeds);
      }
    }
    map[OptionKey(kind) := Join(seeds)]
  }

  /** Whatever the seeds, even none, the option key names the seed kind: different kinds give different keys. */
  lemma SeedOptionKeys(kind: SeedKind, other: SeedKind, seeds: seq<string>)
    ensures OptionKey(other) in SeedOptions(kind, seeds) <==> other == kind
  {
    if other != kind {
      var a, b := OptionKey(kind), OptionKey(other);
      if |a| == |b| {
        assert a[5] != b[5];
      }
    }
  }

  // ---------------------------------------------------------------------------
  // The novelty filter
  // ---------------------------------------------------------------------------

  /** Some playlist track has this id (`allTracks.find(at => at.id === id)` finds one). */
  predicate InPlaylist(all: seq<Track>, id: string)
  {
    exists j :: 0 <= j < |all| && all[j].id == id
  }

  /** The recommendations, in the order returned, that no playlist track matches by id. */
  function NewTracks(recs: seq<Track>, all: seq<Track>): (r: seq<Track>)
    ensures |r| <= |recs|
    ensures forall i :: 0 <= i < |r| ==> !InPlaylist(all, r[i].id)
  {
    if recs == [] then []
    else
      var last := recs[|recs| - 1];
      NewTracks(recs[..|recs| - 1], all) + (if InPlaylist(all, last.id) then [] else [last])
  }

  lemma FindTrack(all: seq<Track>, id: string)
    ensures FindIndex(all, TrackId, id) == -1 <==> !InPlaylist(all, id)
  {
    if InPlaylist(all, id) {
      var j :| 0 <= j < |all| && all[j].id == id;
      assert TrackId(all[j]) == id;
    }
  }

  /**
   * The `forEach` over the recommendations: each one is looked up in the
   * playlist by id and pushed onto `newTracks` when absent.
   */
  method FilterNewTracks(recs: seq<Track>, all: seq<Track>) returns (newTracks: seq<Track>)
    ensures newTracks == NewTracks(recs, all)
  {
    newTracks := [];
    for i := 0 to |recs|
      invariant newTracks == NewTracks(recs[..i], all)
    {
      assert recs[..i + 1][..i] == recs[..i];
      FindTrack(all, recs[i].id);
      if FindIndex(all, TrackId, recs[i].id) == -1 {
        newTracks := newTracks + [recs[i]];
      }
    }
    assert recs[..|recs|] == recs;
  }

  /** A track is kept exactly when it was recommended and no playlist track has its id. */
  lemma {:induction false} NewTracksMembers(recs: seq<Track>, all: seq<Track>)
    ensures forall t :: t in NewTracks(recs, all) <==> t in recs && !InPlaylist(all, t.id)
  {
    if recs != [] {
      var init, last := recs[..|recs| - 1], recs[|recs| - 1];
      NewTracksMembers(init, all);
      assert recs == init + [last];
    }
  }

  /**
   * The filter works one recommendation at a time and keeps their order:
   * it turns `+` into `+`, and on one track keeps it exactly when it is new.
   */
  lemma {:induction false} NewTracksAppend(a: seq<Track>, b: seq<Track>, all: seq<Track>)
    ensures NewTracks(a + b, all) == NewTracks(a, all) + NewTracks(b, all)
  {
    if b == [] {
      assert a + b == a;
    } else {
      var init, last := b[..|b| - 1], b[|b| - 1];
      NewTracksAppend(a, init, all);
      assert (a + b)[..|a + b| - 1] == a + init;
      assert (a + b)[|a + b| - 1] == last;
    }
  }

  /** Whether a recommendation is new depends only on which ids the playlist holds. */
  lemma {:induction false} NewTracksSameIds(recs: seq<Track>, a: seq<Track>, b: seq<Track>)
    requires forall id :: InPlaylist(a, id) <==> InPlaylist(b, id)
    ensures NewTracks(recs, a) == NewTracks(recs, b)
  {
    if recs != [] {
      NewTracksSameIds(recs[..|recs| - 1], a, b);
    }
  }

  /** Reordering the playlist (as the TRACKS shuffle does) does not change which recommendations are new. */
  lemma NewTracksPermutation(recs: seq<Track>, a: seq<Track>, b: seq<Track>)
    requires multiset(a) == multiset(b)
    ensures NewTracks(recs, a) == NewTracks(recs, b)
  {
    forall id ensures InPlaylist(a, id) <==> InPlaylist(b, id) {
      if InPlaylist(a, id) {
        var j :| 0 <= j < |a| && a[j].id == id;
        assert a[j] in multiset(b);
        var k :| 0 <= k < |b| && b[k] == a[j];
      }
      if InPlaylist(b, id) {
        var j :| 0 <= j < |b| && b[j].id == id;
        assert b[j] in multiset(a);
        var k :| 0 <= k < |a| && a[k] == b[j];
      }
    }
    NewTracksSameIds(recs, a, b);
  }

  /** A playlist holding A and B, recommended A, C and D, gets C and D. */
  lemma NewTracksExample(ta: Track, tb: Track, tc: Track, td: Track)
    requires ta.id == "A" && tb.id == "B" && tc.id == "C" && td.id == "D"
    ensures NewTracks([ta, tc, td], [ta, tb]) == [tc, td]
  {
    assert [ta, tc, td] == [ta] + [tc] + [td];
    NewTracksAppend([ta] + [tc], [td], [ta, tb]);
    NewTracksAppend([ta], [tc], [ta, tb]);
    assert [ta, tb][0].id == ta.id;
    assert InPlaylist([ta, tb], ta.id);
    assert !InPlaylist([ta, tb], tc.id) by {
      assert [ta, tb][0].id != "C" && [ta, tb][1].id != "C";
    }
    assert !InPlaylist([ta, tb], td.id) by {
      assert [ta, tb][0].id != "D" && [ta, tb][1].id != "D";
    }
    assert [ta][..0] == [] && [tc][..0] == [] && [td][..0] == [];
  }

  // ---------------------------------------------------------------------------
  // Seed selection and the whole recommendation step
  // ---------------------------------------------------------------------------

  /**
   * The values the seeds are drawn from: every credited artist id (repeats
   * included), the playlist's distinct genres, or every track id.
   */
  function SeedPool<E>(kind: SeedKind, tracks: seq<Track>, getArtists: seq<string> -> Result<seq<Artist>, E>): (pool: Result<seq<string>, E>)
    ensures kind == Artists ==> pool.Success? && |pool.value| == SumLengths(Map(tracks, TrackArtists))
    ensures kind == Tracks ==> pool.Success? && |pool.value| == |tracks|
    ensures kind == Genres && pool.Success? ==> NoDuplicates(pool.value)
  {
    match kind
    case Artists => Success(ArtistIds(ArtistsOfTracks(tracks)))
    case Genres => DistinctGenresOfTracks(tracks, getArtists)
    case Tracks => Success(Map(tracks, TrackId))
  }

  /** Two tracks crediting the same artist put its id into the artist pool twice, so artist seeds may repeat. */
  lemma ArtistSeedsMayRepeat<E>(x: ArtistRef, t1: Track, t2: Track, getArtists: seq<string> -> Result<seq<Artist>, E>)
    requires t1.artists == [x] && t2.artists == [x]
    ensures SeedPool(Artists, [t1, t2], getArtists) == Success([x.id, x.id])
    ensures multiset([x.id, x.id]) <= multiset(SeedPool(Artists, [t1, t2], getArtists).value)
  {
    ArtistsOfTracksOrder([t1], [t2], t1);
    ArtistsOfTracksOrder([t1], [t2], t2);
    assert [t1, t2] == [t1] + [t2];
    assert ArtistsOfTracks([t1, t2]) == [x, x];
    assert ArtistIds([x, x]) == [x.id, x.id];
  }

  /** A genre pool holds no repeats, so neither do genre seeds drawn from it. */
  lemma GenreSeedsDistinct<E>(tracks: seq<Track>, getArtists: seq<string> -> Result<seq<Artist>, E>, seeds: seq<string>)
    requires SeedPool(Genres, tracks, getArtists).Success?
    requires multiset(seeds) <= multiset(SeedPool(Genres, tracks, getArtists).value)
    ensures NoDuplicates(seeds)
  {
    SubMultisetNoDuplicates(seeds, SeedPool(Genres, tracks, getArtists).value);
  }

  method ToArray<T>(s: seq<T>) returns (a: array<T>)
    ensures fresh(a)
    ensures a[..] == s
  {
    a := new T[|s|](i requires 0 <= i < |s| => s[i]);
  }

  /** The service's answer filtered down to tracks the playlist does not hold yet. */
  function Novel<E>(response: Result<seq<Track>, E>, all: seq<Track>): Result<seq<Track>, E>
  {
    match response
    case Failure(e) => Failure(e)
    case Success(recs) => Success(NewTracks(recs, all))
  }

  /**
   * `fetchRecommendedTracks(allTracks, seed)`. Seeds are the first (at most)
   * five values of a shuffled pool; the recommendation request carries them
   * as the `seed_<kind>` option; the answer is filtered against the playlist.
   * With TRACKS seeds the caller's own track array is the one shuffled, so
   * it comes back reordered. `seeds` records the values sent.
   */
  method FetchRecommendedTracks<E>(allTracks: array<Track>, kind: SeedKind,
                                   getArtists: seq<string> -> Result<seq<Artist>, E>,
                                   getRecommendations: map<string, string> -> Result<seq<Track>, E>)
    returns (res: Result<seq<Track>, E>, ghost seeds: seq<string>)
    modifies allTracks
    ensures multiset(allTracks[..]) == multiset(old(allTracks[..]))
    ensures kind != Tracks ==> allTracks[..] == old(allTracks[..])
    ensures SeedPool(kind, old(allTracks[..]), getArtists).Failure? ==>
      res == Failure(SeedPool(kind, old(allTracks[..]), getArtists).error)
    ensures SeedPool(kind, old(allTracks[..]), getArtists).Success? ==>
      var pool := SeedPool(kind, old(allTracks[..]), getArtists).value;
      |seeds| == Min(MaxSeeds, |pool|) &&
      multiset(seeds) <= multiset(pool) &&
      res == Novel(getRecommendations(SeedOptions(kind, seeds)), old(allTracks[..]))
    ensures kind == Genres ==> NoDuplicates(seeds)
    ensures kind == Tracks ==> seeds == Map(allTracks[..Min(MaxSeeds, allTracks.Length)], TrackId)
  {
    var seedValues: seq<string> := [];
    match kind {
      case Artists =>
        var artists := ArtistsOfTracks(allTracks[..]);
        var shuffled := ToArray(artists);
        var picked := GetRandomElements(shuffled, MaxSeeds);
        seedValues := ArtistIds(picked);
        MapSubMultiset(picked, artists, ArtistRefId);
      case Genres =>
        var genres := FetchDistinctGenresOfTracks(allTracks[..], getArtists);
        if genres.Failure? {
          res, seeds := Failure(genres.error), [];
          return;
        }
        var shuffled := ToArray(genres.value);
        var picked := GetRandomElements(shuffled, MaxSeeds);
        seedValues := picked;
        GenreSeedsDistinct(allTracks[..], getArtists, seedValues);
      case Tracks =>
        var picked := GetRandomElements(allTracks, MaxSeeds);
        seedValues := Map(picked, TrackId);
        MapSubMultiset(picked, old(allTracks[..]), TrackId);
    }
    seeds := seedValues;
    var options := SeedOptions(kind, seedValues);
    var response := getRecommendations(options);
    if response.Failure? {
      res := Failure(response.error);
      return;
    }
    var newTracks := FilterNewTracks(response.value, allTracks[..]);
    NewTracksPermutation(response.value, allTracks[..], old(allTracks[..]));
    res := Success(newTracks);
  }

  // ---------------------------------------------------------------------------
  // Adding tracks to a playlist
  // ---------------------------------------------------------------------------

  /** `tracks.map(t => t.uri)`. */
  function TrackUris(tracks: seq<Track>): (uris: seq<string>)
    ensures |uris| == |tracks|
    ensures forall i :: 0 <= i < |tracks| ==> uris[i] == tracks[i].uri
  {
    Map(tracks, TrackUri)
  }

  /**
   * `addToPlaylist(playlist, tracks)`: refreshes the access token, then adds
   * the tracks' URIs, position by position, to the playlist. A failed
   * refresh stops before anything is added. `sent` records the URIs handed
   * to the add call: none when the refresh failed.
   */
  method AddToPlaylist<E>(playlistId: string, tracks: seq<Track>,
                          refreshAccessToken: () -> Result<(), E>,
                          addTracksToPlaylist: (string, seq<string>) -> Result<(), E>)
    returns (res: Result<(), E>, ghost sent: seq<string>)
    ensures refreshAccessToken().Failure? ==> res == Failure(refreshAccessToken().error) && sent == []
    ensures refreshAccessToken().Success? ==>
      |sent| == |tracks| &&
      (forall i :: 0 <= i < |tracks| ==> sent[i] == tracks[i].uri) &&
      res == addTracksToPlaylist(playlistId, sent)
  {
    var trackUris := TrackUris(tracks);
    var refreshed := refreshAccessToken();
    if refreshed.Failure? {
      return Failure(refreshed.error), [];
    }
    sent := trackUris;
    res := addTracksToPlaylist(playlistId, trackUris);
  }
}
