/**
 * The pure helpers of src/helper.js that derive artists and genres from a
 * playlist's tracks, and the artist-detail lookup that runs through the
 * paging driver in batches of 50 ids.
 */
module Aggregation {
  import opened Wrappers
  import opened Sequences
  import opened Paging

  /** An artist as credited inside a track object: identity and display name. */
  datatype ArtistRef = ArtistRef(id: string, name: string)

  /** A full artist object, as the detail lookup returns it, with its genres. */
  datatype Artist = Artist(id: string, name: string, genres: seq<string>)

  /** A track: identity, display name, the URI used to add it to a playlist, its credited artists. */
  datatype Track = Track(id: string, name: string, uri: string, artists: seq<ArtistRef>)

  function ArtistRefId(a: ArtistRef): string { a.id }

  function TrackArtists(t: Track): seq<ArtistRef> { t.artists }

  function ArtistGenres(a: Artist): seq<string> { a.genres }

  // ---------------------------------------------------------------------------
  // Flattening
  // ---------------------------------------------------------------------------

  /** `getArtistsOfTracks(tracks)`: `tracks.map(t => t.artists).flat()`. */
  function ArtistsOfTracks(tracks: seq<Track>): (r: seq<ArtistRef>)
    ensures |r| == SumLengths(Map(tracks, TrackArtists))
  {
    Flatten(Map(tracks, TrackArtists))
  }

  /** `getGenresOfArtists(artistsDetailed)`: `artistsDetailed.map(a => a.genres).flat()`. */
  function GenresOfArtists(artists: seq<Artist>): (r: seq<string>)
    ensures |r| == SumLengths(Map(artists, ArtistGenres))
  {
    Flatten(Map(artists, ArtistGenres))
  }

  /**
   * Artists come track by track, and within a track in credit order: the
   * list of one track is its artists, and the list of two track lists put
   * together is their two lists put together.
   */
  lemma ArtistsOfTracksOrder(a: seq<Track>, b: seq<Track>, t: Track)
    ensures ArtistsOfTracks(a + b) == ArtistsOfTracks(a) + ArtistsOfTracks(b)
    ensures ArtistsOfTracks([t]) == t.artists
  {
    MapAppend(a, b, TrackArtists);
    FlattenAppend(Map(a, TrackArtists), Map(b, TrackArtists));
    assert Map([t], TrackArtists) == [t.artists];
    assert [t.artists][1..] == [];
    assert Flatten([t.artists]) == t.artists + Flatten([]);
    assert t.artists + [] == t.artists;
  }

  /**
   * The list holds one slot per credit: its length is the sum of the tracks'
   * artist counts, and an artist is in it exactly when some track credits it.
   */
  lemma ArtistsOfTracksContents(tracks: seq<Track>)
    ensures |ArtistsOfTracks(tracks)| == SumLengths(Map(tracks, TrackArtists))
    ensures forall a :: a in ArtistsOfTracks(tracks) <==> exists t :: t in tracks && a in t.artists
  {
    var lists := Map(tracks, TrackArtists);
    forall a ensures a in ArtistsOfTracks(tracks) <==> exists t :: t in tracks && a in t.artists {
      FlattenMember(lists, a);
      if a in ArtistsOfTracks(tracks) {
        var i :| 0 <= i < |lists| && a in lists[i];
        assert tracks[i] in tracks && a in tracks[i].artists;
      }
      if exists t :: t in tracks && a in t.artists {
        var t :| t in tracks && a in t.artists;
        var i :| 0 <= i < |tracks| && tracks[i] == t;
        assert a in lists[i];
      }
    }
  }

  /** Genres come artist by artist, and within an artist in the order the service lists them. */
  lemma GenresOfArtistsOrder(a: seq<Artist>, b: seq<Artist>, x: Artist)
    ensures GenresOfArtists(a + b) == GenresOfArtists(a) + GenresOfArtists(b)
    ensures GenresOfArtists([x]) == x.genres
  {
    MapAppend(a, b, ArtistGenres);
    FlattenAppend(Map(a, ArtistGenres), Map(b, ArtistGenres));
    assert Map([x], ArtistGenres) == [x.genres];
    assert [x.genres][1..] == [];
    assert Flatten([x.genres]) == x.genres + Flatten([]);
    assert x.genres + [] == x.genres;
  }

  /** A genre is in the list exactly when some artist has it. */
  lemma GenresOfArtistsContents(artists: seq<Artist>)
    ensures |GenresOfArtists(artists)| == SumLengths(Map(artists, ArtistGenres))
    ensures forall g :: g in GenresOfArtists(artists) <==> exists a :: a in artists && g in a.genres
  {
    var lists := Map(artists, ArtistGenres);
    forall g ensures g in GenresOfArtists(artists) <==> exists a :: a in artists && g in a.genres {
      FlattenMember(lists, g);
      if g in GenresOfArtists(artists) {
        var i :| 0 <= i < |lists| && g in lists[i];
        assert artists[i] in artists && g in artists[i].genres;
      }
      if exists a :: a in artists && g in a.genres {
        var a :| a in artists && g in a.genres;
        var i :| 0 <= i < |artists| && artists[i] == a;
        assert g in lists[i];
      }
    }
  }

  // ---------------------------------------------------------------------------
  // First-seen deduplication
  // ---------------------------------------------------------------------------

  /**
   * `getDistinctArtistsOfTracks(tracks)`: the credited artists, keeping only
   * the first credit of each artist id.
   */
  function DistinctArtistsOfTracks(tracks: seq<Track>): (r: seq<ArtistRef>)
    ensures FirstOccurrences(ArtistsOfTracks(tracks), ArtistRefId, r)
    ensures NoDuplicateKeys(r, ArtistRefId)
  {
    DistinctByFacts(ArtistsOfTracks(tracks), ArtistRefId);
    DistinctBy(ArtistsOfTracks(tracks), ArtistRefId)
  }

  /** Deduplicating the distinct artists again changes nothing. */
  lemma DistinctArtistsIdempotent(tracks: seq<Track>)
    ensures DistinctBy(DistinctArtistsOfTracks(tracks), ArtistRefId) == DistinctArtistsOfTracks(tracks)
  {
    DistinctByIdempotent(ArtistsOfTracks(tracks), ArtistRefId);
  }

  /** `getDistinctGenres(genres)`: the genres, each kept at its first occurrence only. */
  function DistinctGenres(genres: seq<string>): (r: seq<string>)
    ensures NoDuplicates(r)
    ensures forall g :: g in r <==> g in genres
    ensures FirstOccurrences(genres, Identity, r)
  {
    DistinctFacts(genres);
    Distinct(genres)
  }

  /** Deduplicating the distinct genres again changes nothing. */
  lemma DistinctGenresIdempotent(genres: seq<string>)
    ensures DistinctGenres(DistinctGenres(genres)) == DistinctGenres(genres)
  {
    DistinctByIdempotent(genres, Identity);
  }

  /** `getDistinctGenresOfArtists(artistsDetailed)`: every genre of the artists, once, in first-seen order. */
  function DistinctGenresOfArtists(artists: seq<Artist>): (r: seq<string>)
    ensures NoDuplicates(r)
    ensures forall g :: g in r <==> exists a :: a in artists && g in a.genres
    ensures FirstOccurrences(GenresOfArtists(artists), Identity, r)
  {
    GenresOfArtistsContents(artists);
    DistinctGenres(GenresOfArtists(artists))
  }

  // ---------------------------------------------------------------------------
  // Artist details, in batches of 50 ids
  // ---------------------------------------------------------------------------

  function ArtistIds(artists: seq<ArtistRef>): seq<string>
  {
    Map(artists, ArtistRefId)
  }

  /**
   * What the detail lookup yields: one lookup per batch of at most 50 ids,
   * in order, the first rejection ending it.
   */
  function ArtistsDetails<E>(artists: seq<ArtistRef>, getArtists: seq<string> -> Result<seq<Artist>, E>): Result<seq<Artist>, E>
  {
    Sequential(Batches(ArtistIds(artists)), getArtists)
  }

  /** Two request lists that ask the same things in the same order give the same result. */
  lemma {:induction false} SequentialSameCalls<Q, R, T, E>(qs: seq<Q>, f: Q -> Result<seq<T>, E>, rs: seq<R>, g: R -> Result<seq<T>, E>)
    requires |qs| == |rs|
    requires forall i :: 0 <= i < |qs| ==> f(qs[i]) == g(rs[i])
    ensures Sequential(qs, f) == Sequential(rs, g)
  {
    if qs != [] {
      assert forall i :: 0 <= i < |qs[1..]| ==> qs[1..][i] == qs[i + 1] && rs[1..][i] == rs[i + 1];
      SequentialSameCalls(qs[1..], f, rs[1..], g);
    }
  }

  /**
   * `fetchArtistsDetails(artists)`: `fetchAll` over the artist count, where
   * the page for a window looks up `artists.slice(offset, offset + limit)`
   * by id.
   */
  method FetchArtistsDetails<E>(artists: seq<ArtistRef>, getArtists: seq<string> -> Result<seq<Artist>, E>)
    returns (res: Result<seq<Artist>, E>)
    ensures res == ArtistsDetails(artists, getArtists)
  {
    var page := (w: Window) => getArtists(Map(JsSlice(artists, w.offset, w.offset + w.limit), ArtistRefId));
    ghost var requested: seq<Window>;
    res, requested := FetchAll(|artists|, page);
    var ws, bs := Windows(|artists|), Batches(ArtistIds(artists));
    forall i | 0 <= i < |ws| ensures page(ws[i]) == getArtists(bs[i]) {
      MapSlice(artists, ArtistRefId, i * PageSize, i * PageSize + PageSize);
    }
    SequentialSameCalls(ws, page, bs, getArtists);
  }

  /**
   * The id lists sent to the lookup hold at most 50 ids each and, one after
   * the other, are exactly the artists' ids in order.
   */
  lemma ArtistBatchesPartition(artists: seq<ArtistRef>)
    ensures forall i :: 0 <= i < |Batches(ArtistIds(artists))| ==> 0 < |Batches(ArtistIds(artists))[i]| <= PageSize
    ensures Flatten(Batches(ArtistIds(artists))) == ArtistIds(artists)
    ensures |Batches(ArtistIds(artists))| == PageCount(|artists|)
  {
    BatchesPartition(ArtistIds(artists));
  }

  /** Every genre of the looked-up artists, in artist order, or the lookup's rejection. */
  function ArtistsGenres<E>(artists: seq<ArtistRef>, getArtists: seq<string> -> Result<seq<Artist>, E>): Result<seq<string>, E>
  {
    match ArtistsDetails(artists, getArtists)
    case Failure(e) => Failure(e)
    case Success(details) => Success(GenresOfArtists(details))
  }

  /**
   * `fetchArtistsGenres(artists)`: the details lookup followed by
   * flattening the genres. On success every genre comes from some looked-up
   * artist and every looked-up artist's genres are present.
   */
  method FetchArtistsGenres<E>(artists: seq<ArtistRef>, getArtists: seq<string> -> Result<seq<Artist>, E>)
    returns (res: Result<seq<string>, E>)
    ensures res == ArtistsGenres(artists, getArtists)
    ensures res.Success? ==> forall g :: g in res.value <==>
      exists a :: a in ArtistsDetails(artists, getArtists).value && g in a.genres
  {
    var details := FetchArtistsDetails(artists, getArtists);
    if details.Failure? {
      return Failure(details.error);
    }
    GenresOfArtistsContents(details.value);
    res := Success(GenresOfArtists(details.value));
  }

  /** The genre pool `fetchDistinctGenresOfTracks` yields: distinct genres of the playlist's distinct artists. */
  function DistinctGenresOfTracks<E>(tracks: seq<Track>, getArtists: seq<string> -> Result<seq<Artist>, E>): Result<seq<string>, E>
  {
    match ArtistsGenres(DistinctArtistsOfTracks(tracks), getArtists)
    case Failure(e) => Failure(e)
    case Success(genres) => Success(DistinctGenres(genres))
  }

  /**
   * `fetchDistinctGenresOfTracks(tracks)`: looks up the genres of each
   * distinct artist, then deduplicates them. A rejected lookup
   * rejects the whole call.
   */
  method FetchDistinctGenresOfTracks<E>(tracks: seq<Track>, getArtists: seq<string> -> Result<seq<Artist>, E>)
    returns (res: Result<seq<string>, E>)
    ensures res == DistinctGenresOfTracks(tracks, getArtists)
    ensures res.Success? ==> NoDuplicates(res.value)
  {
    var artists := DistinctArtistsOfTracks(tracks);
    var genres := FetchArtistsGenres(artists, getArtists);
    if genres.Failure? {
      return Failure(genres.error);
    }
    res := Success(DistinctGenres(genres.value));
  }
}
