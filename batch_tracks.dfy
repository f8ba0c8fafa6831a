/** main.py: the extraction loop that turns items into track rows and collects
    artist ids (lines 46-77), the chunking of the ids for `sp.artists` (lines
    82-86), the flattening of artists and genres (lines 96-103), and the data
    frame's decade column and sort (lines 106-108). */
module BatchTracks {
  import opened Common
  import opened Sorting
  import opened Spotify

  /** A dictionary appended to `tracks`. */
  datatype TrackRow = TrackRow(year: int, songName: string, authors: string, album: string,
                               link: string, artistNames: seq<string>, artistIds: seq<string>)

  /** `int(release_date[:4])` raised a ValueError on this text; the script stops. */
  datatype ExtractError = InvalidYear(text: string)

  /** The ids of the artists whose `id` is truthy, in the track's order. */
  function TruthyIds(artists: seq<Artist>): seq<string>
    decreases |artists|
  {
    if |artists| == 0 then []
    else
      var last := artists[|artists| - 1];
      TruthyIds(artists[..|artists| - 1]) + (if Present(last.id) then [last.id.value] else [])
  }

  /** An id is listed exactly when some artist of the track carries it and it is not empty. */
  lemma {:induction false} TruthyIdsMembers(artists: seq<Artist>, id: string)
    ensures id in TruthyIds(artists) <==>
              id != "" && exists i :: 0 <= i < |artists| && artists[i].id == Some(id)
    decreases |artists|
  {
    if |artists| > 0 {
      var front := artists[..|artists| - 1];
      TruthyIdsMembers(front, id);
      if exists i :: 0 <= i < |artists| && artists[i].id == Some(id) {
        var i :| 0 <= i < |artists| && artists[i].id == Some(id);
        if i < |front| {
          assert front[i].id == Some(id);
        }
      }
      if exists i :: 0 <= i < |front| && front[i].id == Some(id) {
        var i :| 0 <= i < |front| && front[i].id == Some(id);
        assert artists[i].id == Some(id);
      }
    }
  }

  /** The row lines 69-77 build for a track of the given year. */
  function RowOf(track: Track, year: int): TrackRow
    requires track.album.Some?
  {
    var names := ArtistNames(track.artists);
    TrackRow(year, track.name, Join(names, ", "), track.album.value.name,
             if track.spotifyLink.Some? then track.spotifyLink.value else "",
             names, TruthyIds(track.artists))
  }

  /** The item reaches `int(...)`: it has a track, an album and a release date. */
  predicate Candidate(item: Item)
  {
    ReleaseDate(item).Some?
  }

  /** The item reaches `int(...)` and `int` rejects its text. */
  predicate YearFails(item: Item, parse: YearParser)
  {
    Candidate(item) && parse(YearText(ReleaseDate(item).value)).None?
  }

  /** The row of a candidate whose year parses; nothing for the others. */
  function RowFor(item: Item, parse: YearParser): (rows: seq<TrackRow>)
    ensures |rows| <= 1
  {
    if Candidate(item) then
      match parse(YearText(ReleaseDate(item).value))
      case Some(year) => [RowOf(item.track.value, year)]
      case None => []
    else []
  }

  /** `tracks` after the loop, when no year fails. */
  function Rows(items: seq<Item>, parse: YearParser): seq<TrackRow>
    decreases |items|
  {
    if |items| == 0 then [] else Rows(items[..|items| - 1], parse) + RowFor(items[|items| - 1], parse)
  }

  /** The elements of a list, as a set. */
  function Elements<T>(s: seq<T>): set<T>
  {
    set k | 0 <= k < |s| :: s[k]
  }

  lemma ElementsAppend<T>(s: seq<T>, x: T)
    ensures Elements(s + [x]) == Elements(s) + {x}
  {
    var t := s + [x];
    forall y | y in Elements(t)
      ensures y in Elements(s) + {x}
    {
      var k :| 0 <= k < |t| && t[k] == y;
      if k < |s| {
        assert s[k] == y;
      }
    }
    forall y | y in Elements(s)
      ensures y in Elements(t)
    {
      var k :| 0 <= k < |s| && s[k] == y;
      assert t[k] == y;
    }
    assert t[|s|] == x;
  }

  /** Every artist id of the rows: `unique_artist_ids` after the loop. */
  function IdsOf(rows: seq<TrackRow>): set<string>
    decreases |rows|
  {
    if |rows| == 0 then {} else IdsOf(rows[..|rows| - 1]) + Elements(rows[|rows| - 1].artistIds)
  }

  lemma {:induction false} IdsOfMembers(rows: seq<TrackRow>, id: string)
    ensures id in IdsOf(rows) <==> exists j :: 0 <= j < |rows| && id in rows[j].artistIds
    decreases |rows|
  {
    if |rows| > 0 {
      var front := rows[..|rows| - 1];
      IdsOfMembers(front, id);
      if exists j :: 0 <= j < |rows| && id in rows[j].artistIds {
        var j :| 0 <= j < |rows| && id in rows[j].artistIds;
        if j < |front| {
          assert id in front[j].artistIds;
        }
      }
      if exists j :: 0 <= j < |front| && id in front[j].artistIds {
        var j :| 0 <= j < |front| && id in front[j].artistIds;
        assert id in rows[j].artistIds;
      }
    }
  }

  /** `row` is what lines 69-77 append for `item`: the item reaches `int(...)`,
      its year text parses, and `row` is the track's row with that year. */
  predicate Yields(item: Item, parse: YearParser, row: TrackRow)
  {
    && Candidate(item)
    && parse(YearText(ReleaseDate(item).value)).Some?
    && row == RowOf(item.track.value, parse(YearText(ReleaseDate(item).value)).value)
  }

  lemma RowForYields(item: Item, parse: YearParser, row: TrackRow)
    ensures row in RowFor(item, parse) <==> Yields(item, parse, row)
  {
  }

  lemma {:induction false} RowsBound(items: seq<Item>, parse: YearParser)
    ensures |Rows(items, parse)| <= |items|
    decreases |items|
  {
    if |items| > 0 {
      RowsBound(items[..|items| - 1], parse);
    }
  }

  lemma {:induction false} RowsFrom(items: seq<Item>, parse: YearParser, row: TrackRow)
    requires row in Rows(items, parse)
    ensures exists i :: 0 <= i < |items| && Yields(items[i], parse, row)
    decreases |items|
  {
    var front, last := items[..|items| - 1], items[|items| - 1];
    assert Rows(items, parse) == Rows(front, parse) + RowFor(last, parse);
    if row in RowFor(last, parse) {
      RowForYields(last, parse, row);
      assert Yields(items[|items| - 1], parse, row);
    } else {
      RowsFrom(front, parse, row);
      var i :| 0 <= i < |front| && Yields(front[i], parse, row);
      assert items[i] == front[i];
    }
  }

  lemma {:induction false} RowsHas(items: seq<Item>, parse: YearParser, i: nat, row: TrackRow)
    requires i < |items| && Yields(items[i], parse, row)
    ensures row in Rows(items, parse)
    decreases |items|
  {
    var front, last := items[..|items| - 1], items[|items| - 1];
    assert Rows(items, parse) == Rows(front, parse) + RowFor(last, parse);
    if i == |items| - 1 {
      RowForYields(last, parse, row);
    } else {
      assert front[i] == items[i];
      RowsHas(front, parse, i, row);
    }
  }

  /** A row is in `tracks` exactly when some item yields it: no row is made up,
      and no candidate whose year parses is dropped. */
  lemma {:induction false} RowsFromItems(items: seq<Item>, parse: YearParser)
    ensures |Rows(items, parse)| <= |items|
    ensures forall row :: row in Rows(items, parse) <==>
              exists i :: 0 <= i < |items| && Yields(items[i], parse, row)
  {
    RowsBound(items, parse);
    forall row
      ensures row in Rows(items, parse) <==> exists i :: 0 <= i < |items| && Yields(items[i], parse, row)
    {
      if row in Rows(items, parse) {
        RowsFrom(items, parse, row);
      }
      if exists i :: 0 <= i < |items| && Yields(items[i], parse, row) {
        var i :| 0 <= i < |items| && Yields(items[i], parse, row);
        RowsHas(items, parse, i, row);
      }
    }
  }

  /** Rows keep the order of their items: the rows of a concatenation are the
      rows of each part, one after the other. */
  lemma {:induction false} RowsAppend(a: seq<Item>, b: seq<Item>, parse: YearParser)
    ensures Rows(a + b, parse) == Rows(a, parse) + Rows(b, parse)
    decreases |b|
  {
    if |b| == 0 {
      assert a + b == a;
    } else {
      var front := b[..|b| - 1];
      RowsAppend(a, front, parse);
      assert (a + b)[..|a + b| - 1] == a + front;
      assert (a + b)[|a + b| - 1] == b[|b| - 1];
      AppendAssoc(Rows(a, parse), Rows(front, parse), RowFor(b[|b| - 1], parse));
    }
  }

  /** The inner loop of lines 60-64: the track's truthy ids, each also added to
      the ids seen so far. */
  method TrackArtistIds(artists: seq<Artist>, seen: set<string>)
    returns (ids: seq<string>, seen': set<string>)
    ensures ids == TruthyIds(artists)
    ensures seen' == seen + Elements(ids)
  {
    ids, seen' := [], seen;
    for k := 0 to |artists|
      invariant ids == TruthyIds(artists[..k])
      invariant seen' == seen + Elements(ids)
    {
      assert artists[..k + 1][..k] == artists[..k];
      var artist := artists[k];
      if artist.id.Some? && artist.id.value != "" {
        ElementsAppend(ids, artist.id.value);
        ids := ids + [artist.id.value];
        seen' := seen' + {artist.id.value};
      }
    }
    assert artists[..|artists|] == artists;
  }

  /** The loop of lines 46-77, with its inner loop over the artists (60-64). */
  method ExtractTracks(items: seq<Item>, parse: YearParser)
    returns (result: Result<(seq<TrackRow>, set<string>), ExtractError>)
    // the script stops at the first item whose year text `int` rejects
    ensures result.Err? <==> exists i :: 0 <= i < |items| && YearFails(items[i], parse)
    ensures result.Err? ==>
              exists i :: 0 <= i < |items| && YearFails(items[i], parse) &&
                          (forall j :: 0 <= j < i ==> !YearFails(items[j], parse)) &&
                          result.error == InvalidYear(YearText(ReleaseDate(items[i]).value))
    // otherwise `tracks` holds the candidates' rows and `unique_artist_ids` their ids
    ensures result.Ok? ==> result.value.0 == Rows(items, parse)
    ensures result.Ok? ==> result.value.1 == IdsOf(Rows(items, parse))
  {
    var tracks: seq<TrackRow> := [];
    var uniqueArtistIds: set<string> := {};
    for i := 0 to |items|
      invariant tracks == Rows(items[..i], parse)
      invariant uniqueArtistIds == IdsOf(tracks)
      invariant forall j :: 0 <= j < i ==> !YearFails(items[j], parse)
    {
      RowsStep(items, i, parse);
      var track := items[i].track;
      if track.None? {
        assert RowFor(items[i], parse) == [];
        continue;
      }
      var t := track.value;
      if t.album.Some? && Present(t.album.value.releaseDate) {
        var releaseDate := t.album.value.releaseDate.value;
        assert ReleaseDate(items[i]) == Some(releaseDate);
        var year := parse(Prefix(releaseDate, 4));
        if year.None? {
          assert YearFails(items[i], parse);
          return Err(InvalidYear(Prefix(releaseDate, 4)));
        }
        var artistNames := ArtistNames(t.artists);
        var authors := Join(artistNames, ", ");
        var currentTrackArtistIds;
        currentTrackArtistIds, uniqueArtistIds := TrackArtistIds(t.artists, uniqueArtistIds);
        var link := if t.spotifyLink.Some? then t.spotifyLink.value else "";
        var row := TrackRow(year.value, t.name, authors, t.album.value.name, link,
                            artistNames, currentTrackArtistIds);
        assert RowFor(items[i], parse) == [row];
        IdsOfSnoc(tracks, row);
        tracks := tracks + [row];
      } else {
        assert RowFor(items[i], parse) == [];
      }
    }
    assert items[..|items|] == items;
    result := Ok((tracks, uniqueArtistIds));
  }

  lemma RowsStep(items: seq<Item>, i: nat, parse: YearParser)
    requires i < |items|
    ensures Rows(items[..i + 1], parse) == Rows(items[..i], parse) + RowFor(items[i], parse)
  {
    assert items[..i + 1][..i] == items[..i];
  }

  lemma IdsOfSnoc(rows: seq<TrackRow>, row: TrackRow)
    ensures IdsOf(rows + [row]) == IdsOf(rows) + Elements(row.artistIds)
  {
    assert (rows + [row])[..|rows|] == rows;
  }

  // ---------------------------------------------------------------------------
  // Chunking the ids for `sp.artists`.

  /** The Web API's limit on ids per `sp.artists` request. */
  const ArtistsPerRequest := 50

  /** `list(unique_artist_ids)`: the ids in an order Python does not fix. */
  method ListOfSet(s: set<string>) returns (list: seq<string>)
    ensures Distinct(list)
    ensures |list| == |s|
    ensures forall id :: id in list <==> id in s
  {
    list := [];
    var rest := s;
    while rest != {}
      invariant rest <= s
      invariant Distinct(list)
      invariant forall id :: id in list <==> id in s - rest
      invariant |list| + |rest| == |s|
      decreases rest
    {
      var id :| id in rest;
      assert id !in list;
      list := list + [id];
      rest := rest - {id};
    }
  }

  /** The c-th slice `ids[50c:50c+50]`. */
  function Slice<T>(ids: seq<T>, c: nat): seq<T>
    requires c * ArtistsPerRequest < |ids|
  {
    ids[c * ArtistsPerRequest..Min(c * ArtistsPerRequest + ArtistsPerRequest, |ids|)]
  }

  /** Slices of a list cut every 50 items: all full but the last, none empty. */
  lemma SliceSizes<T>(ids: seq<T>, n: nat)
    requires n == 0 || (n - 1) * ArtistsPerRequest < |ids|
    ensures forall c :: 0 <= c < n ==> 0 < |Slice(ids, c)| <= ArtistsPerRequest
    ensures forall c :: 0 <= c < n - 1 ==> |Slice(ids, c)| == ArtistsPerRequest
  {
  }

  lemma CeilingCount(size: nat, n: nat)
    requires size <= n * ArtistsPerRequest
    requires n == 0 || (n - 1) * ArtistsPerRequest < size
    ensures n == (size + ArtistsPerRequest - 1) / ArtistsPerRequest
  {
  }

  /** One more chunk continues the concatenation of the ids. */
  lemma ChunksStep<T>(ids: seq<T>, chunks: seq<seq<T>>, i: nat)
    requires i < |ids| && Concat(chunks) == ids[..i]
    ensures Concat(chunks + [ids[i..Min(i + ArtistsPerRequest, |ids|)]]) ==
            ids[..Min(i + ArtistsPerRequest, |ids|)]
  {
    var chunk := ids[i..Min(i + ArtistsPerRequest, |ids|)];
    ConcatAppend(chunks, [chunk]);
    assert [chunk][..0] == [];
    assert ids[..i] + chunk == ids[..Min(i + ArtistsPerRequest, |ids|)];
  }

  /** `for i in range(0, len(ids), 50): chunk = ids[i:i+50]`. */
  method Chunks<T>(ids: seq<T>) returns (chunks: seq<seq<T>>)
    ensures Concat(chunks) == ids
    ensures |chunks| == (|ids| + ArtistsPerRequest - 1) / ArtistsPerRequest
    ensures forall c :: 0 <= c < |chunks| ==> 0 < |chunks[c]| <= ArtistsPerRequest
    ensures forall c :: 0 <= c < |chunks| - 1 ==> |chunks[c]| == ArtistsPerRequest
    ensures forall c :: 0 <= c < |chunks| ==>
              c * ArtistsPerRequest < |ids| && chunks[c] == Slice(ids, c)
  {
    chunks := [];
    var i := 0;
    while i < |ids|
      invariant i == |chunks| * ArtistsPerRequest
      invariant |chunks| == 0 || (|chunks| - 1) * ArtistsPerRequest < |ids|
      invariant Concat(chunks) == ids[..Min(i, |ids|)]
      invariant forall c :: 0 <= c < |chunks| ==>
                  c * ArtistsPerRequest < |ids| && chunks[c] == Slice(ids, c)
      decreases |ids| - i
    {
      var chunk := ids[i..Min(i + ArtistsPerRequest, |ids|)];
      ChunksStep(ids, chunks, i);
      chunks := chunks + [chunk];
      i := i + ArtistsPerRequest;
    }
    assert ids[..|ids|] == ids;
    CeilingCount(|ids|, |chunks|);
    SliceSizes(ids, |chunks|);
  }

  /** An entry of `artists_info["artists"]`: `None` for a null entry. */
  datatype ArtistInfo = ArtistInfo(id: string, genres: seq<string>)

  /** What `sp.artists(chunk)` does: raise, or answer with a list of entries. */
  datatype ArtistsAnswer = Raised | Listed(artists: seq<Option<ArtistInfo>>)

  /** `artist_genres_map` after the entries, each non-null one setting its id. */
  function Record(genres: map<string, seq<string>>, entries: seq<Option<ArtistInfo>>): map<string, seq<string>>
    decreases |entries|
  {
    if |entries| == 0 then genres
    else
      var m := Record(genres, entries[..|entries| - 1]);
      match entries[|entries| - 1]
      case None => m
      case Some(a) => m[a.id := a.genres]
  }

  /** `artist_genres_map` after the answers to the chunks, a raised one leaving it as it was. */
  function GenreMap(answers: seq<ArtistsAnswer>): map<string, seq<string>>
    decreases |answers|
  {
    if |answers| == 0 then map[]
    else
      var m := GenreMap(answers[..|answers| - 1]);
      match answers[|answers| - 1]
      case Raised => m
      case Listed(entries) => Record(m, entries)
  }

  /** The loop of lines 84-93, `fetch` standing for `sp.artists`. */
  method FetchGenres(chunks: seq<seq<string>>, fetch: seq<string> -> ArtistsAnswer)
    returns (genres: map<string, seq<string>>)
    ensures genres == GenreMap(seq(|chunks|, c requires 0 <= c < |chunks| => fetch(chunks[c])))
  {
    ghost var answers := seq(|chunks|, c requires 0 <= c < |chunks| => fetch(chunks[c]));
    genres := map[];
    for c := 0 to |chunks|
      invariant genres == GenreMap(answers[..c])
    {
      assert answers[..c + 1][..c] == answers[..c];
      var answer := fetch(chunks[c]);
      if answer.Listed? {
        ghost var before := genres;
        for e := 0 to |answer.artists|
          invariant genres == Record(before, answer.artists[..e])
        {
          assert answer.artists[..e + 1][..e] == answer.artists[..e];
          var artist := answer.artists[e];
          if artist.Some? {
            genres := genres[artist.value.id := artist.value.genres];
          }
        }
        assert answer.artists[..|answer.artists|] == answer.artists;
      }
    }
    assert answers[..|chunks|] == answers;
  }

  /** The entries set exactly the ids they list, and keep the other keys. */
  lemma {:induction false} RecordKeys(genres: map<string, seq<string>>, entries: seq<Option<ArtistInfo>>,
                                      id: string)
    ensures id in Record(genres, entries) <==>
              id in genres || exists e :: 0 <= e < |entries| && entries[e].Some? && entries[e].value.id == id
    decreases |entries|
  {
    if |entries| > 0 {
      var front := entries[..|entries| - 1];
      RecordKeys(genres, front, id);
      if exists e :: 0 <= e < |entries| && entries[e].Some? && entries[e].value.id == id {
        var e :| 0 <= e < |entries| && entries[e].Some? && entries[e].value.id == id;
        if e < |front| {
          assert front[e] == entries[e];
        }
      }
      if exists e :: 0 <= e < |front| && front[e].Some? && front[e].value.id == id {
        var e :| 0 <= e < |front| && front[e].Some? && front[e].value.id == id;
        assert entries[e] == front[e];
      }
    }
  }

  /** An id has genres in the map exactly when some answer that did not raise
      lists an artist with that id. */
  lemma {:induction false} GenreMapKeys(answers: seq<ArtistsAnswer>, id: string)
    ensures id in GenreMap(answers) <==>
              exists c, e :: 0 <= c < |answers| && answers[c].Listed? &&
                             0 <= e < |answers[c].artists| && answers[c].artists[e].Some? &&
                             answers[c].artists[e].value.id == id
    decreases |answers|
  {
    if |answers| > 0 {
      var front := answers[..|answers| - 1];
      var last := answers[|answers| - 1];
      GenreMapKeys(front, id);
      if last.Listed? {
        RecordKeys(GenreMap(front), last.artists, id);
      }
      if exists c, e :: 0 <= c < |answers| && answers[c].Listed? &&
                        0 <= e < |answers[c].artists| && answers[c].artists[e].Some? &&
                        answers[c].artists[e].value.id == id {
        var c, e :| 0 <= c < |answers| && answers[c].Listed? &&
                    0 <= e < |answers[c].artists| && answers[c].artists[e].Some? &&
                    answers[c].artists[e].value.id == id;
        if c < |front| {
          assert front[c] == answers[c];
        }
      }
      if exists c, e :: 0 <= c < |front| && front[c].Listed? &&
                        0 <= e < |front[c].artists| && front[c].artists[e].Some? &&
                        front[c].artists[e].value.id == id {
        var c, e :| 0 <= c < |front| && front[c].Listed? &&
                    0 <= e < |front[c].artists| && front[c].artists[e].Some? &&
                    front[c].artists[e].value.id == id;
        assert answers[c] == front[c];
      }
    }
  }

  /** Entry `e` of the list is an artist with id `id`. */
  predicate Sets(entries: seq<Option<ArtistInfo>>, e: int, id: string)
  {
    0 <= e < |entries| && entries[e].Some? && entries[e].value.id == id
  }

  /** An id listed by the entries gets the genres of the last entry that lists it;
      an id they do not list keeps what it had. */
  lemma {:induction false} RecordValues(genres: map<string, seq<string>>, entries: seq<Option<ArtistInfo>>,
                                        id: string)
    ensures (exists e :: Sets(entries, e, id)) ==>
              exists e :: Sets(entries, e, id) && (forall f :: e < f < |entries| ==> !Sets(entries, f, id)) &&
                          id in Record(genres, entries) && Record(genres, entries)[id] == entries[e].value.genres
    ensures (forall e :: !Sets(entries, e, id)) ==>
              (id in Record(genres, entries) <==> id in genres) &&
              (id in genres ==> Record(genres, entries)[id] == genres[id])
    decreases |entries|
  {
    if |entries| > 0 {
      var n := |entries|;
      var front := entries[..n - 1];
      RecordValues(genres, front, id);
      var r, rf := Record(genres, entries), Record(genres, front);
      forall f | Sets(front, f, id)
        ensures Sets(entries, f, id)
      {
        assert front[f] == entries[f];
      }
      if Sets(entries, n - 1, id) {
        assert r[id] == entries[n - 1].value.genres;
      } else {
        assert id in r <==> id in rf;
        assert id in rf ==> r[id] == rf[id];
        if exists e :: Sets(entries, e, id) {
          var e0 :| Sets(entries, e0, id);
          assert Sets(front, e0, id) by {
            assert front[e0] == entries[e0];
          }
          var e :| Sets(front, e, id) && (forall f :: e < f < |front| ==> !Sets(front, f, id)) &&
                   id in rf && rf[id] == front[e].value.genres;
          forall f | e < f < n
            ensures !Sets(entries, f, id)
          {
            if f < n - 1 {
              assert front[f] == entries[f];
              assert !Sets(front, f, id);
            }
          }
          assert Sets(entries, e, id);
        } else {
          forall e
            ensures !Sets(front, e, id)
          {
          }
        }
      }
    }
  }

  /** Answer `c` did not raise and its entry `e` is an artist with id `id`. */
  predicate Gives(answers: seq<ArtistsAnswer>, c: int, e: int, id: string)
  {
    0 <= c < |answers| && answers[c].Listed? && Sets(answers[c].artists, e, id)
  }

  /** An id gets the genres of the last entry, over all answers in order, that
      lists it; an id no answer lists is not in the map. */
  lemma {:induction false} GenreMapValues(answers: seq<ArtistsAnswer>, id: string)
    ensures (exists c, e :: Gives(answers, c, e, id)) ==>
              exists c, e :: Gives(answers, c, e, id) &&
                             (forall c', e' :: Gives(answers, c', e', id) ==> c' < c || (c' == c && e' <= e)) &&
                             id in GenreMap(answers) && GenreMap(answers)[id] == answers[c].artists[e].value.genres
    ensures (forall c, e :: !Gives(answers, c, e, id)) ==> id !in GenreMap(answers)
    decreases |answers|
  {
    if |answers| > 0 {
      var n := |answers|;
      var front := answers[..n - 1];
      var last := answers[n - 1];
      GenreMapValues(front, id);
      var m := GenreMap(front);
      forall c, e | Gives(front, c, e, id)
        ensures Gives(answers, c, e, id)
      {
        assert front[c] == answers[c];
      }
      forall e | Gives(answers, n - 1, e, id)
        ensures last.Listed? && Sets(last.artists, e, id)
      {
      }
      if last.Listed? && exists e :: Sets(last.artists, e, id) {
        RecordValues(m, last.artists, id);
        var e :| Sets(last.artists, e, id) && (forall f :: e < f < |last.artists| ==> !Sets(last.artists, f, id)) &&
                 id in Record(m, last.artists) && Record(m, last.artists)[id] == last.artists[e].value.genres;
        assert GenreMap(answers) == Record(m, last.artists);
        assert Gives(answers, n - 1, e, id);
        forall c', e' | Gives(answers, c', e', id)
          ensures c' < n - 1 || (c' == n - 1 && e' <= e)
        {
          if c' == n - 1 {
            assert Sets(last.artists, e', id);
          }
        }
      } else {
        if last.Listed? {
          RecordValues(m, last.artists, id);
        }
        assert id in GenreMap(answers) <==> id in m;
        assert id in m ==> GenreMap(answers)[id] == m[id];
        forall c, e | Gives(answers, c, e, id)
          ensures c < n - 1 && Gives(front, c, e, id)
        {
          assert front[c] == answers[c];
        }
        if exists c, e :: Gives(answers, c, e, id) {
          var c0, e0 :| Gives(answers, c0, e0, id);
          assert Gives(front, c0, e0, id);
          var c, e :| Gives(front, c, e, id) &&
                      (forall c', e' :: Gives(front, c', e', id) ==> c' < c || (c' == c && e' <= e)) &&
                      id in m && m[id] == front[c].artists[e].value.genres;
          assert Gives(answers, c, e, id);
          assert answers[c] == front[c];
        }
      }
    }
  }

  // ---------------------------------------------------------------------------
  // Aggregate statistics.

  /** `artist_genres_map.get(aid, [])` */
  function GenresOf(genres: map<string, seq<string>>, id: string): seq<string>
  {
    if id in genres then genres[id] else []
  }

  /** The genres of a list of ids, id after id. */
  function IdGenres(ids: seq<string>, genres: map<string, seq<string>>): seq<string>
    decreases |ids|
  {
    if |ids| == 0 then [] else IdGenres(ids[..|ids| - 1], genres) + GenresOf(genres, ids[|ids| - 1])
  }

  /** `all_artists`: every track's list of artist names, track after track. */
  function AllArtists(rows: seq<TrackRow>): seq<string>
    decreases |rows|
  {
    if |rows| == 0 then [] else AllArtists(rows[..|rows| - 1]) + rows[|rows| - 1].artistNames
  }

  /** `all_genres`: the genres of every track's ids, track after track. */
  function AllGenres(rows: seq<TrackRow>, genres: map<string, seq<string>>): seq<string>
    decreases |rows|
  {
    if |rows| == 0 then []
    else AllGenres(rows[..|rows| - 1], genres) + IdGenres(rows[|rows| - 1].artistIds, genres)
  }

  /** The loop of lines 99-103. */
  method AggregateStats(rows: seq<TrackRow>, genres: map<string, seq<string>>)
    returns (allGenres: seq<string>, allArtists: seq<string>)
    ensures allArtists == AllArtists(rows)
    ensures allGenres == AllGenres(rows, genres)
  {
    allGenres, allArtists := [], [];
    for j := 0 to |rows|
      invariant allArtists == AllArtists(rows[..j])
      invariant allGenres == AllGenres(rows[..j], genres)
    {
      assert rows[..j + 1][..j] == rows[..j];
      var t := rows[j];
      allArtists := allArtists + t.artistNames;
      ghost var before := allGenres;
      for k := 0 to |t.artistIds|
        invariant allGenres == before + IdGenres(t.artistIds[..k], genres)
      {
        assert t.artistIds[..k + 1][..k] == t.artistIds[..k];
        var aid := t.artistIds[k];
        var g := if aid in genres then genres[aid] else [];
        AppendAssoc(before, IdGenres(t.artistIds[..k], genres), g);
        allGenres := allGenres + g;
      }
      assert t.artistIds[..|t.artistIds|] == t.artistIds;
      assert AllGenres(rows[..j + 1], genres) == AllGenres(rows[..j], genres) + IdGenres(t.artistIds, genres);
    }
    assert rows[..|rows|] == rows;
  }

  /** A name is in `all_artists` exactly when some track lists it. */
  lemma {:induction false} AllArtistsMembers(rows: seq<TrackRow>, name: string)
    ensures name in AllArtists(rows) <==>
              exists j :: 0 <= j < |rows| && name in rows[j].artistNames
    decreases |rows|
  {
    if |rows| > 0 {
      var front := rows[..|rows| - 1];
      AllArtistsMembers(front, name);
      if exists j :: 0 <= j < |rows| && name in rows[j].artistNames {
        var j :| 0 <= j < |rows| && name in rows[j].artistNames;
        if j < |front| {
          assert name in front[j].artistNames;
        }
      }
      if exists j :: 0 <= j < |front| && name in front[j].artistNames {
        var j :| 0 <= j < |front| && name in front[j].artistNames;
        assert name in rows[j].artistNames;
      }
    }
  }

  lemma {:induction false} IdGenresMembers(ids: seq<string>, genres: map<string, seq<string>>, g: string)
    ensures g in IdGenres(ids, genres) <==>
              exists k :: 0 <= k < |ids| && ids[k] in genres && g in genres[ids[k]]
    decreases |ids|
  {
    if |ids| > 0 {
      var front := ids[..|ids| - 1];
      IdGenresMembers(front, genres, g);
      if exists k :: 0 <= k < |ids| && ids[k] in genres && g in genres[ids[k]] {
        var k :| 0 <= k < |ids| && ids[k] in genres && g in genres[ids[k]];
        if k < |front| {
          assert front[k] == ids[k];
        }
      }
      if exists k :: 0 <= k < |front| && front[k] in genres && g in genres[front[k]] {
        var k :| 0 <= k < |front| && front[k] in genres && g in genres[front[k]];
        assert ids[k] == front[k];
      }
    }
  }

  /** A genre is in `all_genres` exactly when the map gives it to an id of some
      track; ids missing from the map contribute nothing. */
  lemma {:induction false} AllGenresMembers(rows: seq<TrackRow>, genres: map<string, seq<string>>,
                                            g: string)
    ensures g in AllGenres(rows, genres) <==>
              exists j, id :: 0 <= j < |rows| && id in rows[j].artistIds &&
                              id in genres && g in genres[id]
    decreases |rows|
  {
    if |rows| > 0 {
      var front := rows[..|rows| - 1];
      var last := rows[|rows| - 1];
      AllGenresMembers(front, genres, g);
      IdGenresMembers(last.artistIds, genres, g);
      if exists j, id :: 0 <= j < |rows| && id in rows[j].artistIds && id in genres && g in genres[id] {
        var j, id :| 0 <= j < |rows| && id in rows[j].artistIds && id in genres && g in genres[id];
        if j < |front| {
          assert id in front[j].artistIds;
        } else {
          var k :| 0 <= k < |last.artistIds| && last.artistIds[k] == id;
        }
      }
      if g in IdGenres(last.artistIds, genres) {
        var k :| 0 <= k < |last.artistIds| && last.artistIds[k] in genres && g in genres[last.artistIds[k]];
        assert last.artistIds[k] in rows[|rows| - 1].artistIds;
      }
      if exists j, id :: 0 <= j < |front| && id in front[j].artistIds && id in genres && g in genres[id] {
        var j, id :| 0 <= j < |front| && id in front[j].artistIds && id in genres && g in genres[id];
        assert id in rows[j].artistIds;
      }
    }
  }

  // ---------------------------------------------------------------------------
  // The data frame.

  /** A row of `df` once the `decade` column is added. */
  datatype FrameRow = FrameRow(track: TrackRow, decade: int)

  function FrameYear(r: FrameRow): int { r.track.year }

  /** `df["decade"] = (df["year"] // 10) * 10` */
  function WithDecades(rows: seq<TrackRow>): (frame: seq<FrameRow>)
    ensures |frame| == |rows|
    ensures forall i :: 0 <= i < |rows| ==>
              frame[i].track == rows[i] && frame[i].decade % 10 == 0 &&
              frame[i].decade <= rows[i].year < frame[i].decade + 10
  {
    seq(|rows|, i requires 0 <= i < |rows| => FrameRow(rows[i], Decade(rows[i].year)))
  }

  /** `df.sort_values("year")`: the rows non-decreasing by year, a permutation of
      the frame. pandas' default sort is not stable, so nothing is said of the
      order of rows with equal years. */
  function SortValuesByYear(frame: seq<FrameRow>): (sorted: seq<FrameRow>)
    ensures SortedBy(sorted, FrameYear)
    ensures multiset(sorted) == multiset(frame)
  {
    InsSortSorted(frame, FrameYear);
    InsSortPermutes(frame, FrameYear);
    InsSort(frame, FrameYear)
  }
}
