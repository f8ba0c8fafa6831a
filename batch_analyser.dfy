/** The batch script main.py from the playlist URL to the data behind its plots:
    the playlist id (line 16), the first page (lines 31-35), the cursor
    pagination (41-44), the extraction (46-77), the genre requests (80-93), the
    aggregation (96-103), the data frame (106-108) and the two top-15 lists
    (142, 152). The Spotify client is given as the first page (`None` when
    `sp.playlist_items` raised), the pages `sp.next` returns, and a function
    standing for `sp.artists`. */
module BatchAnalyser {
  import opened Common
  import opened Sorting
  import opened Spotify
  import opened BatchPlaylist
  import opened BatchTracks
  import opened BatchCounter

  /** Why the script stops before plotting. */
  datatype Halt =
    | PlaylistUnavailable       // `sp.playlist_items` raised: `sys.exit(1)` at line 35
    | NoMorePages               // a page has a `next` beyond the pages given
    | InvalidYearText(text: string) // `int(release_date[:4])` raised
    | NoYearColumn              // no track: the empty frame has no "year" column (line 107)

  /** What the script computes before plotting. */
  datatype Report = Report(playlistId: string, chunks: seq<seq<string>>, frame: seq<FrameRow>,
                           topGenres: seq<(string, nat)>, topArtists: seq<(string, nat)>)

  /** `most_common(15)` */
  const TopCount := 15

  /** The answers of `sp.artists` to the chunks, in order. */
  function Answers(chunks: seq<seq<string>>, fetch: seq<string> -> ArtistsAnswer): (answers: seq<ArtistsAnswer>)
    ensures |answers| == |chunks|
    ensures forall c :: 0 <= c < |chunks| ==> answers[c] == fetch(chunks[c])
  {
    seq(|chunks|, c requires 0 <= c < |chunks| => fetch(chunks[c]))
  }

  /** The report made from the track rows: the chunks hold every artist id once,
      in requests of at most 50, all full but the last; the frame is the rows with
      their decades, sorted by year, rows of equal years in any order; the top
      lists count the genres the answers give and the artist names of the rows. */
  ghost predicate Reports(url: string, rows: seq<TrackRow>, fetch: seq<string> -> ArtistsAnswer,
                          report: Report)
  {
    var ids := Concat(report.chunks);
    && report.playlistId == PlaylistId(url)
    && Distinct(ids)
    && (forall id :: id in ids <==> id in IdsOf(rows))
    && (forall c :: 0 <= c < |report.chunks| ==> 0 < |report.chunks[c]| <= ArtistsPerRequest)
    && (forall c :: 0 <= c < |report.chunks| - 1 ==> |report.chunks[c]| == ArtistsPerRequest)
    && SortedBy(report.frame, FrameYear)
    && multiset(report.frame) == multiset(WithDecades(rows))
    && report.topGenres == MostCommon(AllGenres(rows, GenreMap(Answers(report.chunks, fetch))), TopCount)
    && report.topArtists == MostCommon(AllArtists(rows), TopCount)
  }

  method RunBatchAnalysis(url: string, first: Option<CursorPage>, more: seq<CursorPage>,
                          parse: YearParser, fetch: seq<string> -> ArtistsAnswer)
    returns (result: Result<Report, Halt>)
    ensures result == Err(PlaylistUnavailable) <==> first.None?
    ensures result == Err(NoMorePages) <==> first.Some? && Gathered(first.value, more).None?
    ensures first.Some? && Gathered(first.value, more).Some? ==>
              var items := Gathered(first.value, more).value;
              // the script stops at the first item whose year text `int` rejects
              && ((exists i :: 0 <= i < |items| && YearFails(items[i], parse)) <==>
                    result.Err? && result.error.InvalidYearText?)
              && (result.Err? && result.error.InvalidYearText? ==>
                    exists i :: 0 <= i < |items| && YearFails(items[i], parse) &&
                                (forall j :: 0 <= j < i ==> !YearFails(items[j], parse)) &&
                                result.error.text == YearText(ReleaseDate(items[i]).value))
              // no track at all: the frame has no "year" column
              && (result == Err(NoYearColumn) <==>
                    (forall i :: 0 <= i < |items| ==> !YearFails(items[i], parse)) &&
                    Rows(items, parse) == [])
              // otherwise the report
              && (result.Ok? <==>
                    (forall i :: 0 <= i < |items| ==> !YearFails(items[i], parse)) &&
                    Rows(items, parse) != [])
              && (result.Ok? ==> Reports(url, Rows(items, parse), fetch, result.value))
  {
    var playlistId := PlaylistId(url);
    if first.None? {
      return Err(PlaylistUnavailable);
    }
    var items, calls := FetchAllItems(first.value, more);
    if items.None? {
      return Err(NoMorePages);
    }
    var extracted := ExtractTracks(items.value, parse);
    if extracted.Err? {
      return Err(InvalidYearText(extracted.error.text));
    }
    var rows := extracted.value.0;
    var ids := extracted.value.1;
    var idList := ListOfSet(ids);
    var chunks := Chunks(idList);
    var genres := FetchGenres(chunks, fetch);
    assert Answers(chunks, fetch) == seq(|chunks|, c requires 0 <= c < |chunks| => fetch(chunks[c]));
    var allGenres, allArtists := AggregateStats(rows, genres);
    if |rows| == 0 {
      return Err(NoYearColumn);
    }
    var frame := SortValuesByYear(WithDecades(rows));
    result := Ok(Report(playlistId, chunks, frame, MostCommon(allGenres, TopCount),
                        MostCommon(allArtists, TopCount)));
  }
}
