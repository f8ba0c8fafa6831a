/** `analyzePlaylist` of web/script.js as a whole (lines 27-94, with
    `renderCharts` and `renderTable`): fetch every page, aggregate the items,
    fail when no record is left, then compute the chart series and the table. */
module WebAnalyser {
  import opened Common
  import opened Sorting
  import opened WebPagination
  import opened WebTracks
  import opened WebRender

  /** How a run ends without results: an exception with its message (a failed
      response, or no valid tracks), or a run that asked for more pages than the
      model's sequence of responses holds. */
  datatype Halt = Thrown(message: string) | NoMoreResponses

  /** What the page shows: the histogram series and the table markup, with the
      records in the order the in-place sort left them. */
  datatype Analysis = Analysis(years: seq<int>, decades: seq<int>,
                               table: seq<TrackRecord>, html: string)

  method AnalyzePlaylist(responses: seq<Response>, parseInt: Spotify.YearParser)
    returns (result: Result<Analysis, Halt>, offsets: seq<nat>)
    ensures offsets == Paginate(responses).offsets
    ensures Paginate(responses).outcome.OutOfPages? ==> result == Err(NoMoreResponses)
    ensures Paginate(responses).outcome.Failed? ==>
              result == Err(Thrown(Paginate(responses).outcome.message))
    ensures Paginate(responses).outcome.Fetched? ==>
              var items := Paginate(responses).outcome.items;
              var valid := ValidTracks(items, parseInt);
              if valid == [] then result == Err(Thrown(NoValidTracks))
              else
                && result.Ok?
                && result.value.years == Years(valid)
                && result.value.decades == Decades(valid)
                && SortedBy(result.value.table, Year)
                && multiset(result.value.table) == multiset(valid)
                && (forall y :: WithKey(result.value.table, Year, y) == WithKey(valid, Year, y))
                && result.value.html == TableHead + RowsHtml(result.value.table) + TableFoot
  {
    var outcome;
    outcome, offsets := FetchPages(responses);
    match outcome
    case OutOfPages =>
      return Err(NoMoreResponses), offsets;
    case Failed(message) =>
      return Err(Thrown(message)), offsets;
    case Fetched(items) =>
      var collected := CollectValidTracks(items, parseInt);
      ValidTracksEmpty(items, parseInt);
      if collected.Err? {
        return Err(Thrown(collected.error)), offsets;
      }
      var validTracks := collected.value;
      // renderCharts
      var years := Years(validTracks);
      var decades := Decades(validTracks);
      // renderTable, on the same array
      var tracks := new TrackRecord[|validTracks|](i requires 0 <= i < |validTracks| => validTracks[i]);
      assert tracks[..] == validTracks;
      var html := RenderTable(tracks);
      TableOrder(validTracks);
      result := Ok(Analysis(years, decades, tracks[..], html));
  }
}
