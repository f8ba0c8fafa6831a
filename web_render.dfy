/** What script.js draws from the records: the year and decade series handed to
    the two histograms (`renderCharts`, lines 97-98) and the table of `renderTable`
    (lines 151-187), which sorts the array of records in place by year and writes
    one row per record. Plotly and the DOM are left out; the table is the markup
    string assigned to `innerHTML`, without the template's indentation. */
module WebRender {
  import opened Common
  import opened Sorting
  import opened Spotify
  import opened WebTracks

  function Year(t: TrackRecord): int { t.year }

  /** `tracks.map((t) => t.year)` */
  function Years(tracks: seq<TrackRecord>): seq<int>
  {
    seq(|tracks|, i requires 0 <= i < |tracks| => tracks[i].year)
  }

  /** `tracks.map((t) => t.decade)` */
  function Decades(tracks: seq<TrackRecord>): seq<int>
  {
    seq(|tracks|, i requires 0 <= i < |tracks| => tracks[i].decade)
  }

  /** The two histogram series have one entry per record of the aggregation,
      and each decade is the multiple of ten that contains the year beside it. */
  lemma ChartSeriesAgree(items: seq<Item>, parseInt: YearParser)
    ensures var tracks := ValidTracks(items, parseInt);
            && |Years(tracks)| == |Decades(tracks)| == |tracks| <= |items|
            && forall j :: 0 <= j < |tracks| ==>
                 Decades(tracks)[j] % 10 == 0 &&
                 Decades(tracks)[j] <= Years(tracks)[j] < Decades(tracks)[j] + 10
  {
    ValidTracksBound(items, parseInt);
    ValidTracksWellFormed(items, parseInt);
  }

  /** The texts of a row's cells: Year, Song Name, Author, Album, Decade. */
  function Cells(t: TrackRecord): seq<string>
  {
    [Decimal(t.year), t.name, t.artist, t.album, Decimal(t.decade) + "s"]
  }

  /** The cells, each between `<td>` and `</td>`. */
  function CellsHtml(cells: seq<string>): string
    decreases |cells|
  {
    if |cells| == 0 then ""
    else CellsHtml(cells[..|cells| - 1]) + "<td>" + cells[|cells| - 1] + "</td>"
  }

  function RowHtml(t: TrackRecord): string
  {
    "<tr>" + CellsHtml(Cells(t)) + "</tr>"
  }

  /** The records' rows, one after another, in the records' order. */
  function RowsHtml(tracks: seq<TrackRecord>): string
    decreases |tracks|
  {
    if |tracks| == 0 then "" else RowsHtml(tracks[..|tracks| - 1]) + RowHtml(tracks[|tracks| - 1])
  }

  const TableHead := "<table><thead><tr><th>Year</th><th>Song Name</th><th>Author</th>"
                     + "<th>Album</th><th>Decade</th></tr></thead><tbody>"

  const TableFoot := "</tbody></table>"

  /** Read back as text, a row's last cell is a number followed by "s", and that
      number is the multiple of ten containing the number the first cell reads as. */
  lemma DecadeCell(t: TrackRecord)
    requires WellFormed(t)
    ensures var cell := Cells(t)[4];
            && |cell| > 1 && cell[|cell| - 1] == 's'
            && var decade := ReadInt(cell[..|cell| - 1]);
               decade % 10 == 0 && decade <= ReadInt(Cells(t)[0]) < decade + 10
  {
    DecimalReadBack(t.year);
    DecimalReadBack(t.decade);
    var cell := Decimal(t.decade) + "s";
    assert cell[..|cell| - 1] == Decimal(t.decade);
  }

  /** The rows of two lists of records are the rows of each, one after the other:
      one row per record, in the records' order. */
  lemma {:induction false} RowsHtmlAppend(a: seq<TrackRecord>, b: seq<TrackRecord>)
    ensures RowsHtml(a + b) == RowsHtml(a) + RowsHtml(b)
    decreases |b|
  {
    if |b| == 0 {
      assert a + b == a;
    } else {
      var front := b[..|b| - 1];
      RowsHtmlAppend(a, front);
      assert (a + b)[..|a + b| - 1] == a + front;
      assert (a + b)[|a + b| - 1] == b[|b| - 1];
      AppendAssoc(RowsHtml(a), RowsHtml(front), RowHtml(b[|b| - 1]));
    }
  }

  /** The markup with one more record is the old markup followed by that
      record's row, after the head. */
  lemma MarkupStep(head: string, html: string, tracks: seq<TrackRecord>, i: nat, row: string)
    requires i < |tracks| && row == RowHtml(tracks[i])
    requires html == head + RowsHtml(tracks[..i])
    ensures html + row == head + RowsHtml(tracks[..i + 1])
  {
    assert RowsHtml(tracks[..i + 1]) == RowsHtml(tracks[..i]) + row by {
      assert tracks[..i + 1][..i] == tracks[..i];
    }
    AppendAssoc(head, RowsHtml(tracks[..i]), row);
  }

  method TableMarkup(tracks: seq<TrackRecord>) returns (html: string)
    ensures html == TableHead + RowsHtml(tracks) + TableFoot
  {
    html := TableHead;
    assert html == TableHead + RowsHtml(tracks[..0]) by {
      assert TableHead + [] == TableHead;
    }
    for i := 0 to |tracks|
      invariant html == TableHead + RowsHtml(tracks[..i])
    {
      var row := RowHtml(tracks[i]);
      MarkupStep(TableHead, html, tracks, i, row);
      html := html + row;
    }
    assert html == TableHead + RowsHtml(tracks) by {
      assert tracks == tracks[..|tracks|];
    }
    html := html + TableFoot;
  }

  /** `renderTable`: sort the records in place by year, then append one row per
      record to the markup. */
  method RenderTable(tracks: array<TrackRecord>) returns (html: string)
    modifies tracks
    ensures tracks[..] == InsSort(old(tracks[..]), Year)
    ensures html == TableHead + RowsHtml(tracks[..]) + TableFoot
  {
    SortInPlace(tracks, Year);
    html := TableMarkup(tracks[..]);
  }

  /** The table lists the records non-decreasing by year, as a permutation of its
      input, and records of equal year in their input order. */
  lemma TableOrder(tracks: seq<TrackRecord>)
    ensures SortedBy(InsSort(tracks, Year), Year)
    ensures multiset(InsSort(tracks, Year)) == multiset(tracks)
    ensures forall y :: WithKey(InsSort(tracks, Year), Year, y) == WithKey(tracks, Year, y)
  {
    InsSortSorted(tracks, Year);
    InsSortPermutes(tracks, Year);
    forall y
      ensures WithKey(InsSort(tracks, Year), Year, y) == WithKey(tracks, Year, y)
    {
      InsSortStable(tracks, Year, y);
    }
  }
}
