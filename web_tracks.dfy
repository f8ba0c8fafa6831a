/** The aggregation half of `analyzePlaylist` (web/script.js lines 67-91): the
    `forEach` that turns playlist items into track records, and the error when
    none is left. */
module WebTracks {
  import opened Common
  import opened Spotify

  datatype TrackRecord = TrackRecord(name: string, artist: string, album: string,
                                     year: int, decade: int)

  const NoValidTracks := "No valid tracks found with release dates."

  /** An item becomes a record when it has a track, the track an album, the album
      a non-empty release date, and `parseInt` of the date's first four characters
      is a number. */
  predicate Usable(item: Item, parseInt: YearParser)
  {
    ReleaseDate(item).Some? && parseInt(YearText(ReleaseDate(item).value)).Some?
  }

  /** The record the object literal of lines 78-84 builds from a usable item. */
  function RecordOf(item: Item, parseInt: YearParser): TrackRecord
    requires Usable(item, parseInt)
  {
    var track := item.track.value;
    var year := parseInt(YearText(ReleaseDate(item).value)).value;
    TrackRecord(track.name, Join(ArtistNames(track.artists), ", "), track.album.value.name,
                year, Decade(year))
  }

  /** The body of the `forEach` callback: the item's record, or nothing. */
  function ToRecord(item: Item, parseInt: YearParser): Option<TrackRecord>
  {
    match item.track
    case None => None
    case Some(track) =>
      if track.album.Some? && Present(track.album.value.releaseDate) then
        var releaseDate := track.album.value.releaseDate.value;
        match parseInt(Prefix(releaseDate, 4))
        case None => None
        case Some(year) =>
          Some(TrackRecord(track.name, Join(ArtistNames(track.artists), ", "),
                           track.album.value.name, year, Decade(year)))
      else None
  }

  /** `validTracks` after the `forEach` over `items`. */
  function ValidTracks(items: seq<Item>, parseInt: YearParser): seq<TrackRecord>
    decreases |items|
  {
    if |items| == 0 then []
    else
      var front := ValidTracks(items[..|items| - 1], parseInt);
      match ToRecord(items[|items| - 1], parseInt)
      case None => front
      case Some(r) => front + [r]
  }

  /** The callback keeps exactly the usable items, and builds their records as
      lines 78-84 say: a record is never made up for an item that lacks a part. */
  lemma ToRecordUsable(item: Item, parseInt: YearParser)
    ensures ToRecord(item, parseInt).Some? <==> Usable(item, parseInt)
    ensures Usable(item, parseInt) ==> ToRecord(item, parseInt) == Some(RecordOf(item, parseInt))
  {
  }

  /** Records keep the order of their items: aggregating a concatenation is
      concatenating the aggregates. */
  lemma {:induction false} ValidTracksAppend(a: seq<Item>, b: seq<Item>, parseInt: YearParser)
    ensures ValidTracks(a + b, parseInt) == ValidTracks(a, parseInt) + ValidTracks(b, parseInt)
    decreases |b|
  {
    if |b| == 0 {
      assert a + b == a;
    } else {
      var ab := a + b;
      assert ab[..|ab| - 1] == a + b[..|b| - 1];
      assert ab[|ab| - 1] == b[|b| - 1];
      ValidTracksAppend(a, b[..|b| - 1], parseInt);
    }
  }

  /** There are no more records than items. */
  lemma {:induction false} ValidTracksBound(items: seq<Item>, parseInt: YearParser)
    ensures |ValidTracks(items, parseInt)| <= |items|
    decreases |items|
  {
    if |items| > 0 {
      ValidTracksBound(items[..|items| - 1], parseInt);
    }
  }

  /** Every record is the record of a usable item, and every usable item's record
      is among them. */
  lemma {:induction false} ValidTracksMembers(items: seq<Item>, parseInt: YearParser)
    ensures forall r :: r in ValidTracks(items, parseInt) <==>
              exists i :: 0 <= i < |items| && Usable(items[i], parseInt) &&
                          r == RecordOf(items[i], parseInt)
    decreases |items|
  {
    if |items| > 0 {
      var front := items[..|items| - 1];
      var last := items[|items| - 1];
      ValidTracksMembers(front, parseInt);
      ToRecordUsable(last, parseInt);
      forall r
        ensures r in ValidTracks(items, parseInt) <==>
                exists i :: 0 <= i < |items| && Usable(items[i], parseInt) &&
                            r == RecordOf(items[i], parseInt)
      {
        if exists i :: 0 <= i < |items| && Usable(items[i], parseInt) &&
                       r == RecordOf(items[i], parseInt) {
          var i :| 0 <= i < |items| && Usable(items[i], parseInt) &&
                   r == RecordOf(items[i], parseInt);
          if i < |front| {
            assert front[i] == items[i];
          }
        }
        if r in ValidTracks(front, parseInt) {
          var i :| 0 <= i < |front| && Usable(front[i], parseInt) &&
                   r == RecordOf(front[i], parseInt);
          assert items[i] == front[i];
        }
      }
    }
  }

  /** No record exactly when no item is usable. */
  lemma {:induction false} ValidTracksEmpty(items: seq<Item>, parseInt: YearParser)
    ensures ValidTracks(items, parseInt) == [] <==>
              forall i :: 0 <= i < |items| ==> !Usable(items[i], parseInt)
  {
    ValidTracksMembers(items, parseInt);
    if ValidTracks(items, parseInt) != [] {
      assert ValidTracks(items, parseInt)[0] in ValidTracks(items, parseInt);
    }
    if exists i :: 0 <= i < |items| && Usable(items[i], parseInt) {
      var i :| 0 <= i < |items| && Usable(items[i], parseInt);
      assert RecordOf(items[i], parseInt) in ValidTracks(items, parseInt);
    }
  }

  /** A record's decade is its year rounded down to a multiple of ten. */
  predicate WellFormed(r: TrackRecord)
  {
    r.decade % 10 == 0 && r.decade <= r.year < r.decade + 10
  }

  /** Every record satisfies the decade property of line 83. */
  lemma {:induction false} ValidTracksWellFormed(items: seq<Item>, parseInt: YearParser)
    ensures forall j :: 0 <= j < |ValidTracks(items, parseInt)| ==>
              WellFormed(ValidTracks(items, parseInt)[j])
    decreases |items|
  {
    if |items| > 0 {
      ValidTracksWellFormed(items[..|items| - 1], parseInt);
    }
  }

  /** The `forEach` with `validTracks.push`, then the check of lines 89-91. */
  method CollectValidTracks(items: seq<Item>, parseInt: YearParser)
    returns (result: Result<seq<TrackRecord>, string>)
    ensures result.Err? <==> forall i :: 0 <= i < |items| ==> !Usable(items[i], parseInt)
    ensures result.Err? ==> result.error == NoValidTracks
    ensures result.Ok? ==> result.value == ValidTracks(items, parseInt)
  {
    var validTracks: seq<TrackRecord> := [];
    for i := 0 to |items|
      invariant validTracks == ValidTracks(items[..i], parseInt)
    {
      assert items[..i + 1][..i] == items[..i];
      var track := items[i].track;
      if track.None? {
        continue;
      }
      var t := track.value;
      if t.album.Some? && Present(t.album.value.releaseDate) {
        var releaseDate := t.album.value.releaseDate.value;
        var year := parseInt(Prefix(releaseDate, 4));
        if year.Some? {
          validTracks := validTracks + [TrackRecord(t.name, Join(ArtistNames(t.artists), ", "),
                                                    t.album.value.name, year.value,
                                                    (year.value / 10) * 10)];
        }
      }
    }
    assert items[..|items|] == items;
    ValidTracksEmpty(items, parseInt);
    if |validTracks| == 0 {
      return Err(NoValidTracks);
    }
    result := Ok(validTracks);
  }
}
