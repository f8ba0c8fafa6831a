/** The parts of a playlist item of the Spotify Web API's JSON that the two
    analysers read. A JSON `null` or a missing field is `None`. */
module Spotify {
  import opened Common

  datatype Artist = Artist(name: string, id: Option<string>)

  datatype Album = Album(name: string, releaseDate: Option<string>)

  datatype Track = Track(name: string, artists: seq<Artist>, album: Option<Album>,
                         spotifyLink: Option<string>)

  /** `track` is `null` for a removed or local track. */
  datatype Item = Item(track: Option<Track>)

  /** A parser of the year text: `parseInt` in the browser, `int()` in Python.
      `None` stands for `NaN` and for a `ValueError` respectively. */
  type YearParser = string -> Option<int>

  /** A JSON string is truthy, in JavaScript and in Python alike, when it is
      present and not empty. */
  predicate Present(s: Option<string>)
  {
    s.Some? && s.value != ""
  }

  /** The release date of an item that has a track, whose track has an album, and
      whose album has a non-empty `release_date`: the tests both analysers make
      before they read a year. */
  function ReleaseDate(item: Item): (date: Option<string>)
    ensures date.Some? <==>
              item.track.Some? && item.track.value.album.Some? &&
              Present(item.track.value.album.value.releaseDate)
    ensures date.Some? ==> date == item.track.value.album.value.releaseDate
  {
    match item.track
    case None => None
    case Some(t) =>
      match t.album
      case None => None
      case Some(a) => if Present(a.releaseDate) then a.releaseDate else None
  }

  /** The text a year is read from: the first four characters of the release date. */
  function YearText(date: string): string
  {
    Prefix(date, 4)
  }

  /** The artists' names in the order the track lists them
      (`track.artists.map((a) => a.name)`, `[artist["name"] for artist in ...]`). */
  function ArtistNames(artists: seq<Artist>): seq<string>
  {
    seq(|artists|, i requires 0 <= i < |artists| => artists[i].name)
  }
}
