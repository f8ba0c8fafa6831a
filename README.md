# Playlist analyser — a Dafny model

The playlist analyser reads the tracks of a Spotify playlist. It counts them by
release year and decade, and lists them in a table and in top-15 charts of
genres and artists. The same data path exists twice:

- as a browser page (`playlist_analysis/web/script.js`);
- as a batch script (`playlist_analysis/main.py`).

This project models both copies, from the playlist's pages to the data that the
plots and the table display. It also proves the properties that the code
promises.

Modules:

- **Common**: shared values and operations.
  - `Option` and `Result`.
  - The decade of a year.
  - The first `n` characters of a string.
  - Joining names with a separator.
  - Concatenating lists.
  - How an integer is written in decimal.
- **Sorting**: stable insertion sort by an integer key.
  - `InsSort` is the reference order.
  - `SortInPlace` is the in-place array version. It stands for the browser's
    `Array.prototype.sort`, which is stable.
- **Spotify**: the parts of a playlist item that the two analysers read.
  - A JSON `null` or a missing field is `None`.
  - The year parser is a parameter: `parseInt` in the browser, `int()` in
    Python.
- **Browser analyser**:
  - **WebErrors**: the message of the error thrown for a non-ok response. It is
    modelled on a small model of JavaScript values: truthiness, `?.`, `||`, and
    the TypeError of member access on `null`.
  - **WebPagination**: the offset pagination loop.
  - **WebTracks**: the `forEach` that turns items into records, and the
    empty-result error.
  - **WebRender**: the year and decade series of the two histograms, and
    `renderTable`. `renderTable` sorts the records array in place and builds
    the table markup row by row.
  - **WebAnalyser**: `analyzePlaylist` end to end.
- **Batch script**:
  - **BatchPlaylist**: the playlist id taken from the URL, and the cursor
    pagination loop.
  - **BatchTracks**: the extraction loop and the artist-id set; the chunking
    of ids into requests of 50 and the genre map; the flattened lists of
    artists and genres; and the data frame's decade column and sort.
  - **BatchCounter**: `Counter(xs).most_common(n)`.
  - **BatchAnalyser**: the script from the URL to the two top-15 lists.

The network is not modelled. Its answers are parameters:

- The browser's responses are a sequence. The k-th request gets the k-th
  response.
- The script's pages are a first page plus the pages `sp.next` returns.
- `sp.artists` is a function from a chunk of ids to its answer.
- When a loop asks for a page beyond the ones given, the model stops with a
  dedicated outcome: `OutOfPages`, `NoMoreResponses` or `NoMorePages`. The
  real program would go on requesting instead.

What the code does, and the model with it:

- script.js gives a 401 response no distinct error. Every non-ok response
  takes the same message path (lines 37-45).
- The error message never falls back to a piece of the response body. When
  the body is not JSON, or its `error` fields are falsy, the message is the
  status text.
- Table cells are not escaped. The markup holds the track's name, artist and
  album as they are (script.js lines 172-176).
- There is no OAuth/PKCE flow and no token store in these files. The browser
  talks to a proxy, and main.py uses client credentials (lines 25-26).

Sort order, per analyser:

- **Browser** (`tracks.sort`): the order is stable, because JavaScript's
  `Array.prototype.sort` is stable. The model proves that records of equal
  year keep their input order.
- **Batch script** (`df.sort_values("year")`): pandas' default quicksort is
  not stable. Only "sorted and a permutation" is claimed.
- **`most_common`**: Python keeps a `Counter`'s keys in first-occurrence order
  and ranks them with stable sorting by count, largest first. The model
  therefore ranks equal counts in first-occurrence order.

## Model

| member | source | states |
|---|---|---|
| Common.Decade | playlist_analysis/web/script.js:83 | the decade is a multiple of ten and the year lies in [decade, decade + 10) |
| Common.DecadeUnique | playlist_analysis/main.py:107 | any multiple of ten with the year in its ten-year range is the decade, so `(year // 10) * 10` and `Math.floor(year / 10) * 10` agree |
| Common.Prefix | playlist_analysis/web/script.js:75 | the first four characters are a prefix of the date, as long as the date allows and no longer than four |
| Common.JoinAppend | playlist_analysis/web/script.js:80 | joining two non-empty name lists is joining each, with one separator between them |
| Common.JoinLength | playlist_analysis/main.py:58 | the joined text is every name plus one separator between each neighbouring pair |
| Common.Join | playlist_analysis/web/script.js:80 | `Array.join` and `str.join`: the parts with the separator between neighbours |
| Common.Concat | playlist_analysis/main.py:85-86 | the chunks put back together: the lists one after the other |
| Common.ConcatAppend | playlist_analysis/main.py:85-86 | concatenating a list of chunks distributes over appending one more chunk |
| Common.Decimal | playlist_analysis/web/script.js:172 | how a template literal writes an integer: a '-' for negative numbers, then the digits |
| Common.Natural | playlist_analysis/web/script.js:172 | the decimal text of a year is non-empty, all digits, with no leading zero |
| Common.DecimalRoundTrip | playlist_analysis/web/script.js:172 | reading back the year's decimal text gives the year, with a leading '-' for negative years |
| Common.ReadInt | playlist_analysis/web/script.js:172 | the integer a cell's decimal text stands for, with an optional leading '-' |
| Common.DecimalReadBack | playlist_analysis/web/script.js:172 | reading an integer's written text back as an integer gives the integer |
| Common.NaturalRoundTrip | playlist_analysis/web/script.js:176 | reading back the digits of a natural number gives the number |
| Sorting.Insert | playlist_analysis/web/script.js:152 | inserting an element lengthens the list by one |
| Sorting.InsSort | playlist_analysis/web/script.js:152 | sorting keeps the length |
| Sorting.InsertPermutes | playlist_analysis/web/script.js:152 | an insertion adds exactly the inserted element to the multiset |
| Sorting.InsSortPermutes | playlist_analysis/web/script.js:152 | the sorted list is a permutation of its input |
| Sorting.InsertSorted | playlist_analysis/web/script.js:152 | inserting into a sorted list keeps it sorted |
| Sorting.InsSortSorted | playlist_analysis/web/script.js:152 | the sorted list is non-decreasing by key |
| Sorting.InsertWithKey | playlist_analysis/web/script.js:152 | insertion puts the new element after every element with its key |
| Sorting.InsSortStable | playlist_analysis/web/script.js:152 | for every key, the elements with that key keep their input order |
| Sorting.InsertDistinct | playlist_analysis/main.py:142 | inserting a new element into a list without repeats gives a list without repeats |
| Sorting.InsSortDistinct | playlist_analysis/main.py:142 | sorting a list without repeats gives a list without repeats |
| Sorting.SortInPlace | playlist_analysis/web/script.js:152 | the array afterwards holds the stable sort of its old contents |
| Spotify.ReleaseDate | playlist_analysis/web/script.js:73-74 | a date is read exactly when the item has a track, the track an album, and the album a non-empty release date |
| WebErrors.Truthy | playlist_analysis/web/script.js:42 | JavaScript truthiness, used by `||`: undefined, null, false, 0 and "" are falsy |
| WebErrors.ToText | playlist_analysis/web/script.js:44 | `String(v)` for the values a message can be; an object is "[object Object]" |
| WebErrors.ErrorText | playlist_analysis/web/script.js:44 | `new Error(v).message`: "" for undefined, otherwise `String(v)` |
| WebErrors.Member | playlist_analysis/web/script.js:42 | `err.error` throws a TypeError exactly when `err` is null or undefined, and otherwise reads the field |
| WebErrors.OptionalMember | playlist_analysis/web/script.js:42 | `error?.message` never throws and reads the field, undefined on null or undefined |
| WebErrors.ErrorMessage | playlist_analysis/web/script.js:37-45 | a body that is not JSON, or whose top level is null, gives the status text; otherwise the first truthy of `error.message`, `error` and the status text |
| WebErrors.ApiErrorMessage | playlist_analysis/web/script.js:42 | a Web API error object gives its non-empty message |
| WebErrors.ProxyErrorMessage | playlist_analysis/web/script.js:42 | the proxy's `{"error": text}` object gives the text |
| WebPagination.FetchFrom | playlist_analysis/web/script.js:32-64 | one pass of the loop body from the k-th request: a failed response ends the run with its message, a page without `next` or a reached total ends it with the items, otherwise the next request goes out at the advanced offset |
| WebPagination.Paginate | playlist_analysis/web/script.js:28-65 | the loop started with no items, offset 0 and a null total |
| WebPagination.FetchPages | playlist_analysis/web/script.js:28-65 | the loop with its `break` produces exactly the run that the recursive definition `Paginate` describes: outcome and every offset sent |
| WebPagination.FetchFromDescribed | playlist_analysis/web/script.js:32-64 | from any request on, the recursive run meets the step-free description |
| WebPagination.PaginateDescribed | playlist_analysis/web/script.js:28-65 | each offset counts the items received before its request; all pages but the last asked for more; an error comes from the last response; fetched items are the pages' items in order, and the last page did not ask for more |
| WebPagination.TotalFromFirstPage | playlist_analysis/web/script.js:51-53 | when the first page's total is not null, it is the total after every later page |
| WebPagination.AbsentTotalSinglePage | playlist_analysis/web/script.js:32 | a first page without `total` ends the loop after one request |
| WebPagination.NoNextSinglePage | playlist_analysis/web/script.js:59-61 | a first page without `next` ends the loop after one request at offset 0, with that page's items |
| WebTracks.RecordOf | playlist_analysis/web/script.js:78-84 | the record of a usable item: name, artists joined with ", ", album, year and its decade |
| WebTracks.ToRecord | playlist_analysis/web/script.js:69-87 | the `forEach` callback: nothing for a missing track, album or release date or a NaN year, otherwise the record |
| WebTracks.ValidTracks | playlist_analysis/web/script.js:67-87 | `validTracks` after the `forEach`: the items' records in item order |
| WebTracks.ToRecordUsable | playlist_analysis/web/script.js:69-87 | the callback keeps an item exactly when it has a track, album and release date whose year parses, and builds that item's record |
| WebTracks.ValidTracksAppend | playlist_analysis/web/script.js:69-87 | records keep the order of their items: aggregating a concatenation concatenates the results |
| WebTracks.ValidTracksBound | playlist_analysis/web/script.js:69-87 | there are no more records than items |
| WebTracks.ValidTracksMembers | playlist_analysis/web/script.js:73-84 | a record is in the result exactly when it is the record of a usable item: name, artists joined with ", ", album, year, decade |
| WebTracks.ValidTracksEmpty | playlist_analysis/web/script.js:89-91 | the result is empty exactly when no item is usable |
| WebTracks.ValidTracksWellFormed | playlist_analysis/web/script.js:83 | every record's decade is a multiple of ten containing its year |
| WebTracks.CollectValidTracks | playlist_analysis/web/script.js:67-91 | the push loop fails with "No valid tracks found with release dates." exactly when no item is usable, and otherwise returns the records |
| WebRender.Years | playlist_analysis/web/script.js:97 | `tracks.map((t) => t.year)` |
| WebRender.Decades | playlist_analysis/web/script.js:98 | `tracks.map((t) => t.decade)` |
| WebRender.ChartSeriesAgree | playlist_analysis/web/script.js:97-98 | for the records the aggregation builds, both series have one entry per record, no more than there are items, and each decade is the multiple of ten containing the year beside it |
| WebRender.Cells | playlist_analysis/web/script.js:172-176 | the texts of a row's five cells: year, name, artist, album, decade followed by "s" |
| WebRender.DecadeCell | playlist_analysis/web/script.js:172-176 | read back as text, the last cell is a number followed by "s", and that number is the multiple of ten containing the number the first cell reads as |
| WebRender.RowsHtml | playlist_analysis/web/script.js:169-179 | the rows of the records, one after another in array order |
| WebRender.RowsHtmlAppend | playlist_analysis/web/script.js:169-179 | the rows of two lists of records are the rows of each, one after the other |
| WebRender.TableMarkup | playlist_analysis/web/script.js:155-186 | the `+=` loop builds the head, then one row per record in array order, then the foot |
| WebRender.RenderTable | playlist_analysis/web/script.js:151-187 | the array is sorted in place by year, and the markup lists the sorted records |
| WebRender.TableOrder | playlist_analysis/web/script.js:152 | the table's records are non-decreasing by year, a permutation of the input, with equal years in input order |
| WebAnalyser.AnalyzePlaylist | playlist_analysis/web/script.js:27-94 | a failed response throws its message; no usable item throws the fixed message; otherwise the chart series of the records and a sorted, permuted, stable table with its markup |
| BatchPlaylist.LastSegment | playlist_analysis/main.py:16 | the text after the last '/', or all of it when there is none |
| BatchPlaylist.BeforeQuery | playlist_analysis/main.py:16 | the text before the first '?', or all of it when there is none |
| BatchPlaylist.PlaylistId | playlist_analysis/main.py:16 | the id has no '/' and no '?'; it starts after the URL's last '/' and ends at a '?' or at the end |
| BatchPlaylist.Gathered | playlist_analysis/main.py:41-44 | the items of the first page and of every page `sp.next` returns while `next` is set; none when the pages given run out |
| BatchPlaylist.GatheredItems | playlist_analysis/main.py:41-44 | when page c is the first without `next`, the items are those of pages 0 to c, in order |
| BatchPlaylist.GatheredNone | playlist_analysis/main.py:42 | the pages given run out exactly when every page has a `next` |
| BatchPlaylist.FetchAllItems | playlist_analysis/main.py:41-44 | `sp.next` is called exactly while the last page has a `next`, and the items are the pages' items in order |
| BatchTracks.TruthyIds | playlist_analysis/main.py:61-63 | the artists' ids that are truthy, in the artists' order |
| BatchTracks.TruthyIdsMembers | playlist_analysis/main.py:61-63 | an id is listed exactly when it is non-empty and some artist of the track carries it |
| BatchTracks.TrackArtistIds | playlist_analysis/main.py:60-64 | the inner loop lists the truthy ids in order and adds exactly those to the set |
| BatchTracks.RowOf | playlist_analysis/main.py:69-77 | the dictionary appended for a track: year, song name, names joined with ", ", album, link or "", the names, the truthy ids |
| BatchTracks.RowFor | playlist_analysis/main.py:47-77 | at most one row: the row of an item with a track, album and release date whose year text parses, nothing otherwise |
| BatchTracks.Rows | playlist_analysis/main.py:46-77 | `tracks` after the loop when no year fails: the items' rows in item order |
| BatchTracks.IdsOf | playlist_analysis/main.py:64 | `unique_artist_ids` after the loop: the ids of every row |
| BatchTracks.RowsFromItems | playlist_analysis/main.py:46-77 | no more rows than items; a row is in `tracks` exactly when some item has a track, album and release date whose year text parses, and the row is that track's `RowOf` with the parsed year |
| BatchTracks.RowsAppend | playlist_analysis/main.py:69 | the rows of two lists of items are the rows of each, one after the other |
| BatchTracks.IdsOfMembers | playlist_analysis/main.py:64 | the id set is the union of every row's id list |
| BatchTracks.ExtractTracks | playlist_analysis/main.py:46-77 | the loop stops with an error exactly when some year text fails to parse, naming the first failing text; otherwise it returns the rows and their ids |
| BatchTracks.ListOfSet | playlist_analysis/main.py:82 | the list holds every id of the set exactly once |
| BatchTracks.Chunks | playlist_analysis/main.py:85-86 | the chunks concatenate back to the ids; there are ceil(n/50) of them; each holds 1 to 50 ids; all but the last hold 50; chunk c is `ids[50c:50c+50]` |
| BatchTracks.FetchGenres | playlist_analysis/main.py:85-93 | the map is built from the answers to the chunks, in order; an answer that raised leaves it unchanged |
| BatchTracks.Record | playlist_analysis/main.py:89-91 | the map after one answer's entries, each non-null entry setting its id to its genres |
| BatchTracks.GenreMap | playlist_analysis/main.py:84-93 | the map after the answers in order, an answer that raised leaving it unchanged |
| BatchTracks.RecordKeys | playlist_analysis/main.py:89-91 | the entries set exactly the ids of their non-null entries and keep the other keys |
| BatchTracks.GenreMapKeys | playlist_analysis/main.py:85-93 | an id is in the map exactly when an answer that did not raise lists an artist with that id |
| BatchTracks.RecordValues | playlist_analysis/main.py:89-91 | an id some entry lists gets the genres of the last entry that lists it; an id no entry lists keeps its presence and its genres |
| BatchTracks.GenreMapValues | playlist_analysis/main.py:85-93 | an id some answer lists gets the genres of the last listing, over the answers in order; an id no answer lists is not in the map |
| BatchTracks.IdGenres | playlist_analysis/main.py:101-103 | the genres the map gives a list of ids, id after id, none for a missing id |
| BatchTracks.AllArtists | playlist_analysis/main.py:100 | `all_artists`: the rows' name lists, row after row |
| BatchTracks.AllGenres | playlist_analysis/main.py:99-103 | `all_genres`: the genres of each row's ids, row after row |
| BatchTracks.AggregateStats | playlist_analysis/main.py:99-103 | the two lists are the tracks' artist names, and the genres of their ids, track after track |
| BatchTracks.AllArtistsMembers | playlist_analysis/main.py:100 | a name is in `all_artists` exactly when some track lists it |
| BatchTracks.IdGenresMembers | playlist_analysis/main.py:101-103 | a genre comes from a list of ids exactly when the map gives it to one of them |
| BatchTracks.AllGenresMembers | playlist_analysis/main.py:99-103 | a genre is in `all_genres` exactly when the map gives it to an id of some track; missing ids add nothing |
| BatchTracks.WithDecades | playlist_analysis/main.py:107 | one frame row per track, the track unchanged, its decade the multiple of ten containing its year |
| BatchTracks.SortValuesByYear | playlist_analysis/main.py:108 | the frame is non-decreasing by year and a permutation of its input |
| BatchCounter.FirstOccurrences | playlist_analysis/main.py:142 | the keys of `Counter(xs)`, in the order in which they first occur |
| BatchCounter.FirstOccurrencesMembers | playlist_analysis/main.py:142 | the counter's keys are the list's elements, each once |
| BatchCounter.FirstOccurrencesOrder | playlist_analysis/main.py:142 | the keys are in first-occurrence order: each key occurs before the first occurrence of any later key |
| BatchCounter.Tally | playlist_analysis/main.py:142 | `Counter(xs)`: one more for each occurrence |
| BatchCounter.TallyCounts | playlist_analysis/main.py:142 | the counter maps exactly the list's elements, each to its number of occurrences |
| BatchCounter.Ranked | playlist_analysis/main.py:142 | the keys sorted by count, largest first, by a stable sort of the keys in first-occurrence order |
| BatchCounter.MostCommon | playlist_analysis/main.py:142 | the result has n entries, or fewer when there are fewer distinct keys |
| BatchCounter.MostCommonCounts | playlist_analysis/main.py:142 | every pair is a distinct element of the list with its true count, and counts do not increase |
| BatchCounter.MostCommonOmitted | playlist_analysis/main.py:142 | an element left out occurs no more often than any element listed |
| BatchCounter.MostCommonEmpty | playlist_analysis/main.py:143 | the result is empty exactly when the list is empty or n is 0 |
| BatchCounter.MostCommonTies | playlist_analysis/main.py:152 | keys of equal count are ranked in first-occurrence order, and the result is the ranking's first entries |
| BatchAnalyser.RunBatchAnalysis | playlist_analysis/main.py:31-152 | each stop happens exactly when its cause does: the playlist cannot be fetched; the pages run out; some year text fails, the stop naming the first failing text; no track is left. The report comes exactly when none of these happens, and it holds the playlist id, chunks holding every artist id once, the decade frame sorted by year, and the two top-15 lists |

## Left out

- The proxy `playlist_analysis/web/api/playlist.js` is not part of this model.
  It is a token request and response forwarding.
- Network and asynchrony (`fetch`, `await`, `spotipy`) are not modelled. The
  responses, pages and `sp.artists` answers are parameters.
- The browser loop would go on requesting when the server keeps asking for
  more. The model's finite response sequence ends such runs with
  `OutOfPages` / `NoMoreResponses` / `NoMorePages` instead.
- The script's `sp.next` call raising an exception is not modelled. Only
  `sp.playlist_items` raising (`sys.exit(1)`, main.py lines 31-35) is.
- The `try`/`except` around `sp.artists` (main.py lines 87-93) is modelled as
  an answer that raised, leaving the genre map unchanged. The printed message
  is left out. An exception raised inside lines 89-91 (a `KeyError` on an entry
  without `id` or `genres`) would leave the map partly updated. `ArtistInfo`
  always has both fields, so the model cannot express that case.
- DOM updates are left out: the loading text (script.js lines 55-57), `alert`,
  `innerHTML`, and `startAnalysis`/`init` (lines 6-25).
- Plotly, seaborn and matplotlib are left out. Only the data handed to them is
  modelled.
- The CSV written at main.py lines 110-113 is left out.
- The environment check and `sys.exit` at main.py lines 19-23 are left out.
  The script's credential set-up is left out too.
- `parseInt` and `int()` are kept abstract, as a partial parser of the
  four-character prefix. JavaScript numbers are modelled as integers, so NaN
  stands as a parse failure and no floating point is involved.
- JSON arrays are not a case of the JavaScript value model. An array stringifies
  differently from an object: `{"error": []}` gives the message "", and
  `{"error": [1,2]}` gives "1,2", while an object gives "[object Object]".
  Bodies whose `error` member is an array are therefore not represented.
- ToText: an object is always "[object Object]". A parsed object with its own
  `toString` field that is not callable, as in `{"error":{"toString":"x"}}`,
  makes `String` throw a TypeError at script.js line 44. The model does not
  represent that case.
- RowOf: the link is the `spotify` entry of `external_urls`, or "" when there
  is none (main.py line 67). A track without `external_urls` raises a
  `KeyError` there, and `"spotify": null` gives `None`, not "". One `Option`
  field cannot tell these apart, so the model gives "" in both cases.
- The template literals' indentation and line breaks are not in the markup.
  `TableHead`, the rows and `TableFoot` hold only the tags and cell texts.
- SortValuesByYear: states sorted and a permutation, but not the order of rows
  with equal years. pandas' default sort is not stable. Its body computes one
  admissible order, the stable one; neither its contract nor
  `RunBatchAnalysis`'s report fixes it.
- ListOfSet: states that the list holds each id once, but not its order.
  Python does not fix the iteration order of a set.
