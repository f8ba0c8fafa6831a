/** main.py: the playlist id taken from the playlist URL (line 16) and the cursor
    pagination that gathers every item (lines 41-44). `sp.playlist_items` gives
    the first response and each `sp.next` the next one; the model takes them as
    a first page and the sequence of pages that follow it. */
module BatchPlaylist {
  import opened Common
  import opened Spotify

  /** The text after the last '/', the whole text when there is none
      (`s.split("/")[-1]`). */
  function LastSegment(s: string): (r: string)
    ensures '/' !in r
    ensures |r| <= |s| && r == s[|s| - |r|..]
    ensures |r| == |s| || s[|s| - |r| - 1] == '/'
    decreases |s|
  {
    if |s| == 0 then ""
    else if s[|s| - 1] == '/' then ""
    else LastSegment(s[..|s| - 1]) + [s[|s| - 1]]
  }

  /** The text before the first '?', the whole text when there is none
      (`s.split("?")[0]`). */
  function BeforeQuery(s: string): (r: string)
    ensures '?' !in r
    ensures |r| <= |s| && r == s[..|r|]
    ensures |r| == |s| || s[|r|] == '?'
    decreases |s|
  {
    if |s| == 0 then ""
    else if s[0] == '?' then ""
    else [s[0]] + BeforeQuery(s[1..])
  }

  /** `playlist_url.split("/")[-1].split("?")[0]`: the id is the text that starts
      after the last '/' of the URL and ends at the first '?' after it, or at the
      end. */
  function PlaylistId(url: string): (id: string)
    ensures '/' !in id && '?' !in id
    ensures exists k :: 0 <= k <= |url| - |id| && url[k..k + |id|] == id &&
                        (k == 0 || url[k - 1] == '/') && '/' !in url[k..] &&
                        (k + |id| == |url| || url[k + |id|] == '?')
  {
    var segment := LastSegment(url);
    var id := BeforeQuery(segment);
    var k := |url| - |segment|;
    assert url[k..] == segment;
    assert url[k..k + |id|] == segment[..|id|];
    id
  }

  /** `results` of `sp.playlist_items` and `sp.next`: its items and whether
      `results['next']` is set. */
  datatype CursorPage = CursorPage(items: seq<Item>, hasNext: bool)

  /** The items of the pages, page after page. */
  function ItemsOf(ps: seq<CursorPage>): seq<Item>
    decreases |ps|
  {
    if |ps| == 0 then [] else ItemsOf(ps[..|ps| - 1]) + ps[|ps| - 1].items
  }

  /** The items gathered from `first` on when `more` answers the `sp.next` calls:
      `None` when a page asks for a next one and none is left. */
  function Gathered(first: CursorPage, more: seq<CursorPage>): Option<seq<Item>>
    decreases |more|
  {
    if !first.hasNext then Some(first.items)
    else if |more| == 0 then None
    else
      match Gathered(more[0], more[1..])
      case None => None
      case Some(rest) => Some(first.items + rest)
  }

  /** `Gathered` with `prefix` put before its items. */
  function After(prefix: seq<Item>, gathered: Option<seq<Item>>): Option<seq<Item>>
  {
    if gathered.Some? then Some(prefix + gathered.value) else None
  }

  /** When page `c` is the first without a `next`, the items gathered are those
      of pages 0 to `c`, in order. */
  lemma {:induction false} GatheredItems(first: CursorPage, more: seq<CursorPage>, c: nat)
    requires c <= |more|
    requires forall k :: 0 <= k < c ==> ([first] + more)[k].hasNext
    requires !([first] + more)[c].hasNext
    ensures Gathered(first, more) == Some(ItemsOf(([first] + more)[..c + 1]))
    decreases c
  {
    var pages := [first] + more;
    assert pages[0] == first;
    if c == 0 {
      assert pages[..1] == [first];
      assert [first][..0] == [];
      assert [] + first.items == first.items;
    } else {
      var tail := [more[0]] + more[1..];
      assert more == tail;
      forall k | 0 <= k < c - 1
        ensures tail[k].hasNext
      {
        assert tail[k] == pages[k + 1];
      }
      assert tail[c - 1] == pages[c];
      GatheredItems(more[0], more[1..], c - 1);
      assert Gathered(more[0], more[1..]) == Some(ItemsOf(tail[..c]));
      ItemsOfCons(first, tail[..c]);
      assert pages[..c + 1] == [first] + tail[..c];
    }
  }

  lemma {:induction false} ItemsOfCons(p: CursorPage, ps: seq<CursorPage>)
    ensures ItemsOf([p] + ps) == p.items + ItemsOf(ps)
    decreases |ps|
  {
    if |ps| == 0 {
      assert [p] + ps == [p];
      assert [p][..0] == [];
      assert p.items + [] == p.items;
    } else {
      var front, last := ps[..|ps| - 1], ps[|ps| - 1];
      ItemsOfCons(p, front);
      assert ItemsOf([p] + ps) == ItemsOf([p] + front) + last.items by {
        assert ([p] + ps)[..|ps|] == [p] + front && ([p] + ps)[|ps|] == last;
      }
      AppendAssoc(p.items, ItemsOf(front), last.items);
    }
  }

  /** No items exactly when every page asks for a next one. */
  lemma {:induction false} GatheredNone(first: CursorPage, more: seq<CursorPage>)
    ensures Gathered(first, more).None? <==> forall k :: 0 <= k <= |more| ==> ([first] + more)[k].hasNext
    decreases |more|
  {
    var pages := [first] + more;
    assert pages[0] == first;
    if first.hasNext && |more| > 0 {
      GatheredNone(more[0], more[1..]);
      var tail := [more[0]] + more[1..];
      assert more == tail;
      if forall k :: 0 <= k <= |more| ==> pages[k].hasNext {
        forall k | 0 <= k < |tail|
          ensures tail[k].hasNext
        {
          assert pages[k + 1] == tail[k];
        }
      }
      if forall k :: 0 <= k < |tail| ==> tail[k].hasNext {
        forall k | 0 <= k <= |more|
          ensures pages[k].hasNext
        {
          if k > 0 {
            assert pages[k] == tail[k - 1];
          }
        }
      }
    }
  }

  /** Taking one more page moves its items into the prefix. */
  lemma AfterStep(prev: seq<Item>, page: CursorPage, rest: seq<CursorPage>)
    requires page.hasNext && |rest| > 0
    ensures After(prev, Gathered(page, rest)) == After(prev + page.items, Gathered(rest[0], rest[1..]))
  {
    var g := Gathered(rest[0], rest[1..]);
    if g.Some? {
      AppendAssoc(prev, page.items, g.value);
    }
  }

  /** The loop of lines 41-44. `calls` counts the `sp.next` calls made; `items` is
      `None` when the loop would call `sp.next` once more than `more` can answer. */
  method FetchAllItems(first: CursorPage, more: seq<CursorPage>)
    returns (items: Option<seq<Item>>, calls: nat)
    // fetching goes on exactly while the last response has a `next`
    ensures calls <= |more|
    ensures forall k :: 0 <= k < calls ==> ([first] + more)[k].hasNext
    ensures items.Some? <==> !([first] + more)[calls].hasNext
    // the items are what `Gathered` describes from the first page on
    ensures items == Gathered(first, more)
  {
    ghost var pages := [first] + more;
    var results := first;
    var all := results.items;
    calls := 0;
    ghost var prev: seq<Item> := [];
    assert more[0..] == more;
    assert Gathered(first, more) == After(prev, Gathered(first, more)) by {
      if Gathered(first, more).Some? {
        assert [] + Gathered(first, more).value == Gathered(first, more).value;
      }
    }
    while results.hasNext
      invariant calls <= |more|
      invariant results == pages[calls]
      invariant forall k :: 0 <= k < calls ==> pages[k].hasNext
      invariant all == prev + results.items
      invariant Gathered(first, more) == After(prev, Gathered(results, more[calls..]))
      decreases |more| - calls
    {
      if calls == |more| {
        return None, calls;
      }
      assert more[calls..][0] == more[calls] && more[calls..][1..] == more[calls + 1..];
      AfterStep(prev, results, more[calls..]);
      prev := all;
      results := more[calls];
      all := all + results.items;
      calls := calls + 1;
    }
    items := Some(all);
  }
}
