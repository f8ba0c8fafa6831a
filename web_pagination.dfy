/** The offset pagination loop of `analyzePlaylist` (web/script.js lines 28-65).

    The proxy is asked for `offset`; the k-th request made is answered by the k-th
    element of a sequence of responses. When the loop asks for more pages than the
    sequence holds, the model stops with `OutOfPages` (the browser would go on
    requesting). */
module WebPagination {
  import opened Common
  import opened Spotify
  import opened WebErrors

  /** `data.total` of a page: missing (`undefined`), `null`, or a count. The loop
      variable `total` takes the same three kinds of value; it starts as `null`. */
  datatype TotalField = Absent | NullTotal | Count(n: int)

  datatype Page = Page(items: seq<Item>, next: bool, total: TotalField)

  datatype Response =
    | Success(page: Page)
    | Failure(statusText: string, body: Body)

  datatype FetchOutcome =
    | Fetched(items: seq<Item>)
    | Failed(message: string)
    | OutOfPages

  /** The run of the loop: how it ended and the offset sent with each request. */
  datatype Run = Run(outcome: FetchOutcome, offsets: seq<nat>)

  /** The loop condition `total === null || items.length < total`; `undefined`
      compares false with every number. */
  predicate KeepFetching(collected: nat, total: TotalField)
  {
    total.NullTotal? || (total.Count? && collected < total.n)
  }

  /** The loop from its k-th request on, given what it has collected so far. */
  function FetchFrom(rs: seq<Response>, k: nat, items: seq<Item>, offset: nat,
                     total: TotalField, offsets: seq<nat>): Run
    requires k <= |rs|
    decreases |rs| - k
  {
    if k == |rs| then Run(OutOfPages, offsets)
    else
      var requested := offsets + [offset];
      match rs[k]
      case Failure(statusText, body) => Run(Failed(ErrorMessage(statusText, body)), requested)
      case Success(page) =>
        var items' := items + page.items;
        var total' := if total.NullTotal? then page.total else total;
        if !page.next then Run(Fetched(items'), requested)
        else if KeepFetching(|items'|, total') then
          FetchFrom(rs, k + 1, items', offset + |page.items|, total', requested)
        else Run(Fetched(items'), requested)
  }

  /** The whole loop, from `items = []`, `offset = 0`, `total = null`. */
  function Paginate(rs: seq<Response>): Run
  {
    FetchFrom(rs, 0, [], 0, NullTotal, [])
  }

  /** The loop as script.js writes it, with `break` when a page has no `next`. */
  method FetchPages(rs: seq<Response>) returns (outcome: FetchOutcome, offsets: seq<nat>)
    ensures Run(outcome, offsets) == Paginate(rs)
  {
    var items: seq<Item> := [];
    var offset: nat := 0;
    var total := NullTotal;
    var k := 0;
    offsets := [];
    while KeepFetching(|items|, total)
      invariant k <= |rs|
      invariant Paginate(rs) == if KeepFetching(|items|, total)
                                then FetchFrom(rs, k, items, offset, total, offsets)
                                else Run(Fetched(items), offsets)
      decreases |rs| - k, if KeepFetching(|items|, total) then 1 else 0
    {
      if k == |rs| {
        return OutOfPages, offsets;
      }
      var response := rs[k];
      offsets := offsets + [offset];
      if response.Failure? {
        return Failed(ErrorMessage(response.statusText, response.body)), offsets;
      }
      var data := response.page;
      items := items + data.items;
      if total.NullTotal? {
        total := data.total;
      }
      if !data.next {
        break;
      }
      offset := offset + |data.items|;
      k := k + 1;
    }
    outcome := Fetched(items);
  }

  // ---------------------------------------------------------------------------
  // The loop described directly by the pages it receives.

  /** The page of a successful response (an empty last page for a failed one). */
  function PageOf(r: Response): Page
  {
    if r.Success? then r.page else Page([], false, Absent)
  }

  function Pages(rs: seq<Response>): (ps: seq<Page>)
    ensures |ps| == |rs|
    ensures forall i :: 0 <= i < |rs| ==> ps[i] == PageOf(rs[i])
  {
    seq(|rs|, i requires 0 <= i < |rs| => PageOf(rs[i]))
  }

  /** The items of the pages, page after page. */
  function ItemsOf(ps: seq<Page>): seq<Item>
    decreases |ps|
  {
    if |ps| == 0 then [] else ItemsOf(ps[..|ps| - 1]) + ps[|ps| - 1].items
  }

  /** The value of `total` after the given pages: that of the first page whose
      total is not `null`. */
  function TotalAfter(ps: seq<Page>): TotalField
    decreases |ps|
  {
    if |ps| == 0 then NullTotal
    else
      var t := TotalAfter(ps[..|ps| - 1]);
      if t.NullTotal? then ps[|ps| - 1].total else t
  }

  /** After receiving the pages `ps`, the loop makes another request. */
  predicate RequestsAgain(ps: seq<Page>)
    requires |ps| > 0
  {
    ps[|ps| - 1].next && KeepFetching(|ItemsOf(ps)|, TotalAfter(ps))
  }

  /** The first k responses were successful and each made the loop ask again. */
  predicate Continued(rs: seq<Response>, k: nat)
    requires k <= |rs|
  {
    forall j :: 0 <= j < k ==> rs[j].Success? && RequestsAgain(Pages(rs[..j + 1]))
  }

  lemma PagesPrefix(rs: seq<Response>, k: nat)
    requires k < |rs|
    ensures Pages(rs[..k + 1]) == Pages(rs[..k]) + [PageOf(rs[k])]
  {
  }

  /** Each request's offset is the number of items received before it. */
  predicate OffsetsCount(rs: seq<Response>, offsets: seq<nat>)
    requires |offsets| <= |rs|
  {
    forall j :: 0 <= j < |offsets| ==> offsets[j] == |ItemsOf(Pages(rs[..j]))|
  }

  /** What holds at the k-th request: the facts the direct description gives. */
  predicate AtRequest(rs: seq<Response>, k: nat, items: seq<Item>, offset: nat,
                      total: TotalField, offsets: seq<nat>)
    requires k <= |rs|
  {
    && Continued(rs, k)
    && items == ItemsOf(Pages(rs[..k]))
    && offset == |items|
    && total == TotalAfter(Pages(rs[..k]))
    && |offsets| == k
    && OffsetsCount(rs, offsets)
  }

  /** The loop, stated without reference to its steps: the n requests it makes
      are answered by successful pages each of which asks for more, except the
      n-th, which failed or asked for no more; when every response asked for more,
      it ran out of pages. Before each request the offset equals the number of
      items collected, and the items are the concatenation of all pages received. */
  predicate Described(rs: seq<Response>, run: Run)
  {
    var n := |run.offsets|;
    && n <= |rs|
    && OffsetsCount(rs, run.offsets)
    && match run.outcome
       case OutOfPages => n == |rs| && Continued(rs, n)
       case Failed(message) =>
         && 0 < n && Continued(rs, n - 1) && rs[n - 1].Failure?
         && message == ErrorMessage(rs[n - 1].statusText, rs[n - 1].body)
       case Fetched(items) =>
         && 0 < n && Continued(rs, n - 1) && rs[n - 1].Success?
         && !RequestsAgain(Pages(rs[..n]))
         && items == ItemsOf(Pages(rs[..n]))
  }

  lemma OffsetsExtend(rs: seq<Response>, offsets: seq<nat>, offset: nat)
    requires |offsets| < |rs| && OffsetsCount(rs, offsets)
    requires offset == |ItemsOf(Pages(rs[..|offsets|]))|
    ensures OffsetsCount(rs, offsets + [offset])
  {
  }

  /** One successful page: the items and total after it. */
  lemma StepSuccess(rs: seq<Response>, k: nat, items: seq<Item>, total: TotalField)
    requires k < |rs| && rs[k].Success?
    requires items == ItemsOf(Pages(rs[..k])) && total == TotalAfter(Pages(rs[..k]))
    ensures items + rs[k].page.items == ItemsOf(Pages(rs[..k + 1]))
    ensures (if total.NullTotal? then rs[k].page.total else total) == TotalAfter(Pages(rs[..k + 1]))
  {
    var ps := Pages(rs[..k + 1]);
    PagesPrefix(rs, k);
    assert ps[..k] == Pages(rs[..k]);
    if k == 0 {
      assert Pages(rs[..0]) == [];
    }
  }

  lemma ContinuedExtend(rs: seq<Response>, k: nat)
    requires k < |rs| && Continued(rs, k)
    requires rs[k].Success? && RequestsAgain(Pages(rs[..k + 1]))
    ensures Continued(rs, k + 1)
  {
  }

  lemma DescribedOutOfPages(rs: seq<Response>, offsets: seq<nat>)
    requires |offsets| == |rs| && Continued(rs, |rs|) && OffsetsCount(rs, offsets)
    ensures Described(rs, Run(OutOfPages, offsets))
  {
  }

  lemma DescribedFailed(rs: seq<Response>, k: nat, offsets: seq<nat>)
    requires k < |rs| && rs[k].Failure? && Continued(rs, k)
    requires |offsets| == k + 1 && OffsetsCount(rs, offsets)
    ensures Described(rs, Run(Failed(ErrorMessage(rs[k].statusText, rs[k].body)), offsets))
  {
  }

  lemma DescribedFetched(rs: seq<Response>, k: nat, items: seq<Item>, offsets: seq<nat>)
    requires k < |rs| && rs[k].Success? && Continued(rs, k)
    requires !RequestsAgain(Pages(rs[..k + 1])) && items == ItemsOf(Pages(rs[..k + 1]))
    requires |offsets| == k + 1 && OffsetsCount(rs, offsets)
    ensures Described(rs, Run(Fetched(items), offsets))
  {
  }

  lemma {:induction false} FetchFromDescribed(rs: seq<Response>, k: nat, items: seq<Item>,
                                              offset: nat, total: TotalField, offsets: seq<nat>,
                                              run: Run)
    requires k <= |rs|
    requires AtRequest(rs, k, items, offset, total, offsets)
    requires run == FetchFrom(rs, k, items, offset, total, offsets)
    ensures Described(rs, run)
    decreases |rs| - k
  {
    if k == |rs| {
      assert run == Run(OutOfPages, offsets);
      DescribedOutOfPages(rs, offsets);
    } else {
      var requested := offsets + [offset];
      OffsetsExtend(rs, offsets, offset);
      if rs[k].Failure? {
        assert run == Run(Failed(ErrorMessage(rs[k].statusText, rs[k].body)), requested);
        DescribedFailed(rs, k, requested);
      } else {
        var page := rs[k].page;
        var items' := items + page.items;
        var total' := if total.NullTotal? then page.total else total;
        StepSuccess(rs, k, items, total);
        assert Pages(rs[..k + 1])[k] == page;
        if page.next && KeepFetching(|items'|, total') {
          assert run == FetchFrom(rs, k + 1, items', offset + |page.items|, total', requested);
          ContinuedExtend(rs, k);
          FetchFromDescribed(rs, k + 1, items', offset + |page.items|, total', requested, run);
        } else {
          assert run == Run(Fetched(items'), requested);
          DescribedFetched(rs, k, items', requested);
        }
      }
    }
  }

  /** Paginate meets the direct description. */
  lemma PaginateDescribed(rs: seq<Response>)
    ensures Described(rs, Paginate(rs))
  {
    assert Pages(rs[..0]) == [];
    FetchFromDescribed(rs, 0, [], 0, NullTotal, [], Paginate(rs));
  }

  /** Once a page has reported a total other than `null`, the loop keeps it: with a
      first page that has a total, that total is the one used throughout. */
  lemma {:induction false} TotalFromFirstPage(ps: seq<Page>)
    requires |ps| > 0 && !ps[0].total.NullTotal?
    ensures TotalAfter(ps) == ps[0].total
    decreases |ps|
  {
    if |ps| > 1 {
      TotalFromFirstPage(ps[..|ps| - 1]);
    } else {
      assert ps[..0] == [];
    }
  }

  /** A first page without `total` ends the loop after that page. */
  lemma AbsentTotalSinglePage(rs: seq<Response>)
    requires |rs| > 0 && rs[0].Success? && rs[0].page.total.Absent?
    ensures |Paginate(rs).offsets| == 1
  {
  }

  /** A first page with `next` absent ends the loop after that page, whatever its total. */
  lemma NoNextSinglePage(rs: seq<Response>)
    requires |rs| > 0 && rs[0].Success? && !rs[0].page.next
    ensures Paginate(rs) == Run(Fetched(rs[0].page.items), [0])
  {
    assert [] + rs[0].page.items == rs[0].page.items;
  }
}
