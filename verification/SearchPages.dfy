/** Fetching a search page by page: the pages a response needs first, the rest in the background, into
    one cache entry. The upstream result list is fixed. */
module SearchPages {
  import opened Upstream
  import opened Wrappers

  const PAGE_SIZE := 100

  datatype Outcome = Ok | Limited | Failed

  /** Page `page` (from 1) of a result list. */
  function Ask(hits: seq<Item>, page: nat, fate: Fate): Reply<Item>
    requires 1 <= page
  {
    PageAt(hits, (page - 1) * PAGE_SIZE, PAGE_SIZE, fate)
  }

  /** How many hits the first `pages` pages hold. */
  function Upto(hits: seq<Item>, pages: nat): (n: nat)
    ensures n <= |hits|
  {
    Min(pages * PAGE_SIZE, |hits|)
  }

  /** What a request brings, and when nothing can come after it. */
  lemma AskIsNextStretch(hits: seq<Item>, page: nat, last: nat, fate: Fate)
    requires 1 <= page <= last
    ensures var data := Ask(hits, page, fate);
            && (data.NotFound? ==> hits == [])
            && (data.Page? ==> data.total == |hits| && data.results == hits[Upto(hits, page - 1)..Upto(hits, page)])
            && (data.Page? && data.results == [] ==>
                  Max(Upto(hits, page - 1), Upto(hits, last)) == Upto(hits, page - 1))
            && (data.Page? || data.NotFound? <==> fate.Answer?)
            && (data.RateLimited? <==> fate.Refuse?)
    ensures page * PAGE_SIZE >= |hits| || Upto(hits, page) - Upto(hits, page - 1) < PAGE_SIZE ==>
              Upto(hits, page) == Upto(hits, last) == |hits|
    ensures Upto(hits, page - 1) <= Upto(hits, page) <= Upto(hits, last)
  {}

  lemma NextStretch(hits: seq<Item>, from: nat, mid: nat, to: nat)
    requires from <= mid <= to <= |hits|
    ensures hits[from..mid] + hits[mid..to] == hits[from..to]
  {}

  /** The first `asked` requests were answered, and `outcome` is what became of the next one, if there was
      one. */
  ghost predicate Ended(fate: nat -> Fate, asked: nat, outcome: Outcome) {
    && Answered(fate, asked)
    && (outcome == Limited ==> fate(asked).Refuse?)
    && (outcome == Failed ==> fate(asked).Fail?)
  }

  /** `results` is the next stretch of the list after the pages before `first`: up to page `last`, or cut
      short after `asked` pages. */
  ghost predicate Stretch(hits: seq<Item>, first: nat, last: nat, results: seq<Item>, outcome: Outcome, asked: nat)
    requires 1 <= first
  {
    var from := Upto(hits, first - 1);
    && from + |results| <= Max(from, Upto(hits, last))
    && results == hits[from..from + |results|]
    && (outcome == Ok ==> from + |results| == Max(from, Upto(hits, last)))
    && (outcome != Ok ==> first + asked <= last && from + |results| == Upto(hits, first - 1 + asked))
    && (outcome != Ok && results != [] ==> from + |results| < Upto(hits, last))
  }

  lemma CutShort(hits: seq<Item>, first: nat, last: nat, page: nat, results: seq<Item>, outcome: Outcome)
    requires 1 <= first <= page <= last && outcome != Ok
    requires Upto(hits, first - 1) <= Upto(hits, page - 1)
    requires results == hits[Upto(hits, first - 1)..Upto(hits, page - 1)]
    requires page > first ==> (page - 1) * PAGE_SIZE < |hits|
    ensures Stretch(hits, first, last, results, outcome, page - first)
  {}

  lemma AllThere(hits: seq<Item>, first: nat, last: nat, to: nat, results: seq<Item>, asked: nat)
    requires 1 <= first && Upto(hits, first - 1) <= to <= |hits| && to == Max(Upto(hits, first - 1), Upto(hits, last))
    requires results == hits[Upto(hits, first - 1)..to]
    ensures Stretch(hits, first, last, results, Ok, asked)
  {}

  /** Fetches the pages first..last. What it returns is always the next stretch of the result list, cut
      short only by a failure, after the pages that were answered before it; `fate(n)` decides the n-th
      request. */
  method FetchSearchPages(hits: seq<Item>, first: nat, last: nat, knownTotal: nat, fate: nat -> Fate)
    returns (results: seq<Item>, total: nat, outcome: Outcome, ghost asked: nat)
    requires 1 <= first && (knownTotal == 0 || knownTotal == |hits|)
    ensures Stretch(hits, first, last, results, outcome, asked)
    ensures Ended(fate, asked, outcome)
    ensures (forall n :: fate(n).Answer?) ==> outcome == Ok
    ensures total == if knownTotal != 0 || results != [] then |hits| else 0
    ensures asked > 1 ==> (first - 1 + asked - 1) * 100 < |hits|  // no page past the end is asked for
  {
    results, total, asked := [], knownTotal, 0;
    var pageNum := first;
    ghost var from := Upto(hits, first - 1);
    while pageNum <= last
      invariant first <= pageNum && (pageNum == first || pageNum <= last + 1)
      invariant results == hits[from..Upto(hits, pageNum - 1)] && from <= Upto(hits, pageNum - 1)
      invariant total == if knownTotal != 0 || results != [] then |hits| else 0
      invariant pageNum > first ==> (pageNum - 1) * PAGE_SIZE < |hits|
      invariant asked == pageNum - first && Answered(fate, asked)
      decreases last + 1 - pageNum
    {
      AskIsNextStretch(hits, pageNum, last, fate(pageNum - first));
      var data := Ask(hits, pageNum, fate(pageNum - first));
      CutShort(hits, first, last, pageNum, results, if data.RateLimited? then Limited else Failed);
      if data.RateLimited? { return results, total, Limited, asked; }
      if data.Error? { return results, total, Failed, asked; }
      asked := asked + 1;
      if data.NotFound? { break; }
      var page := data.results;
      if page == [] { break; }
      if total == 0 { total := data.total; }
      NextStretch(hits, from, Upto(hits, pageNum - 1), Upto(hits, pageNum));
      results := results + page;
      if pageNum * PAGE_SIZE >= total || |page| < PAGE_SIZE { break; }
      pageNum := pageNum + 1;
    }
    AllThere(hits, first, last, from + |results|, results, asked);
    outcome := Ok;
  }

  // ---- the cache entry of one search ---------------------------------------

  datatype Entry = Entry(results: seq<Item>, total: nat)

  datatype Fill = Fill(results: seq<Item>, total: nat, next: nat, last: nat)

  /** The pages a response to the slice [offset, offset + limit) waits for. */
  function PagesNeeded(offset: int, limit: int, maxPages: int): int {
    Min(maxPages, Max(1, -(-(offset + limit) / PAGE_SIZE)))
  }

  /** They cover the slice, or the page cap stops them. */
  lemma NeededPagesCoverSlice(hits: seq<Item>, offset: int, limit: int, maxPages: nat, i: nat)
    requires 1 <= maxPages && i < offset + limit && i < |hits|
    ensures var k := PagesNeeded(offset, limit, maxPages);
            1 <= k <= maxPages && (i < Upto(hits, k) || k == maxPages)
  {
    var x := offset + limit;
    assert x <= -(-x / PAGE_SIZE) * PAGE_SIZE;
  }

  /** They are the fewest: with one page less the end of the slice would be missing. */
  lemma FewestPagesAreNeeded(hits: seq<Item>, offset: int, limit: int, maxPages: nat)
    requires offset + limit <= |hits| && PagesNeeded(offset, limit, maxPages) > 1
    ensures Upto(hits, PagesNeeded(offset, limit, maxPages) - 1) < offset + limit
  {
    var x := offset + limit;
    assert (-(-x / PAGE_SIZE) - 1) * PAGE_SIZE < x;
  }

  ghost predicate FillOk(hits: seq<Item>, f: Fill) {
    && 1 <= f.next <= f.last
    && f.results == hits[..Upto(hits, f.next - 1)] && f.results != [] && f.total == |hits|
  }

  /** Whatever is stored is a prefix of the upstream list and knows its length. */
  ghost predicate EntryOk(hits: seq<Item>, entry: Option<Entry>) {
    entry.Some? ==> entry.value.results != [] && entry.value.results <= hits && entry.value.total == |hits|
  }

  /** The entry of a search after a list was fetched: an empty one changes nothing. */
  function Kept(hits: seq<Item>, entry: Option<Entry>, list: seq<Item>): Option<Entry> {
    if list == [] then entry else Some(Entry(list, |hits|))
  }

  /** The fill a search hands out that needs `pages` pages and was answered `asked` of them. */
  function HandedOut(hits: seq<Item>, filling: bool, pages: nat, asked: nat, maxPages: nat): Option<Fill>
    requires asked <= pages
  {
    var list := hits[..Upto(hits, asked)];
    if !filling && list != [] && |list| == pages * PAGE_SIZE && |list| < |hits| && pages < maxPages
    then Some(Fill(list, |hits|, pages + 1, maxPages)) else None
  }

  /** The entry of a search after a fill that was answered `asked` pages. */
  function AfterFill(hits: seq<Item>, entry: Option<Entry>, f: Fill, asked: nat): Option<Entry> {
    var list := hits[..Upto(hits, Max(0, Min(f.last, f.next - 1 + asked)))];
    if list == f.results then entry else Some(Entry(list, |hits|))
  }

  class SearchEntry {
    var entry: Option<Entry>
    var filling: bool

    ghost predicate Valid(hits: seq<Item>)
      reads this
    { EntryOk(hits, entry) }

    constructor ()
      ensures entry == None && !filling
    { entry, filling := None, false; }

    /** The fetch part of a search: waits for the pages the slice needs, stores them, and hands back
        the background task that is to fetch the rest. */
    method FetchAndStore(hits: seq<Item>, offset: int, limit: int, maxPages: nat, fate: nat -> Fate)
      returns (outcome: Outcome, fill: Option<Fill>, ghost results: seq<Item>, ghost asked: nat)
      requires Valid(hits) && 1 <= maxPages
      modifies this
      ensures Valid(hits) && Ended(fate, asked, outcome)
      ensures results == hits[..Upto(hits, if outcome == Ok then PagesNeeded(offset, limit, maxPages) else asked)]
      ensures entry == if results == [] then old(entry) else Some(Entry(results, |hits|))
      ensures var k := PagesNeeded(offset, limit, maxPages);
              && (outcome == Ok && hits != [] ==> entry == Some(Entry(hits[..Upto(hits, k)], |hits|)))
              && (fill.Some? ==> FillOk(hits, fill.value) && fill.value.next == k + 1 && fill.value.last == maxPages
                                 && outcome == Ok && !old(filling) && filling)
              && (fill.None? ==> filling == old(filling))
              && (outcome == Ok && fill.None? && !old(filling) ==> Upto(hits, k) == Upto(hits, maxPages))
      ensures (forall n :: fate(n).Answer?) ==> outcome == Ok
      // one step of the search's history
      ensures var k := PagesNeeded(offset, limit, maxPages);
              var pages := if outcome == Ok then k else asked;
              && pages <= k
              && entry == Kept(hits, old(entry), hits[..Upto(hits, pages)])
              && fill == HandedOut(hits, old(filling), k, pages, maxPages)
              && filling == (old(filling) || fill.Some?)
    {
      var pages := PagesNeeded(offset, limit, maxPages);
      var fetched, total;
      fetched, total, outcome, asked := FetchSearchPages(hits, 1, pages, 0, fate);
      fill, results := None, fetched;
      assert fetched == hits[..|fetched|];
      if fetched == [] { return; }
      entry := Some(Entry(fetched, total));
      var more := outcome != Limited && |fetched| == pages * PAGE_SIZE && |fetched| < total && pages < maxPages;
      if more && !filling {
        filling := true;
        fill := Some(Fill(fetched, total, pages + 1, maxPages));
      }
    }

    /** The background task: extends the list it was started with and stores it, whatever others
        stored meanwhile. */
    method FillSearchCache(hits: seq<Item>, f: Fill, fate: nat -> Fate) returns (outcome: Outcome, ghost asked: nat)
      requires Valid(hits) && FillOk(hits, f)
      modifies this
      ensures Valid(hits) && !filling && Ended(fate, asked, outcome)
      ensures var list := hits[..Upto(hits, if outcome == Ok then f.last else f.next - 1 + asked)];
              && f.results <= list
              && entry == if list == f.results then old(entry) else Some(Entry(list, |hits|))
      ensures (forall n :: fate(n).Answer?) ==> outcome == Ok
      // one step of the search's history
      ensures entry == AfterFill(hits, old(entry), f, if outcome == Ok then f.last - f.next + 1 else asked)
    {
      var more, total;
      more, total, outcome, asked := FetchSearchPages(hits, f.next, f.last, f.total, fate);
      assert f.results + more == hits[..|f.results| + |more|];
      if more != [] {
        entry := Some(Entry(f.results + more, total));
      }
      filling := false;
    }
  }

  // ---- every interleaving of one search's fetches and fills -----------------

  /** `pending` are the background fills handed out and not finished. */
  datatype State = State(entry: Option<Entry>, filling: bool, pending: seq<Fill>)

  datatype Event =
    | Fetched(pages: nat, asked: nat, maxPages: nat)  // a search needed `pages`, was answered `asked` and stored them
    | Filled(i: nat, asked: nat)                      // a fill was answered `asked` pages and stored them
    | Dropped(i: nat)                                 // the response a fill hangs on fails, so it never runs

  predicate Legal(s: State, e: Event) {
    match e
    case Fetched(pages, asked, _) => asked <= pages && 1 <= pages
    case Filled(i, _) => i < |s.pending|
    case Dropped(i) => i < |s.pending|
  }

  function Step(hits: seq<Item>, s: State, e: Event): State
    requires Legal(s, e)
  {
    match e
    case Fetched(pages, asked, maxPages) =>
      var fill := HandedOut(hits, s.filling, pages, asked, maxPages);
      State(Kept(hits, s.entry, hits[..Upto(hits, asked)]), s.filling || fill.Some?,
            if fill.Some? then s.pending + [fill.value] else s.pending)
    case Filled(i, asked) =>
      State(AfterFill(hits, s.entry, s.pending[i], asked), false, s.pending[..i] + s.pending[i + 1..])
    case Dropped(i) => s.(pending := s.pending[..i] + s.pending[i + 1..])
  }

  /** At most one fill is pending, and only while the search is marked. */
  ghost predicate Inv(hits: seq<Item>, s: State) {
    && EntryOk(hits, s.entry)
    && |s.pending| <= 1 && (s.pending != [] ==> s.filling && FillOk(hits, s.pending[0]))
  }

  ghost predicate LegalRun(hits: seq<Item>, s: State, es: seq<Event>)
    decreases |es|
  {
    es == [] || (Legal(s, es[0]) && LegalRun(hits, Step(hits, s, es[0]), es[1..]))
  }

  ghost function Run(hits: seq<Item>, s: State, es: seq<Event>): State
    requires LegalRun(hits, s, es)
    decreases |es|
  {
    if es == [] then s else Run(hits, Step(hits, s, es[0]), es[1..])
  }

  lemma StepKeepsInv(hits: seq<Item>, s: State, e: Event)
    requires Inv(hits, s) && Legal(s, e)
    ensures Inv(hits, Step(hits, s, e))
  {
    match e
    case Fetched(pages, asked, maxPages) =>
      var fill := HandedOut(hits, s.filling, pages, asked, maxPages);
      if fill.Some? { HandedOutIsOk(hits, s.filling, pages, asked, maxPages); }
    case Filled(i, asked) => FilledIsPrefix(hits, s.pending[0], asked);
    case Dropped(i) =>
  }

  lemma HandedOutIsOk(hits: seq<Item>, filling: bool, pages: nat, asked: nat, maxPages: nat)
    requires asked <= pages && HandedOut(hits, filling, pages, asked, maxPages).Some?
    ensures FillOk(hits, HandedOut(hits, filling, pages, asked, maxPages).value)
  {}

  lemma FilledIsPrefix(hits: seq<Item>, f: Fill, asked: nat)
    requires FillOk(hits, f)
    ensures f.results <= hits[..Upto(hits, Max(0, Min(f.last, f.next - 1 + asked)))] <= hits
  {}

  /** Over every interleaving of searches, fills and failing responses: at most one fill of the search is
      pending, and what is stored is a prefix of upstream's list that knows its length. */
  lemma {:induction false} OneFillAtMost(hits: seq<Item>, s: State, es: seq<Event>)
    requires Inv(hits, s) && LegalRun(hits, s, es)
    ensures var s' := Run(hits, s, es); |s'.pending| <= 1 && EntryOk(hits, s'.entry) && Inv(hits, s')
    decreases |es|
  {
    if es != [] {
      StepKeepsInv(hits, s, es[0]);
      OneFillAtMost(hits, Step(hits, s, es[0]), es[1..]);
    }
  }

  /** A fill is handed out exactly if all pages needed came, full ones, more are left upstream and under
      the cap, and the search is not marked. */
  lemma HandsOutExactly(hits: seq<Item>, filling: bool, pages: nat, asked: nat, maxPages: nat)
    requires asked <= pages && 1 <= pages
    ensures HandedOut(hits, filling, pages, asked, maxPages).Some? <==>
      (!filling && asked == pages && pages * PAGE_SIZE < |hits| && pages < maxPages)
  {}

  /** The mark of a fill that never runs stays: over every later history nothing is filled again. */
  lemma {:induction false} DroppedFillBlocks(hits: seq<Item>, s: State, es: seq<Event>)
    requires s.filling && s.pending == [] && LegalRun(hits, s, es)
    ensures Run(hits, s, es).filling && Run(hits, s, es).pending == []
    decreases |es|
  {
    if es != [] { DroppedFillBlocks(hits, Step(hits, s, es[0]), es[1..]); }
  }

  /** More than 100 hits, a search of one page whose response fails, and the same search again: its second
      page is never fetched, although nothing upstream failed. */
  lemma DroppedFillIsLost(hits: seq<Item>)
    requires |hits| > 100
    ensures var es := [Fetched(1, 1, 2), Dropped(0), Fetched(1, 1, 2)];
            && LegalRun(hits, State(None, false, []), es)
            && Run(hits, State(None, false, []), es) == State(Some(Entry(hits[..100], |hits|)), true, [])
  {
    var s0 := State(None, false, []);
    var e := Fetched(1, 1, 2);
    var s1 := Step(hits, s0, e);
    assert Upto(hits, 1) == 100 && s1.pending == [Fill(hits[..100], |hits|, 2, 2)];
    var s2 := Step(hits, s1, Dropped(0));
    assert s2.pending == [];
    var es := [e, Dropped(0), e];
    assert es[1..] == [Dropped(0), e] && [Dropped(0), e][1..] == [e] && [e][1..] == [];
    assert LegalRun(hits, Step(hits, s2, e), []) && LegalRun(hits, s2, [e]) && LegalRun(hits, s1, [Dropped(0), e]);
    assert Run(hits, s0, es) == Run(hits, s1, [Dropped(0), e]) == Run(hits, s2, [e]) == Step(hits, s2, e);
  }

  /** An entry with as many results as its total is exactly one from which nothing is missing. */
  lemma CompleteMeansNothingMissing(hits: seq<Item>, e: Entry)
    requires e.results <= hits && e.total == |hits|
    ensures |e.results| >= e.total <==> e.results == hits
  {}

  /** Fetching pages 1..k and filling k+1..max stores the list one fetch of 1..max stores; it is complete
      exactly if the page cap does not cut the upstream list. */
  method SplitSearch(hits: seq<Item>, offset: int, limit: int, maxPages: nat, fate: nat -> Fate, fate': nat -> Fate,
                     whole: nat -> Fate)
    returns (split: Option<Entry>, once: Option<Entry>)
    requires 1 <= maxPages && forall n :: fate(n).Answer? && fate'(n).Answer? && whole(n).Answer?
    ensures split == once
    ensures split == if hits == [] then None else Some(Entry(hits[..Upto(hits, maxPages)], |hits|))
    ensures split.Some? ==> (|split.value.results| >= split.value.total <==> |hits| <= maxPages * PAGE_SIZE)
  {
    var a := new SearchEntry();
    var _, fill, _, _ := a.FetchAndStore(hits, offset, limit, maxPages, fate);
    if fill.Some? {
      var _, _ := a.FillSearchCache(hits, fill.value, fate');
    }
    split := a.entry;
    var b := new SearchEntry();
    var _, _, _, _ := b.FetchAndStore(hits, 0, maxPages * PAGE_SIZE, maxPages, whole);
    once := b.entry;
  }
}
