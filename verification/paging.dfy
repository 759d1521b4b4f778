/**
 * Pagination of the bot's list screens. Two schemes are used: lists read
 * in full are cut into pages with the requested page clamped into range
 * (results: 20 per page, check-in people: 8); lists read from a query
 * fetch one row more than the page needs and offer "next" when that row
 * came back (events: 5 per page; the check-in event picker, 6 per page,
 * reads at most 60 events and prefers the ones within a day of today).
 */
module Paging {

  import opened Base
  import opened Strings
  import opened EventDate
  import opened Rsvp
  import opened Leaderboard
  import opened Callbacks

  function Min(a: int, b: int): int {
    if a <= b then a else b
  }

  // ---------------------------------------------------------------------
  // Arithmetic
  // ---------------------------------------------------------------------

  /** `Math.ceil(n / d)`. */
  function CeilDiv(n: nat, d: nat): nat
    requires d > 0
  {
    (n + d - 1) / d
  }

  /** A quotient fixed by its remainder. */
  lemma DivUnique(n: int, d: int, q: int, r: int)
    requires d > 0 && 0 <= r < d && n == d * q + r
    ensures n / d == q
  {
    var q0, r0 := n / d, n % d;
    assert d * (q0 - q) == r - r0;
    MulBetween(d, q0 - q);
  }

  /** The only multiple of `d` strictly between `-d` and `d` is zero. */
  lemma MulBetween(d: int, k: int)
    requires d > 0 && -d < d * k < d
    ensures k == 0
  {
  }

  /** `Math.max(1, Math.ceil(total / pageSize))`. */
  function TotalPages(n: nat, size: nat): (r: nat)
    requires size > 0
    ensures r >= 1
  {
    var c := CeilDiv(n, size);
    if c < 1 then 1 else c
  }

  /** One more page's worth of items makes one more page. */
  lemma TotalPagesStep(n: nat, size: nat)
    requires size > 0 && n > size
    ensures TotalPages(n, size) == TotalPages(n - size, size) + 1
  {
    var a := n - size + size - 1;
    DivUnique(a + size, size, a / size + 1, a % size);
  }

  /** A list that fits on one page has one page. */
  lemma TotalPagesOne(n: nat, size: nat)
    requires size > 0 && n <= size
    ensures TotalPages(n, size) == 1
  {
    if n == 0 {
      DivUnique(size - 1, size, 0, size - 1);
    } else {
      DivUnique(n + size - 1, size, 1, n - 1);
    }
  }

  // ---------------------------------------------------------------------
  // The reference: a list cut into pages
  // ---------------------------------------------------------------------

  /** `list.slice(start, end)` for non-negative bounds. */
  function Slice<T>(xs: seq<T>, start: nat, end: nat): (r: seq<T>)
    ensures start <= |xs| && start <= end ==> |r| == Min(end, |xs|) - start
    ensures forall i :: 0 <= i < |r| ==> start + i < |xs| && r[i] == xs[start + i]
    ensures start >= |xs| || end <= start ==> r == []
  {
    var lo := Min(start, |xs|);
    var hi := Min(end, |xs|);
    if hi <= lo then [] else xs[lo..hi]
  }

  /** The pages of a list: full pages and a last, possibly short or empty,
      one. */
  function Chunks<T>(xs: seq<T>, size: nat): (r: seq<seq<T>>)
    requires size > 0
    ensures |r| >= 1
    decreases |xs|
  {
    if |xs| <= size then [xs] else [xs[..size]] + Chunks(xs[size..], size)
  }

  function Flatten<T>(pages: seq<seq<T>>): seq<T> {
    if pages == [] then [] else pages[0] + Flatten(pages[1..])
  }

  /** Reading the pages in order gives back the list. */
  lemma {:induction false} ChunksFlatten<T>(xs: seq<T>, size: nat)
    requires size > 0
    ensures Flatten(Chunks(xs, size)) == xs
    decreases |xs|
  {
    if |xs| > size {
      ChunksFlatten(xs[size..], size);
      assert Chunks(xs, size)[1..] == Chunks(xs[size..], size);
      assert xs == xs[..size] + xs[size..];
    }
  }

  /** Every page but the last is full and none is longer than a page. */
  lemma {:induction false} ChunksSizes<T>(xs: seq<T>, size: nat)
    requires size > 0
    ensures forall p :: 0 <= p < |Chunks(xs, size)| - 1 ==> |Chunks(xs, size)[p]| == size
    ensures forall p :: 0 <= p < |Chunks(xs, size)| ==> |Chunks(xs, size)[p]| <= size
    decreases |xs|
  {
    if |xs| > size {
      ChunksSizes(xs[size..], size);
      assert forall p :: 1 <= p < |Chunks(xs, size)| ==> Chunks(xs, size)[p] == Chunks(xs[size..], size)[p - 1];
    }
  }

  /** There are as many pages as the page-count formula says. */
  lemma {:induction false} ChunksCount<T>(xs: seq<T>, size: nat)
    requires size > 0
    ensures |Chunks(xs, size)| == TotalPages(|xs|, size)
    decreases |xs|
  {
    if |xs| <= size {
      TotalPagesOne(|xs|, size);
    } else {
      ChunksCount(xs[size..], size);
      TotalPagesStep(|xs|, size);
    }
  }

  /** Page `p` is the slice the handlers take. */
  lemma {:induction false} ChunkAt<T>(xs: seq<T>, size: nat, p: nat)
    requires size > 0 && p < |Chunks(xs, size)|
    ensures Chunks(xs, size)[p] == Slice(xs, p * size, p * size + size)
    decreases p
  {
    if p == 0 {
      assert Slice(xs, 0, size) == (if |xs| <= size then xs else xs[..size]);
    } else {
      var rest := xs[size..];
      assert Chunks(xs, size)[p] == Chunks(rest, size)[p - 1];
      ChunkAt(rest, size, p - 1);
      assert (p - 1) * size + size == p * size;
      SliceShift(xs, size, (p - 1) * size, (p - 1) * size + size);
    }
  }

  /** Slicing the tail is slicing further along. */
  lemma SliceShift<T>(xs: seq<T>, k: nat, start: nat, end: nat)
    requires k <= |xs|
    ensures Slice(xs[k..], start, end) == Slice(xs, k + start, k + end)
  {
  }

  // ---------------------------------------------------------------------
  // Clamped pages (results, check-in people)
  // ---------------------------------------------------------------------

  datatype Page<T> = Page(index: nat, items: seq<T>, first: nat, hasPrev: bool, hasNext: bool)

  /** `Math.max(0, Math.min(page, totalPages - 1))`. */
  function ClampPage(page: nat, n: nat, size: nat): (p: nat)
    requires size > 0
    ensures p < TotalPages(n, size)
    ensures page < TotalPages(n, size) ==> p == page
    ensures page >= TotalPages(n, size) ==> p == TotalPages(n, size) - 1
  {
    Min(page, TotalPages(n, size) - 1)
  }

  /** The page a clamped screen shows, with its navigation flags; `first`
      is the 0-based position of the page's first item, so item `i` is
      numbered `first + i + 1`. */
  function ClampedPage<T>(xs: seq<T>, page: nat, size: nat): Page<T>
    requires size > 0
  {
    var p := ClampPage(page, |xs|, size);
    var start := p * size;
    Page(p, Slice(xs, start, start + size), start, p > 0, p < TotalPages(|xs|, size) - 1)
  }

  /** A clamped screen shows the pages of the reference cut: the requested
      page if it exists and the last one otherwise; "previous" is offered
      on every page but the first and "next" on every page but the last. */
  lemma ClampedPageIsChunk<T>(xs: seq<T>, page: nat, size: nat)
    requires size > 0
    ensures var pg := ClampedPage(xs, page, size);
            var pages := Chunks(xs, size);
            && pg.index == Min(page, |pages| - 1)
            && pg.items == pages[pg.index]
            && (pg.hasPrev <==> pg.index > 0)
            && (pg.hasNext <==> pg.index < |pages| - 1)
  {
    ChunksCount(xs, size);
    var p := ClampPage(page, |xs|, size);
    ChunkAt(xs, size, p);
  }

  /** Following "next" from the first page visits every page once, in
      order, and reading them all gives back the list. */
  lemma ClampedPagesCover<T>(xs: seq<T>, size: nat)
    requires size > 0
    ensures Flatten(seq(TotalPages(|xs|, size), p requires 0 <= p < TotalPages(|xs|, size) => ClampedPage(xs, p, size).items)) == xs
  {
    ChunksCount(xs, size);
    var pages := Chunks(xs, size);
    var shown := seq(TotalPages(|xs|, size), p requires 0 <= p < TotalPages(|xs|, size) => ClampedPage(xs, p, size).items);
    forall p | 0 <= p < |pages|
      ensures shown[p] == pages[p]
    {
      ClampedPageIsChunk(xs, p, size);
    }
    assert shown == pages;
    ChunksFlatten(xs, size);
  }

  const ResultsPageSize: nat := 20
  const PeoplePageSize: nat := 8

  /** The pages a screen's arrows lead to: the previous one when there is
      one, then the next one when there is one. */
  function NavPages<T>(pg: Page<T>): (r: seq<nat>)
    ensures |r| <= 2
    ensures pg.index - 1 in r <==> pg.hasPrev && pg.index > 0
    ensures pg.index + 1 in r <==> pg.hasNext
    ensures forall q :: q in r ==> q == pg.index - 1 || q == pg.index + 1
  {
    (if pg.hasPrev && pg.index > 0 then [pg.index - 1] else []) + (if pg.hasNext then [pg.index + 1] else [])
  }

  /** On a clamped screen every arrow leads to a page that exists, so the
      page it opens is the one it names and is never empty unless the whole
      list is. */
  lemma ClampedNavExact<T>(xs: seq<T>, page: nat, size: nat, q: nat)
    requires size > 0 && q in NavPages(ClampedPage(xs, page, size))
    ensures ClampedPage(xs, q, size).index == q
    ensures ClampedPage(xs, q, size).items != []
  {
    ChunksCount(xs, size);
    ChunksSizes(xs, size);
    ClampedPageIsChunk(xs, q, size);
    ChunksFlatten(xs, size);
    var pages := Chunks(xs, size);
    assert |pages| >= 2;
    if q == |pages| - 1 {
      ChunksNotEmptyLast(xs, size);
    }
  }

  /** With more than one page the last page holds something. */
  lemma {:induction false} ChunksNotEmptyLast<T>(xs: seq<T>, size: nat)
    requires size > 0 && |Chunks(xs, size)| >= 2
    ensures Chunks(xs, size)[|Chunks(xs, size)| - 1] != []
    decreases |xs|
  {
    var rest := xs[size..];
    if |rest| > size {
      ChunksNotEmptyLast(rest, size);
    }
    assert Chunks(xs, size)[|Chunks(xs, size)| - 1] == Chunks(rest, size)[|Chunks(rest, size)| - 1];
  }

  /** The arrows of the results screen (`resultsKb_`): same poll, same
      tab, the neighbouring page. */
  function ResultsNav<T>(pollId: string, tab: Tab, pg: Page<T>): (r: seq<Callback>)
    ensures |r| == |NavPages(pg)|
    ensures forall i :: 0 <= i < |r| ==> r[i] == ResultsPage(pollId, tab, NavPages(pg)[i])
  {
    var qs := NavPages(pg);
    seq(|qs|, i requires 0 <= i < |qs| => ResultsPage(pollId, tab, qs[i]))
  }

  /** Pressing an arrow of the results screen comes back as the same poll,
      tab and the neighbouring page, and that page is shown as is. */
  lemma ResultsNavRoundTrip(names: seq<string>, pollId: string, tab: Tab, page: nat, i: nat)
    requires PollIdShape(pollId)
    requires i < |ResultsNav(pollId, tab, ClampedPage(names, page, ResultsPageSize))|
    ensures var pg := ClampedPage(names, page, ResultsPageSize);
            var b := ResultsNav(pollId, tab, pg)[i];
            && Decode(Encode(b)) == Some(b)
            && (b.page == pg.index - 1 || b.page == pg.index + 1)
            && ClampedPage(names, b.page, ResultsPageSize).index == b.page
  {
    var pg := ClampedPage(names, page, ResultsPageSize);
    var b := ResultsNav(pollId, tab, pg)[i];
    DecodeEncode(b);
    assert NavPages(pg)[i] in NavPages(pg);
    ClampedNavExact(names, page, ResultsPageSize, b.page);
  }

  /** The arrows of the check-in people screen (`checkinPeopleKb_`). */
  function PeopleNav<T>(pollId: string, pg: Page<T>): (r: seq<Callback>)
    ensures |r| == |NavPages(pg)|
    ensures forall i :: 0 <= i < |r| ==> r[i] == CiPeople(pollId, NavPages(pg)[i])
  {
    var qs := NavPages(pg);
    seq(|qs|, i requires 0 <= i < |qs| => CiPeople(pollId, qs[i]))
  }

  /** Pressing an arrow of the people screen comes back as the same poll
      and the neighbouring page, and that page is shown as is. */
  lemma PeopleNavRoundTrip(uids: seq<string>, pollId: string, page: nat, i: nat)
    requires PollIdShape(pollId)
    requires i < |PeopleNav(pollId, ClampedPage(uids, page, PeoplePageSize))|
    ensures var pg := ClampedPage(uids, page, PeoplePageSize);
            var b := PeopleNav(pollId, pg)[i];
            && Decode(Encode(b)) == Some(b)
            && ClampedPage(uids, b.page, PeoplePageSize).index == b.page
  {
    var pg := ClampedPage(uids, page, PeoplePageSize);
    var b := PeopleNav(pollId, pg)[i];
    DecodeEncode(b);
    assert NavPages(pg)[i] in NavPages(pg);
    ClampedNavExact(uids, page, PeoplePageSize, b.page);
  }

  // ---------------------------------------------------------------------
  // The results lists
  // ---------------------------------------------------------------------

  function Same(tab: Tab, c: Choice): bool {
    (tab == TabYes && c == Yes) || (tab == TabNo && c == No)
  }

  /** The names listed under a tab, in vote-document order: the stored
      name trimmed, or the placeholder when that leaves nothing. */
  function TabNames(docs: seq<Vote>, tab: Tab): (r: seq<string>)
    ensures |r| <= |docs|
  {
    if docs == [] then []
    else
      var rest := TabNames(docs[1..], tab);
      if Same(tab, docs[0].choice) then
        var n := Trim(docs[0].name);
        [if n != "" then n else NoName] + rest
      else rest
  }

  /** No listed name is blank. */
  lemma {:induction false} TabNamesNotBlank(docs: seq<Vote>, tab: Tab)
    ensures forall i :: 0 <= i < |TabNames(docs, tab)| ==> TabNames(docs, tab)[i] != []
  {
    if docs != [] {
      TabNamesNotBlank(docs[1..], tab);
    }
  }

  /** Every vote is listed under exactly one tab. */
  lemma {:induction false} TabsPartitionVotes(docs: seq<Vote>)
    ensures |TabNames(docs, TabYes)| + |TabNames(docs, TabNo)| == |docs|
  {
    if docs != [] {
      TabsPartitionVotes(docs[1..]);
    }
  }

  /** The numbered lines of a results page: each name with its position in
      the whole list, 1-based; a page without names shows a dash. */
  function ResultsBody(pg: Page<string>): (lines: seq<string>)
    ensures pg.items == [] ==> lines == ["\U{2014}"]
    ensures pg.items != [] ==> |lines| == |pg.items|
  {
    if pg.items == [] then ["\U{2014}"]
    else seq(|pg.items|, i requires 0 <= i < |pg.items| => NatToString(pg.first + i + 1) + ". " + pg.items[i])
  }

  /** Numbering runs on across pages: whatever page is shown, the line of
      the `k`-th name of the list carries the number `k + 1`. */
  lemma ResultsNumbering(names: seq<string>, page: nat, i: nat)
    requires i < |ClampedPage(names, page, ResultsPageSize).items|
    ensures var pg := ClampedPage(names, page, ResultsPageSize);
            var k := pg.first + i;
            && k < |names|
            && ResultsBody(pg)[i] == NatToString(k + 1) + ". " + names[k]
            && DigitsValue(NatToString(k + 1)) == k + 1
  {
    var pg := ClampedPage(names, page, ResultsPageSize);
    SliceAt(names, pg.first, pg.first + ResultsPageSize, i);
    var lines := ResultsBody(pg);
    assert lines[i] == NatToString(pg.first + i + 1) + ". " + pg.items[i];
  }

  lemma SliceAt<T>(xs: seq<T>, start: nat, end: nat, i: nat)
    requires i < |Slice(xs, start, end)|
    ensures start + i < |xs| && Slice(xs, start, end)[i] == xs[start + i]
  {
  }

  // ---------------------------------------------------------------------
  // Over-fetched pages (events list)
  // ---------------------------------------------------------------------

  /** `query.limit(n)`: the first `n` rows. */
  function Limit<T>(all: seq<T>, n: nat): (r: seq<T>)
    ensures |r| == Min(n, |all|) && r == all[..|r|]
  {
    if n <= |all| then all[..n] else all
  }

  /** An over-fetched page: at least page 0; fetch one row more than the
      pages so far hold; "next" when that row came back. */
  function OverFetchPage<T>(all: seq<T>, page: nat, size: nat): Page<T> {
    var p := page;
    var docs := Limit(all, (p + 1) * size + 1);
    Page(p, Slice(docs, p * size, p * size + size), p * size, p > 0, |docs| > (p + 1) * size)
  }

  /** Fetching one extra row is enough: the page equals that page of the
      full list, and "next" is offered exactly when the full list goes on
      past it. */
  lemma OverFetchExact<T>(all: seq<T>, page: nat, size: nat)
    ensures var pg := OverFetchPage(all, page, size);
            && pg.items == Slice(all, page * size, page * size + size)
            && (pg.hasNext <==> |all| > (page + 1) * size)
            && (pg.hasPrev <==> page > 0)
  {
    var docs := Limit(all, (page + 1) * size + 1);
    assert (page + 1) * size == page * size + size;
    var a, b := Slice(docs, page * size, page * size + size), Slice(all, page * size, page * size + size);
    assert |a| == |b|;
    assert forall i :: 0 <= i < |a| ==> a[i] == b[i];
  }

  /** With pages of a positive size, over-fetched pages agree with the
      reference cut wherever the latter has a page. */
  lemma OverFetchIsChunk<T>(all: seq<T>, page: nat, size: nat)
    requires size > 0 && page < |Chunks(all, size)|
    ensures OverFetchPage(all, page, size).items == Chunks(all, size)[page]
  {
    OverFetchExact(all, page, size);
    ChunkAt(all, size, page);
  }

  const EventsPageSize: nat := 5

  /** The arrows of the events list: "previous" from page 1 on, "next"
      when the extra row came back. "Next" always leads to a page that
      holds events, and so does "previous" from a page that holds any. */
  lemma EventsNavLeadsSomewhere<T>(all: seq<T>, page: nat, q: nat)
    requires q in NavPages(OverFetchPage(all, page, EventsPageSize))
    ensures q == page + 1 || OverFetchPage(all, page, EventsPageSize).items != [] ==>
              OverFetchPage(all, q, EventsPageSize).items != []
    ensures Decode(Encode(EvpPage(q))) == Some(EvpPage(q))
  {
    OverFetchExact(all, q, EventsPageSize);
    OverFetchExact(all, page, EventsPageSize);
    DecodeEncode(EvpPage(q));
  }

  // ---------------------------------------------------------------------
  // The check-in event picker
  // ---------------------------------------------------------------------

  /** An RSVP document with its id. */
  datatype EventDoc = EventDoc(id: string, poll: Poll)

  const PickPageSize: nat := 6
  const PickLimit: nat := 60

  /** Yesterday, today or tomorrow. */
  predicate Near(e: EventDoc, today: string) {
    -1 <= DiffDays(e.poll.dt, today) <= 1
  }

  function NearOnly(docs: seq<EventDoc>, today: string): (r: seq<EventDoc>)
    ensures |r| <= |docs|
  {
    if docs == [] then []
    else if Near(docs[0], today) then [docs[0]] + NearOnly(docs[1..], today)
    else NearOnly(docs[1..], today)
  }

  /** The filter keeps near events of `docs` only. */
  lemma {:induction false} NearOnlySound(docs: seq<EventDoc>, today: string)
    ensures forall e :: e in NearOnly(docs, today) ==> e in docs && Near(e, today)
  {
    if docs != [] {
      NearOnlySound(docs[1..], today);
    }
  }

  /** Every near event among `docs` is kept. */
  lemma {:induction false} NearOnlyKeeps(docs: seq<EventDoc>, today: string, e: EventDoc)
    requires e in docs && Near(e, today)
    ensures e in NearOnly(docs, today)
  {
    if docs[0] != e {
      assert e in docs[1..];
      NearOnlyKeeps(docs[1..], today, e);
    }
  }

  /** The picker's pool: the near events among the 60 most recent, or all
      60 when none is near. */
  function PickPool(recent: seq<EventDoc>, today: string): (pool: seq<EventDoc>)
    ensures |pool| <= PickLimit
  {
    var docs := Limit(recent, PickLimit);
    var near := NearOnly(docs, today);
    if |near| > 0 then near else docs
  }

  function PickPage(recent: seq<EventDoc>, today: string, page: nat): Page<EventDoc> {
    var pool := PickPool(recent, today);
    Page(page, Slice(pool, page * PickPageSize, page * PickPageSize + PickPageSize), page * PickPageSize,
         page > 0, |pool| > (page + 1) * PickPageSize)
  }

  /** When any of the 60 most recent events is near, the picker lists
      near events only, and all of them. */
  lemma PickPoolPrefersNear(recent: seq<EventDoc>, today: string, e: EventDoc)
    requires e in Limit(recent, PickLimit) && Near(e, today)
    ensures forall x :: x in PickPool(recent, today) ==> Near(x, today)
    ensures forall x :: x in Limit(recent, PickLimit) && Near(x, today) ==> x in PickPool(recent, today)
  {
    var docs := Limit(recent, PickLimit);
    NearOnlyKeeps(docs, today, e);
    NearOnlySound(docs, today);
    assert PickPool(recent, today) == NearOnly(docs, today);
    forall x | x in docs && Near(x, today)
      ensures x in NearOnly(docs, today)
    {
      NearOnlyKeeps(docs, today, x);
    }
  }

  /** When none of them is near, the picker lists the 60 most recent. */
  lemma PickPoolFallback(recent: seq<EventDoc>, today: string)
    requires forall x :: x in Limit(recent, PickLimit) ==> !Near(x, today)
    ensures PickPool(recent, today) == Limit(recent, PickLimit)
  {
    NearOnlyNone(Limit(recent, PickLimit), today);
  }

  /** Without near events the filter keeps nothing. */
  lemma {:induction false} NearOnlyNone(docs: seq<EventDoc>, today: string)
    requires forall x :: x in docs ==> !Near(x, today)
    ensures NearOnly(docs, today) == []
  {
    if docs != [] {
      assert docs[0] in docs;
      assert forall x :: x in docs[1..] ==> x in docs;
      NearOnlyNone(docs[1..], today);
    }
  }

  /** The picker never has more than ten pages: from page 10 on the slice
      is empty and the "no events" screen shows. */
  lemma PickPagesBounded(recent: seq<EventDoc>, today: string, page: nat)
    requires page >= 10
    ensures PickPage(recent, today, page).items == []
    ensures !PickPage(recent, today, page).hasNext
  {
    assert page * PickPageSize >= 60;
  }
}
