/**
 * Reading payment records back from the chain: the id window of `fetchOnChainPayments` in
 * `src/lib/contracts.ts`, and the keyset pages that `GET /api/events/history` cuts from it.
 */
module PaymentHistory {
  import opened Text

  datatype Payment = Payment(
    id: int,
    payer: string,
    payee: string,
    amountStroops: int,
    txHash: string,
    timestamp: Option<int>,
    metadata: Option<string>,
    assetCode: string)

  /** What the contract answers during one call; `None` for a record that cannot be read. */
  datatype Chain = Chain(total: nat, read: int -> Option<Payment>)

  function Min(a: int, b: int): int { if a < b then a else b }

  function Max(a: int, b: int): int { if a < b then b else a }

  // ---------------------------------------------------------------- one read

  function WindowEnd(c: Chain, beforeId: Option<int>): int {
    if beforeId.Some? then Min(c.total, beforeId.value - 1) else c.total
  }

  function WindowStart(end: int, limit: int): int { Max(1, end - limit + 1) }

  /** `low`, ..., `high`, or nothing. */
  function Up(low: int, high: int): seq<int> { seq(Max(0, high - low + 1), i => low + i) }

  /** `high`, ..., `low`, or nothing. */
  function Down(high: int, low: int): seq<int> { seq(Max(0, high - low + 1), i => high - i) }

  function Record(c: Chain): int -> seq<Payment> {
    id => match c.read(id) case None => [] case Some(p) => [p]
  }

  /** The readable records of the window, newest first. */
  function Fetched(c: Chain, limit: int, beforeId: Option<int>): seq<Payment> {
    var end := WindowEnd(c, beforeId);
    FlatMap(Record(c), Down(end, WindowStart(end, limit)))
  }

  /** `fetchOnChainPayments` */
  method FetchOnChainPayments(c: Chain, limit: int, beforeId: Option<int>) returns (payments: seq<Payment>, total: nat)
    ensures payments == Fetched(c, limit, beforeId)
    ensures total == c.total
  {
    total := c.total;
    payments := [];
    var end := if beforeId.Some? then Min(total, beforeId.value - 1) else total;
    var start := Max(1, end - limit + 1);
    if end < 1 || start > end { return; }
    var ids := Up(start, end);
    var i := 0;
    while i < |ids|
      invariant 0 <= i
      invariant payments == FlatMap(Record(c), ids[..Min(i, |ids|)])
    {
      var next := Min(i + 10, |ids|);
      FlatMapSlice(Record(c), ids, i, next);
      var results := ReadChunk(c, ids[i..next]);
      payments := payments + results;
      i := i + 10;
    }
    assert ids[..|ids|] == ids;
    NewestFirst(c, start, end);
    payments := Reversed(payments);
  }

  lemma NewestFirst(c: Chain, start: int, end: int)
    ensures Reversed(FlatMap(Record(c), Up(start, end))) == FlatMap(Record(c), Down(end, start))
  {
    assert Down(end, start) == Reversed(Up(start, end));
    FlatMapReversed(Record(c), Up(start, end));
  }

  /** The inner loop: the records of one chunk that could be read. */
  method ReadChunk(c: Chain, chunk: seq<int>) returns (payments: seq<Payment>)
    ensures payments == FlatMap(Record(c), chunk)
  {
    payments := [];
    for i := 0 to |chunk|
      invariant payments == FlatMap(Record(c), chunk[..i])
    {
      FlatMapSnoc(Record(c), chunk, i);
      var p := c.read(chunk[i]);
      if p.Some? { payments := payments + [p.value]; } else { assert payments + [] == payments; }
    }
    assert chunk[..|chunk|] == chunk;
  }

  // ---------------------------------------------------------------- the ids of what is read

  /** Records are stored under their own id. */
  ghost predicate Keeps(c: Chain) { forall id :: c.read(id).Some? ==> c.read(id).value.id == id }

  predicate AllReadable(c: Chain, low: int, high: int) {
    forall id :: low <= id <= high ==> c.read(id).Some?
  }

  function IdOf(p: Payment): int { p.id }

  function PaymentIds(payments: seq<Payment>): seq<int> { Map(IdOf, payments) }

  function IdIfReadable(c: Chain): int -> seq<int> { id => if c.read(id).Some? then [id] else [] }

  /** The readable ids from `high` down to `low`. */
  function ReadableIds(c: Chain, high: int, low: int): seq<int> { FlatMap(IdIfReadable(c), Down(high, low)) }

  lemma IdsConcat(a: seq<Payment>, b: seq<Payment>)
    ensures PaymentIds(a + b) == PaymentIds(a) + PaymentIds(b)
  {}

  lemma {:induction false} IdsOfRecords(c: Chain, ids: seq<int>)
    requires Keeps(c)
    ensures PaymentIds(FlatMap(Record(c), ids)) == FlatMap(IdIfReadable(c), ids)
  {
    if ids != [] {
      IdsOfRecords(c, ids[1..]);
      IdsConcat(Record(c)(ids[0]), FlatMap(Record(c), ids[1..]));
      IdOfRecord(c, ids[0]);
    }
  }

  lemma IdOfRecord(c: Chain, id: int)
    requires Keeps(c)
    ensures PaymentIds(Record(c)(id)) == IdIfReadable(c)(id)
  {}

  /** A read returns the readable ids of its window, newest first. */
  lemma FetchedIds(c: Chain, limit: int, beforeId: Option<int>)
    requires Keeps(c)
    ensures var end := WindowEnd(c, beforeId);
            PaymentIds(Fetched(c, limit, beforeId)) == ReadableIds(c, end, WindowStart(end, limit))
  {
    var end := WindowEnd(c, beforeId);
    IdsOfRecords(c, Down(end, WindowStart(end, limit)));
  }

  lemma {:induction false} AllOf(c: Chain, ids: seq<int>)
    requires forall i :: 0 <= i < |ids| ==> c.read(ids[i]).Some?
    ensures FlatMap(IdIfReadable(c), ids) == ids
  {
    if ids != [] {
      AllOf(c, ids[1..]);
      assert ids == [ids[0]] + ids[1..];
    }
  }

  lemma {:induction false} NotAllOf(c: Chain, ids: seq<int>, i: nat)
    requires i < |ids| && c.read(ids[i]).None?
    ensures |FlatMap(IdIfReadable(c), ids)| < |ids|
  {
    AtMostAllOf(c, ids[1..]);
    if i > 0 { NotAllOf(c, ids[1..], i - 1); }
  }

  lemma {:induction false} AtMostAllOf(c: Chain, ids: seq<int>)
    ensures |FlatMap(IdIfReadable(c), ids)| <= |ids|
    ensures forall id :: id in FlatMap(IdIfReadable(c), ids) ==> id in ids
  {
    if ids != [] { AtMostAllOf(c, ids[1..]); }
  }

  lemma ReadableSplit(c: Chain, high: int, mid: int, low: int)
    requires low <= mid <= high + 1
    ensures ReadableIds(c, high, low) == ReadableIds(c, high, mid) + ReadableIds(c, mid - 1, low)
  {
    assert Down(high, low) == Down(high, mid) + Down(mid - 1, low);
    FlatMapConcat(IdIfReadable(c), Down(high, mid), Down(mid - 1, low));
  }

  lemma {:induction false} NoneOf(c: Chain, ids: seq<int>)
    ensures FlatMap(IdIfReadable(c), ids) == [] <==> forall i :: 0 <= i < |ids| ==> c.read(ids[i]).None?
  {
    if ids != [] {
      NoneOf(c, ids[1..]);
      assert forall i :: 1 <= i < |ids| ==> ids[i] == ids[1..][i - 1];
    }
  }

  // ---------------------------------------------------------------- one page

  datatype Page = Page(events: seq<Payment>, next: Option<int>)

  /** One record more than the page holds tells whether there is another page. */
  function CutPage(rows: seq<Payment>, limit: nat): Page
    requires limit >= 1
  {
    if |rows| <= limit then Page(rows, None) else Page(rows[..limit], Some(rows[limit - 1].id))
  }

  /** The history route. */
  function HistoryPage(c: Chain, limit: nat, beforeId: Option<int>): Page
    requires limit >= 1
  {
    CutPage(Fetched(c, limit + 1, beforeId), limit)
  }

  /** Asking without a cursor is asking from any anchor above the newest record. */
  lemma NoCursor(c: Chain, limit: nat, anchor: nat)
    requires limit >= 1 && anchor > c.total
    ensures HistoryPage(c, limit, None) == HistoryPage(c, limit, Some(anchor))
  {}

  /** The lowest id a page starting below `anchor` looks at. */
  function WindowLow(limit: nat, anchor: nat): int { Max(1, anchor - 1 - limit) }

  lemma RowIds(c: Chain, limit: nat, anchor: nat)
    requires Keeps(c) && limit >= 1 && anchor <= c.total + 1
    ensures PaymentIds(Fetched(c, limit + 1, Some(anchor))) == ReadableIds(c, anchor - 1, WindowLow(limit, anchor))
  {
    FetchedIds(c, limit + 1, Some(anchor));
  }

  lemma NextIsOlder(c: Chain, limit: nat, anchor: nat)
    requires Keeps(c) && limit >= 1
    ensures var page := HistoryPage(c, limit, Some(anchor)); page.next.Some? ==> 1 <= page.next.value < anchor
  {
    var end := WindowEnd(c, Some(anchor));
    var rows := Fetched(c, limit + 1, Some(anchor));
    FetchedIds(c, limit + 1, Some(anchor));
    AtMostAllOf(c, Down(end, WindowStart(end, limit + 1)));
    if |rows| > limit {
      assert PaymentIds(rows)[limit - 1] in Down(end, WindowStart(end, limit + 1));
    }
  }

  /** A page that holds the newest ids below its anchor, all of them if they fit. */
  predicate IsFull(page: Page, limit: nat, anchor: nat) {
    if anchor - 1 <= limit then page.next == None && PaymentIds(page.events) == Down(anchor - 1, 1)
    else page.next == Some(anchor - limit) && PaymentIds(page.events) == Down(anchor - 1, anchor - limit)
  }

  lemma CutFull(rows: seq<Payment>, limit: nat, anchor: nat)
    requires limit >= 1 && anchor >= 1 && PaymentIds(rows) == Down(anchor - 1, WindowLow(limit, anchor))
    ensures IsFull(CutPage(rows, limit), limit, anchor)
  {
    assert |rows| == |PaymentIds(rows)|;
    if |rows| > limit {
      assert PaymentIds(rows[..limit]) == PaymentIds(rows)[..limit];
      assert rows[limit - 1].id == PaymentIds(rows)[limit - 1];
    }
  }

  /** A page all of whose window can be read. */
  lemma FullPage(c: Chain, limit: nat, anchor: nat)
    requires Keeps(c) && limit >= 1 && 1 <= anchor <= c.total + 1
    requires AllReadable(c, WindowLow(limit, anchor), anchor - 1)
    ensures IsFull(HistoryPage(c, limit, Some(anchor)), limit, anchor)
  {
    RowIds(c, limit, anchor);
    AllOf(c, Down(anchor - 1, WindowLow(limit, anchor)));
    CutFull(Fetched(c, limit + 1, Some(anchor)), limit, anchor);
  }

  /** A page that ends the walk with the readable ids of its window. */
  predicate IsLast(page: Page, c: Chain, limit: nat, anchor: nat) {
    page.next == None && PaymentIds(page.events) == ReadableIds(c, anchor - 1, WindowLow(limit, anchor))
  }

  lemma FewReadable(c: Chain, high: int, low: int, gap: int)
    requires low <= gap <= high && c.read(gap).None?
    ensures |ReadableIds(c, high, low)| <= high - low
  {
    assert Down(high, low)[high - gap] == gap;
    NotAllOf(c, Down(high, low), high - gap);
  }

  /** A page with an unreadable id in its window has no next page. */
  lemma GappedPage(c: Chain, limit: nat, anchor: nat, gap: int)
    requires Keeps(c) && limit >= 1 && 1 <= anchor <= c.total + 1
    requires WindowLow(limit, anchor) <= gap <= anchor - 1 && c.read(gap).None?
    ensures IsLast(HistoryPage(c, limit, Some(anchor)), c, limit, anchor)
  {
    RowIds(c, limit, anchor);
    FewReadable(c, anchor - 1, WindowLow(limit, anchor), gap);
  }

  // ---------------------------------------------------------------- following the pages

  /** The page a client gets at its `k`-th call, asking from an anchor. */
  type Pager = (nat, nat) -> Page

  ghost predicate Descends(page: Pager) {
    forall k: nat, anchor: nat :: page(k, anchor).next.Some? ==> 1 <= page(k, anchor).next.value < anchor
  }

  /** Page after page from `anchor` on. */
  ghost function Follow(page: Pager, k: nat, anchor: nat): (pages: seq<Page>)
    requires Descends(page)
    ensures |pages| >= 1
    decreases anchor
  {
    if page(k, anchor).next.None? then [page(k, anchor)]
    else [page(k, anchor)] + Follow(page, k + 1, page(k, anchor).next.value)
  }

  function EventsOf(page: Page): seq<Payment> { page.events }

  function EventIds(pages: seq<Page>): seq<int> { PaymentIds(FlatMap(EventsOf, pages)) }

  predicate NoneEmpty(pages: seq<Page>) { forall i :: 0 <= i < |pages| ==> pages[i].events != [] }

  lemma OnePageIds(page: Page)
    ensures EventIds([page]) == PaymentIds(page.events)
  {
    FlatMapOne(EventsOf, page);
  }

  lemma ConsPageIds(page: Page, rest: seq<Page>)
    ensures EventIds([page] + rest) == PaymentIds(page.events) + EventIds(rest)
  {
    FlatMapCons(EventsOf, page, rest);
    IdsConcat(page.events, FlatMap(EventsOf, rest));
  }

  lemma ConsNoneEmpty(page: Page, rest: seq<Page>)
    requires page.events != [] && NoneEmpty(rest)
    ensures NoneEmpty([page] + rest)
  {}

  /**
   * All ids below the anchor once, newest first, in the least number of pages that can hold them,
   * none of them empty.
   */
  predicate ListsAll(pages: seq<Page>, limit: nat, anchor: nat) {
    && EventIds(pages) == Down(anchor - 1, 1)
    && (|pages| - 1) * limit < Max(1, anchor - 1) <= |pages| * limit
    && (anchor > 1 ==> NoneEmpty(pages))
  }

  lemma SomeEvents(page: Page)
    ensures |PaymentIds(page.events)| == |page.events|
  {}

  lemma ListsOne(page: Page, limit: nat, anchor: nat)
    requires limit >= 1 && 1 <= anchor <= limit + 1 && IsFull(page, limit, anchor)
    ensures ListsAll([page], limit, anchor)
  {
    OnePageIds(page);
    SomeEvents(page);
    assert |[page]| * limit == limit;
  }

  lemma DownConcat(high: int, mid: int, low: int)
    requires low <= mid <= high + 1
    ensures Down(high, mid) + Down(mid - 1, low) == Down(high, low)
  {}

  lemma PageCount(rest: nat, limit: nat, n: nat)
    requires n > limit >= 1 && (rest - 1) * limit < Max(1, n - limit) <= rest * limit
    ensures rest * limit < n <= (rest + 1) * limit
  {
    assert (rest - 1) * limit == rest * limit - limit && (rest + 1) * limit == rest * limit + limit;
  }

  lemma ListsCons(page: Page, rest: seq<Page>, limit: nat, anchor: nat)
    requires limit >= 1 && anchor > limit + 1 && IsFull(page, limit, anchor) && ListsAll(rest, limit, anchor - limit)
    ensures ListsAll([page] + rest, limit, anchor)
  {
    ConsPageIds(page, rest);
    SomeEvents(page);
    DownConcat(anchor - 1, anchor - limit, 1);
    PageCount(|rest|, limit, anchor - 1);
    ConsNoneEmpty(page, rest);
  }

  ghost predicate AllFull(page: Pager, k: nat, limit: nat, anchor: nat) {
    forall k': nat, a: nat :: k <= k' && 1 <= a <= anchor ==> IsFull(page(k', a), limit, a)
  }

  lemma {:induction false} FollowFull(page: Pager, k: nat, limit: nat, anchor: nat)
    requires limit >= 1 && anchor >= 1 && Descends(page) && AllFull(page, k, limit, anchor)
    ensures ListsAll(Follow(page, k, anchor), limit, anchor)
    decreases anchor
  {
    assert IsFull(page(k, anchor), limit, anchor);
    if anchor - 1 <= limit {
      ListsOne(page(k, anchor), limit, anchor);
    } else {
      FollowFull(page, k + 1, limit, anchor - limit);
      ListsCons(page(k, anchor), Follow(page, k + 1, anchor - limit), limit, anchor);
    }
  }

  /** The route, asked by one client while the chain goes on. */
  function History(chains: nat -> Chain, limit: nat): Pager
    requires limit >= 1
  {
    (k: nat, anchor: nat) => HistoryPage(chains(k), limit, Some(anchor))
  }

  ghost predicate AllKeep(chains: nat -> Chain) { forall i :: Keeps(chains(i)) }

  lemma HistoryDescends(chains: nat -> Chain, limit: nat)
    requires limit >= 1 && AllKeep(chains)
    ensures Descends(History(chains, limit))
  {
    forall k: nat, anchor: nat
      ensures var p := History(chains, limit)(k, anchor); p.next.Some? ==> 1 <= p.next.value < anchor
    {
      NextIsOlder(chains(k), limit, anchor);
    }
  }

  /** Records are only ever appended, and every one can be read. */
  ghost predicate Appends(chains: nat -> Chain) {
    && AllKeep(chains)
    && (forall i :: AllReadable(chains(i), 1, chains(i).total))
    && forall i, j :: i <= j ==> chains(i).total <= chains(j).total
  }

  /** All pages from the `k`th call on, when that call asks from an anchor. */
  ghost function Pages(chains: nat -> Chain, k: nat, limit: nat, anchor: nat): (pages: seq<Page>)
    requires limit >= 1 && AllKeep(chains)
    ensures |pages| >= 1
  {
    HistoryDescends(chains, limit);
    Follow(History(chains, limit), k, anchor)
  }

  /** The walk of a client whose first request has no cursor. */
  ghost function WholeWalk(chains: nat -> Chain, k: nat, limit: nat): seq<Page>
    requires limit >= 1 && AllKeep(chains)
  {
    var first := HistoryPage(chains(k), limit, None);
    if first.next.None? then [first]
    else
      NoCursor(chains(k), limit, chains(k).total + 1);
      NextIsOlder(chains(k), limit, chains(k).total + 1);
      [first] + Pages(chains, k + 1, limit, first.next.value)
  }

  lemma PagesUnfold(chains: nat -> Chain, k: nat, limit: nat, anchor: nat)
    requires limit >= 1 && AllKeep(chains)
    ensures var page := HistoryPage(chains(k), limit, Some(anchor));
            if page.next.None? then Pages(chains, k, limit, anchor) == [page]
            else 1 <= page.next.value < anchor
                 && Pages(chains, k, limit, anchor) == [page] + Pages(chains, k + 1, limit, page.next.value)
  {
    HistoryDescends(chains, limit);
    assert History(chains, limit)(k, anchor) == HistoryPage(chains(k), limit, Some(anchor));
  }

  /** The first request may as well have asked from anywhere above the count it is answered with. */
  lemma FromTheStart(chains: nat -> Chain, k: nat, limit: nat, anchor: nat)
    requires limit >= 1 && AllKeep(chains) && anchor > chains(k).total
    ensures WholeWalk(chains, k, limit) == Pages(chains, k, limit, anchor)
  {
    NoCursor(chains(k), limit, anchor);
    NoCursor(chains(k), limit, chains(k).total + 1);
    NextIsOlder(chains(k), limit, chains(k).total + 1);
    PagesUnfold(chains, k, limit, anchor);
  }

  /**
   * When every record can be read, following the cursors lists the whole history below the anchor,
   * whatever is appended to the chain in the meantime.
   */
  lemma KeysetWalk(chains: nat -> Chain, k: nat, limit: nat, anchor: nat)
    requires limit >= 1 && Appends(chains) && 1 <= anchor <= chains(k).total + 1
    ensures ListsAll(Pages(chains, k, limit, anchor), limit, anchor)
  {
    var page := History(chains, limit);
    HistoryDescends(chains, limit);
    forall k': nat, a: nat | k <= k' && 1 <= a <= anchor ensures IsFull(page(k', a), limit, a) {
      assert chains(k).total <= chains(k').total;
      FullPage(chains(k'), limit, a);
    }
    FollowFull(page, k, limit, anchor);
  }

  /** The same from the first request on: `total`, ..., 1. */
  lemma KeysetWalkFromStart(chains: nat -> Chain, k: nat, limit: nat)
    requires limit >= 1 && Appends(chains)
    ensures ListsAll(WholeWalk(chains, k, limit), limit, chains(k).total + 1)
  {
    FromTheStart(chains, k, limit, chains(k).total + 1);
    KeysetWalk(chains, k, limit, chains(k).total + 1);
  }

  // ---------------------------------------------------------------- with calls that fail

  /**
   * A call that answers in full and has a next page: the count reaches the anchor and every record
   * of the window can be read.
   */
  predicate Good(c: Chain, limit: nat, anchor: nat) {
    limit + 1 < anchor <= c.total + 1 && AllReadable(c, anchor - 1 - limit, anchor - 1)
  }

  /** The anchor of the `j`th call from here when those before it are good. */
  function AnchorAt(anchor: nat, limit: nat, j: nat): nat
    decreases j
  {
    if j == 0 then anchor else AnchorAt(if anchor > limit then anchor - limit else 0, limit, j - 1)
  }

  ghost predicate GoodUntil(chains: nat -> Chain, k: nat, limit: nat, anchor: nat, j: nat)
    decreases j
  {
    j == 0 || (Good(chains(k), limit, anchor) && GoodUntil(chains, k + 1, limit, anchor - limit, j - 1))
  }

  lemma GoodStep(chains: nat -> Chain, k: nat, limit: nat, anchor: nat) returns (page: Page)
    requires limit >= 1 && AllKeep(chains) && Good(chains(k), limit, anchor)
    ensures IsFull(page, limit, anchor)
    ensures Pages(chains, k, limit, anchor) == [page] + Pages(chains, k + 1, limit, anchor - limit)
  {
    page := HistoryPage(chains(k), limit, Some(anchor));
    FullPage(chains(k), limit, anchor);
    PagesUnfold(chains, k, limit, anchor);
  }

  /** A call answered with a count below its anchor goes on from that count. */
  lemma LowCount(chains: nat -> Chain, k: nat, limit: nat, anchor: nat)
    requires limit >= 1 && AllKeep(chains) && chains(k).total < anchor - 1
    ensures Pages(chains, k, limit, anchor) == Pages(chains, k, limit, chains(k).total + 1)
  {
    NoCursor(chains(k), limit, anchor);
    NoCursor(chains(k), limit, chains(k).total + 1);
    PagesUnfold(chains, k, limit, anchor);
    PagesUnfold(chains, k, limit, chains(k).total + 1);
  }

  lemma FewInShortWindow(c: Chain, limit: nat, anchor: nat)
    requires 1 <= anchor <= limit + 1
    ensures |ReadableIds(c, anchor - 1, WindowLow(limit, anchor))| <= limit
  {
    AtMostAllOf(c, Down(anchor - 1, WindowLow(limit, anchor)));
  }

  /** Otherwise a call that is not good is the last, with the readable ids of its window. */
  lemma LastCall(c: Chain, limit: nat, anchor: nat)
    requires Keeps(c) && limit >= 1 && 1 <= anchor <= c.total + 1 && !Good(c, limit, anchor)
    ensures IsLast(HistoryPage(c, limit, Some(anchor)), c, limit, anchor)
  {
    if anchor <= limit + 1 {
      RowIds(c, limit, anchor);
      FewInShortWindow(c, limit, anchor);
    } else {
      var gap :| anchor - 1 - limit <= gap <= anchor - 1 && c.read(gap).None?;
      GappedPage(c, limit, anchor, gap);
    }
  }

  lemma LastCallIds(chains: nat -> Chain, k: nat, limit: nat, anchor: nat)
    requires limit >= 1 && AllKeep(chains) && 1 <= anchor <= chains(k).total + 1 && !Good(chains(k), limit, anchor)
    ensures EventIds(Pages(chains, k, limit, anchor)) == ReadableIds(chains(k), anchor - 1, WindowLow(limit, anchor))
  {
    LastCall(chains(k), limit, anchor);
    PagesUnfold(chains, k, limit, anchor);
    OnePageIds(HistoryPage(chains(k), limit, Some(anchor)));
  }

  // ---------------------------------------------------------------- what a walk misses

  lemma InDown(id: int, high: int, low: int)
    ensures id in Down(high, low) <==> low <= id <= high
  {
    if low <= id <= high { assert Down(high, low)[high - id] == id; }
  }

  lemma {:induction false} InFlatMap(c: Chain, ids: seq<int>, id: int)
    ensures id in FlatMap(IdIfReadable(c), ids) <==> id in ids && c.read(id).Some?
  {
    if ids != [] {
      InFlatMap(c, ids[1..], id);
      assert ids == [ids[0]] + ids[1..];
      assert FlatMap(IdIfReadable(c), ids) == IdIfReadable(c)(ids[0]) + FlatMap(IdIfReadable(c), ids[1..]);
    }
  }

  lemma InReadable(c: Chain, high: int, low: int, id: int)
    ensures id in ReadableIds(c, high, low) <==> low <= id <= high && c.read(id).Some?
  {
    InFlatMap(c, Down(high, low), id);
    InDown(id, high, low);
  }

  /**
   * The ids that a walk lists when each call is answered by a chain of its own: a good call lists its
   * whole page; a call whose count is below its anchor goes on from the count; any other call is the
   * last, with the readable ids of its window.
   */
  ghost function Listed(chains: nat -> Chain, k: nat, limit: nat, anchor: nat): seq<int>
    requires limit >= 1 && anchor >= 1
    decreases anchor
  {
    var c := chains(k);
    if c.total < anchor - 1 then Listed(chains, k, limit, c.total + 1)
    else if Good(c, limit, anchor) then Down(anchor - 1, anchor - limit) + Listed(chains, k + 1, limit, anchor - limit)
    else ReadableIds(c, anchor - 1, WindowLow(limit, anchor))
  }

  lemma ListingLow(chains: nat -> Chain, k: nat, limit: nat, anchor: nat)
    requires limit >= 1 && AllKeep(chains) && chains(k).total < anchor - 1
    requires EventIds(Pages(chains, k, limit, chains(k).total + 1)) == Listed(chains, k, limit, chains(k).total + 1)
    ensures EventIds(Pages(chains, k, limit, anchor)) == Listed(chains, k, limit, anchor)
  {
    LowCount(chains, k, limit, anchor);
  }

  lemma ListingGood(chains: nat -> Chain, k: nat, limit: nat, anchor: nat)
    requires limit >= 1 && AllKeep(chains) && Good(chains(k), limit, anchor)
    requires EventIds(Pages(chains, k + 1, limit, anchor - limit)) == Listed(chains, k + 1, limit, anchor - limit)
    ensures EventIds(Pages(chains, k, limit, anchor)) == Listed(chains, k, limit, anchor)
  {
    var page := GoodStep(chains, k, limit, anchor);
    ConsPageIds(page, Pages(chains, k + 1, limit, anchor - limit));
  }

  lemma {:induction false} WalkListing(chains: nat -> Chain, k: nat, limit: nat, anchor: nat)
    requires limit >= 1 && AllKeep(chains) && anchor >= 1
    ensures EventIds(Pages(chains, k, limit, anchor)) == Listed(chains, k, limit, anchor)
    decreases anchor
  {
    if chains(k).total < anchor - 1 {
      WalkListing(chains, k, limit, chains(k).total + 1);
      ListingLow(chains, k, limit, anchor);
    } else if Good(chains(k), limit, anchor) {
      WalkListing(chains, k + 1, limit, anchor - limit);
      ListingGood(chains, k, limit, anchor);
    } else {
      LastCallIds(chains, k, limit, anchor);
    }
  }

  lemma {:induction false} ListedBelow(chains: nat -> Chain, k: nat, limit: nat, anchor: nat, id: int)
    requires limit >= 1 && anchor >= 1 && id in Listed(chains, k, limit, anchor)
    ensures id < anchor
    decreases anchor
  {
    var c := chains(k);
    if c.total < anchor - 1 {
      ListedBelow(chains, k, limit, c.total + 1, id);
    } else if Good(c, limit, anchor) {
      InDown(id, anchor - 1, anchor - limit);
      if id in Listed(chains, k + 1, limit, anchor - limit) { ListedBelow(chains, k + 1, limit, anchor - limit, id); }
    } else {
      InReadable(c, anchor - 1, WindowLow(limit, anchor), id);
    }
  }

  /** Every wanted record below the anchor is among the ids. */
  ghost predicate Covers(ids: seq<int>, anchor: nat, wanted: int -> bool) {
    forall id :: 1 <= id < anchor && wanted(id) ==> id in ids
  }

  /** The pages list every wanted record below the anchor. */
  ghost predicate Complete(pages: seq<Page>, anchor: nat, wanted: int -> bool) {
    Covers(EventIds(pages), anchor, wanted)
  }

  /** Everything wanted below the anchor is in the window and can be read. */
  ghost predicate InWindow(c: Chain, limit: nat, anchor: nat, wanted: int -> bool)
    requires limit >= 1 && anchor >= 1
  {
    forall id :: 1 <= id < anchor && wanted(id) ==> WindowLow(limit, anchor) <= id && c.read(id).Some?
  }

  ghost predicate NoneBetween(total: nat, anchor: nat, wanted: int -> bool) {
    forall id :: total < id < anchor ==> !wanted(id)
  }

  /**
   * Of the counts, windows and reads that the calls meet: nothing wanted lies between a count and its
   * anchor, and at the last call nothing wanted lies below the window or is unreadable in it.
   */
  ghost predicate NothingMissed(chains: nat -> Chain, k: nat, limit: nat, anchor: nat, wanted: int -> bool)
    requires limit >= 1 && anchor >= 1
    decreases anchor
  {
    var c := chains(k);
    if c.total < anchor - 1 then
      NoneBetween(c.total, anchor, wanted) && NothingMissed(chains, k, limit, c.total + 1, wanted)
    else if Good(c, limit, anchor) then NothingMissed(chains, k + 1, limit, anchor - limit, wanted)
    else InWindow(c, limit, anchor, wanted)
  }

  lemma CoversBelow(ids: seq<int>, total: nat, anchor: nat, wanted: int -> bool)
    requires total < anchor && forall id :: id in ids ==> id <= total
    ensures Covers(ids, anchor, wanted) <==> NoneBetween(total, anchor, wanted) && Covers(ids, total + 1, wanted)
  {}

  lemma CoversThen(ids: seq<int>, anchor: nat, low: nat, wanted: int -> bool)
    requires low <= anchor
    ensures Covers(Down(anchor - 1, low) + ids, anchor, wanted) <==> Covers(ids, low, wanted)
  {
    forall id: int ensures id in Down(anchor - 1, low) + ids <==> low <= id <= anchor - 1 || id in ids {
      InDown(id, anchor - 1, low);
    }
  }

  lemma CoversWindow(c: Chain, limit: nat, anchor: nat, wanted: int -> bool)
    requires limit >= 1 && anchor >= 1
    ensures Covers(ReadableIds(c, anchor - 1, WindowLow(limit, anchor)), anchor, wanted) <==>
            InWindow(c, limit, anchor, wanted)
  {
    var ids := ReadableIds(c, anchor - 1, WindowLow(limit, anchor));
    forall id: int ensures id in ids <==> WindowLow(limit, anchor) <= id <= anchor - 1 && c.read(id).Some? {
      InReadable(c, anchor - 1, WindowLow(limit, anchor), id);
    }
    assert Covers(ids, anchor, wanted) <==> InWindow(c, limit, anchor, wanted);
  }

  lemma CoversLow(chains: nat -> Chain, k: nat, limit: nat, anchor: nat, wanted: int -> bool)
    requires limit >= 1 && chains(k).total < anchor - 1
    ensures var total := chains(k).total;
            Covers(Listed(chains, k, limit, anchor), anchor, wanted) <==>
            NoneBetween(total, anchor, wanted) && Covers(Listed(chains, k, limit, total + 1), total + 1, wanted)
  {
    var total := chains(k).total;
    var ids := Listed(chains, k, limit, total + 1);
    forall id: int | id in ids ensures id <= total { ListedBelow(chains, k, limit, total + 1, id); }
    CoversBelow(ids, total, anchor, wanted);
  }

  lemma CoversGood(chains: nat -> Chain, k: nat, limit: nat, anchor: nat, wanted: int -> bool)
    requires limit >= 1 && Good(chains(k), limit, anchor)
    ensures Covers(Listed(chains, k, limit, anchor), anchor, wanted) <==>
            Covers(Listed(chains, k + 1, limit, anchor - limit), anchor - limit, wanted)
  {
    CoversThen(Listed(chains, k + 1, limit, anchor - limit), anchor, anchor - limit, wanted);
  }

  lemma {:induction false} ListedCovers(chains: nat -> Chain, k: nat, limit: nat, anchor: nat, wanted: int -> bool)
    requires limit >= 1 && anchor >= 1
    ensures Covers(Listed(chains, k, limit, anchor), anchor, wanted) <==>
            NothingMissed(chains, k, limit, anchor, wanted)
    decreases anchor
  {
    if chains(k).total < anchor - 1 {
      CoversLow(chains, k, limit, anchor, wanted);
      ListedCovers(chains, k, limit, chains(k).total + 1, wanted);
    } else if Good(chains(k), limit, anchor) {
      CoversGood(chains, k, limit, anchor, wanted);
      ListedCovers(chains, k + 1, limit, anchor - limit, wanted);
    } else {
      CoversWindow(chains(k), limit, anchor, wanted);
    }
  }

  /** The exact condition, for any records one wants listed and whatever fails at which call. */
  lemma WalkCompleteIff(chains: nat -> Chain, k: nat, limit: nat, anchor: nat, wanted: int -> bool)
    requires limit >= 1 && AllKeep(chains) && anchor >= 1
    ensures Complete(Pages(chains, k, limit, anchor), anchor, wanted) <==>
            NothingMissed(chains, k, limit, anchor, wanted)
  {
    WalkListing(chains, k, limit, anchor);
    ListedCovers(chains, k, limit, anchor, wanted);
  }

  lemma {:induction false} GoodCallsMissNothing(
      chains: nat -> Chain, k: nat, limit: nat, anchor: nat, j: nat, wanted: int -> bool)
    requires limit >= 1 && anchor >= 1 && GoodUntil(chains, k, limit, anchor, j)
    ensures AnchorAt(anchor, limit, j) >= 1
    ensures NothingMissed(chains, k, limit, anchor, wanted) <==>
            NothingMissed(chains, k + j, limit, AnchorAt(anchor, limit, j), wanted)
    decreases j
  {
    if j > 0 {
      GoodCallsMissNothing(chains, k + 1, limit, anchor - limit, j - 1, wanted);
      assert k + 1 + (j - 1) == k + j;
    }
  }

  /** A count that cannot be read is answered as zero: the walk ends, and nothing below it is listed. */
  lemma FailedCountHidesOlder(chains: nat -> Chain, k: nat, limit: nat, anchor: nat, j: nat, wanted: int -> bool)
    requires limit >= 1 && AllKeep(chains) && anchor >= 1
    requires GoodUntil(chains, k, limit, anchor, j) && chains(k + j).total == 0
    ensures Complete(Pages(chains, k, limit, anchor), anchor, wanted) <==>
            NoneBetween(0, AnchorAt(anchor, limit, j), wanted)
  {
    WalkCompleteIff(chains, k, limit, anchor, wanted);
    GoodCallsMissNothing(chains, k, limit, anchor, j, wanted);
    FromZeroCount(chains, k + j, limit, AnchorAt(anchor, limit, j), wanted);
  }

  lemma FromZeroCount(chains: nat -> Chain, k: nat, limit: nat, anchor: nat, wanted: int -> bool)
    requires limit >= 1 && anchor >= 1 && chains(k).total == 0
    ensures NothingMissed(chains, k, limit, anchor, wanted) <==> NoneBetween(0, anchor, wanted)
  {}

  /** A newest record that cannot be read at the first call leaves a single page of the others. */
  lemma FailedReadHidesOlder(chains: nat -> Chain, k: nat, limit: nat)
    requires limit >= 1 && AllKeep(chains)
    requires var c := chains(k);
             c.total > limit + 1 && c.read(c.total).None? && AllReadable(c, c.total - limit, c.total - 1)
    ensures var total := chains(k).total; EventIds(WholeWalk(chains, k, limit)) == Down(total - 1, total - limit)
  {
    var c := chains(k);
    FromTheStart(chains, k, limit, c.total + 1);
    LastCallIds(chains, k, limit, c.total + 1);
    AllButNewest(c, c.total, c.total - limit);
  }

  lemma AllButNewest(c: Chain, high: int, low: int)
    requires low <= high && c.read(high).None? && AllReadable(c, low, high - 1)
    ensures ReadableIds(c, high, low) == Down(high - 1, low)
  {
    ReadableSplit(c, high, high, low);
    NoneOf(c, Down(high, high));
    AllOf(c, Down(high - 1, low));
  }
}
