/** Harvesting JD orders: every window is paged, by number or by cursor, and no window beyond 100 pages. */
module JdOrders {
  import opened Arith
  import opened JdWindows
  import opened Sequences

  datatype Order = Order(id: string, time: int, sortValue: string)

  datatype Reply = Failed(error: string) | Found(orders: seq<Order>)

  /** What a paging loop ends with, and how many requests it sent. */
  datatype Outcome = Outcome(reply: Reply, requests: nat)

  const MAX_PAGES := 100

  function Min(a: int, b: int): int { if a < b then a else b }

  function Take(s: seq<Order>, n: int): seq<Order> {
    if n <= 0 then [] else if n < |s| then s[..n] else s
  }

  /** The orders of a window, in list order. */
  function InWindow(orders: seq<Order>, w: Window): seq<Order> {
    if orders == [] then []
    else (if w.start <= orders[0].time < w.end then [orders[0]] else []) + InWindow(orders[1..], w)
  }

  /** An order is in a window when its time is, as often as it is listed. */
  lemma {:induction false} InWindowSpelledOut(orders: seq<Order>, w: Window, o: Order)
    ensures multiset(InWindow(orders, w))[o] == if w.start <= o.time < w.end then multiset(orders)[o] else 0
  {
    if orders != [] {
      InWindowSpelledOut(orders[1..], w, o);
      assert orders == [orders[0]] + orders[1..];
    }
  }

  /** The orders of a reply; none for a failure. */
  function PageOf(reply: Reply): seq<Order> {
    if reply.Found? then reply.orders else []
  }

  /** What replies came to: the last one when that failed, otherwise their orders one behind the other. */
  function Gathered(replies: seq<Reply>): Reply
    requires replies != []
  {
    if replies[|replies| - 1].Failed? then replies[|replies| - 1]
    else Found(Concat(Pages(replies)))
  }

  function Pages(replies: seq<Reply>): (ps: seq<seq<Order>>)
    ensures |ps| == |replies|
    ensures forall i :: 0 <= i < |ps| ==> if replies[i].Found? then ps[i] == replies[i].orders else ps[i] == []
  {
    seq(|replies|, i requires 0 <= i < |replies| => PageOf(replies[i]))
  }

  lemma PagesSnoc(replies: seq<Reply>, reply: Reply)
    ensures Concat(Pages(replies + [reply])) == Concat(Pages(replies)) + PageOf(reply)
  {
    assert Pages(replies + [reply]) == Pages(replies) + [PageOf(reply)];
    ConcatSnoc(Pages(replies), PageOf(reply));
  }

  // ---------------------------------------------------------------- paging by cursor

  /** Answers the request (window, pageNo, pageSize, sortValue). */
  type BonusServer = (Window, int, int, string) -> Reply

  /** The last non-empty sort value of a page. */
  function LastCursor(page: seq<Order>): string {
    if page == [] then ""
    else if page[|page| - 1].sortValue != "" then page[|page| - 1].sortValue
    else LastCursor(page[..|page| - 1])
  }

  /** Order i of the page has a sort value and no later one has. */
  ghost predicate LastNamed(page: seq<Order>, i: nat) {
    i < |page| && page[i].sortValue != "" && forall j :: i < j < |page| ==> page[j].sortValue == ""
  }

  /** The last non-empty sort value of the page, empty when all are. */
  ghost predicate IsCursor(page: seq<Order>, c: string) {
    if c == "" then forall i :: 0 <= i < |page| ==> page[i].sortValue == ""
    else exists i: nat :: LastNamed(page, i) && page[i].sortValue == c
  }

  method CursorOf(page: seq<Order>) returns (next: string)
    ensures next == LastCursor(page)
    ensures IsCursor(page, next)
  {
    next := "";
    ghost var last: nat := 0;
    for i := 0 to |page|
      invariant next == LastCursor(page[..i])
      invariant next == "" ==> forall k :: 0 <= k < i ==> page[k].sortValue == ""
      invariant next != "" ==> LastNamed(page[..i], last) && page[last].sortValue == next
    {
      assert page[..i + 1][..i] == page[..i];
      if page[i].sortValue != "" {
        last := i;
        next := page[i].sortValue;
      }
    }
    assert page[..|page|] == page;
  }

  /** The cursor loop from page pageNo on. */
  function BonusRun(server: BonusServer, w: Window, size: int, pageNo: int, sortValue: string): Outcome
    decreases MAX_PAGES + 1 - pageNo
  {
    match server(w, pageNo, size, sortValue)
    case Failed(e) => Outcome(Failed(e), 1)
    case Found(page) =>
      var next := LastCursor(page);
      if next == "" || page == [] || pageNo + 1 > MAX_PAGES then Outcome(Found(page), 1)
      else Before(page, 1, BonusRun(server, w, size, pageNo + 1, next))
  }

  function Before(orders: seq<Order>, requests: nat, rest: Outcome): Outcome {
    Outcome(match rest.reply case Failed(e) => Failed(e) case Found(more) => Found(orders + more),
            requests + rest.requests)
  }

  lemma BeforeTwice(a: seq<Order>, m: nat, b: seq<Order>, n: nat, rest: Outcome)
    ensures Before(a, m, Before(b, n, rest)) == Before(a + b, m + n, rest)
  {
    if rest.reply.Found? {
      assert a + (b + rest.reply.orders) == (a + b) + rest.reply.orders;
    }
  }

  /** One turn of the cursor loop. */
  lemma BonusTurn(server: BonusServer, w: Window, size: int, pageNo: int, sortValue: string)
    ensures BonusRun(server, w, size, pageNo, sortValue) ==
            match server(w, pageNo, size, sortValue)
            case Failed(e) => Outcome(Failed(e), 1)
            case Found(page) =>
              var next := LastCursor(page);
              if next == "" || page == [] || pageNo >= MAX_PAGES then Outcome(Found(page), 1)
              else Before(page, 1, BonusRun(server, w, size, pageNo + 1, next))
  {}

  /** Request n asked for page n + 1 with cursors[n]: none at first, then the cursor of the page before. */
  ghost predicate CursorTrace(server: BonusServer, w: Window, size: int, cursors: seq<string>, replies: seq<Reply>) {
    && |cursors| == |replies|
    && (forall n :: 0 <= n < |replies| ==> replies[n] == server(w, n + 1, size, cursors[n]))
    && (cursors != [] ==> cursors[0] == "")
    && forall n :: 0 < n < |replies| ==> Leads(replies[n - 1], cursors[n])
  }

  /** The reply lets the loop go on with this cursor. */
  ghost predicate Leads(reply: Reply, cursor: string) {
    reply.Found? && cursor != "" && IsCursor(reply.orders, cursor)
  }

  /** The last reply failed, had no cursor, or was the hundredth. */
  ghost predicate CursorTraceEnds(replies: seq<Reply>) {
    && 1 <= |replies| <= 100
    && var last := replies[|replies| - 1];
       last.Failed? || IsCursor(last.orders, "") || |replies| == 100
  }

  lemma CursorTraceGrows(server: BonusServer, w: Window, size: int, cursors: seq<string>, replies: seq<Reply>,
                         cursor: string)
    requires CursorTrace(server, w, size, cursors, replies)
    requires if replies == [] then cursor == "" else Leads(replies[|replies| - 1], cursor)
    ensures CursorTrace(server, w, size, cursors + [cursor],
                        replies + [server(w, |replies| + 1, size, cursor)])
  {
    hide Leads;
    var cs, rs := cursors + [cursor], replies + [server(w, |replies| + 1, size, cursor)];
    forall n | 0 <= n < |rs| ensures rs[n] == server(w, n + 1, size, cs[n]) {
      assert n < |replies| ==> rs[n] == replies[n] && cs[n] == cursors[n];
    }
    forall n | 0 < n < |rs| ensures Leads(rs[n - 1], cs[n]) {
      assert rs[n - 1] == replies[n - 1];
      assert n < |replies| ==> cs[n] == cursors[n];
    }
  }

  /** replies are the answers to the requests sent, in order, and cursors the cursors they were sent with. */
  method FetchBonusOrders(server: BonusServer, w: Window, size: int)
    returns (r: Reply, requests: nat, ghost cursors: seq<string>, ghost replies: seq<Reply>)
    ensures CursorTrace(server, w, size, cursors, replies) && CursorTraceEnds(replies)
    ensures requests == |replies| && r == Gathered(replies)
    ensures Outcome(r, requests) == BonusRun(server, w, size, 1, "")
  {
    hide BonusRun, LastCursor, CursorTrace, Leads, Pages;
    var allOrders: seq<Order> := [];
    var pageNo, sortValue := 1, "";
    requests, cursors, replies := 0, [], [];
    NoRequests(server, w, size);
    while true
      invariant 1 <= pageNo <= MAX_PAGES && requests == |replies| == pageNo - 1
      invariant BonusRun(server, w, size, 1, "") ==
                Before(allOrders, requests, BonusRun(server, w, size, pageNo, sortValue))
      invariant CursorTrace(server, w, size, cursors, replies) && allOrders == Concat(Pages(replies))
      invariant if replies == [] then sortValue == "" else Leads(replies[|replies| - 1], sortValue)
      decreases MAX_PAGES - pageNo
    {
      BonusTurn(server, w, size, pageNo, sortValue);
      CursorTraceGrows(server, w, size, cursors, replies, sortValue);
      var reply := server(w, pageNo, size, sortValue);
      PagesSnoc(replies, reply);
      requests, cursors, replies := requests + 1, cursors + [sortValue], replies + [reply];
      if reply.Failed? {
        r := reply;
        return;
      }
      var next := CursorOf(reply.orders);
      LeadsOn(reply, next);
      BeforeTwice(allOrders, requests - 1, reply.orders, 1, BonusRun(server, w, size, pageNo + 1, next));
      allOrders := allOrders + reply.orders;
      if next == "" || |reply.orders| == 0 {
        break;
      }
      sortValue := next;
      pageNo := pageNo + 1;
      if pageNo > MAX_PAGES {
        break;
      }
    }
    r := Found(allOrders);
  }

  lemma NoRequests(server: BonusServer, w: Window, size: int)
    ensures CursorTrace(server, w, size, [], []) && Concat(Pages([])) == []
  {
    assert Pages([]) == [];
  }

  lemma LeadsOn(reply: Reply, next: string)
    requires reply.Found? && IsCursor(reply.orders, next)
    ensures next != "" ==> Leads(reply, next)
    ensures reply.orders == [] ==> next == ""
  {}

  /** A server that, for window w, pages through the list ws after the order the cursor names. */
  ghost predicate ServesByCursor(server: BonusServer, w: Window, ws: seq<Order>, size: int) {
    && (forall n :: server(w, n, size, "") == Found(Take(ws, size)))
    && forall n, i :: 0 <= i < |ws| ==> server(w, n, size, ws[i].sortValue) == Found(Take(ws[i + 1..], size))
  }

  ghost predicate NamedByCursor(orders: seq<Order>) {
    && (forall i :: 0 <= i < |orders| ==> orders[i].sortValue != "")
    && forall i, j :: 0 <= i < j < |orders| ==> orders[i].sortValue != orders[j].sortValue
  }

  /** Such a server, holding orders. */
  function ListServer(orders: seq<Order>): BonusServer {
    (w: Window, pageNo: int, size: int, sortValue: string) =>
      var ws := InWindow(orders, w);
      Found(Take(if sortValue == "" then ws else AfterCursor(ws, sortValue), size))
  }

  function AfterCursor(ws: seq<Order>, sortValue: string): seq<Order> {
    if ws == [] then []
    else if ws[0].sortValue == sortValue then ws[1..]
    else AfterCursor(ws[1..], sortValue)
  }

  lemma {:induction false} AfterNamed(ws: seq<Order>, i: nat)
    requires NamedByCursor(ws) && i < |ws|
    ensures AfterCursor(ws, ws[i].sortValue) == ws[i + 1..]
  {
    if i > 0 {
      assert ws[0].sortValue != ws[i].sortValue;
      assert forall j :: 0 <= j < |ws[1..]| ==> ws[1..][j] == ws[j + 1];
      AfterNamed(ws[1..], i - 1);
    }
  }

  lemma ListServerServes(orders: seq<Order>, w: Window, size: int)
    requires NamedByCursor(InWindow(orders, w))
    ensures ServesByCursor(ListServer(orders), w, InWindow(orders, w), size)
  {
    var ws := InWindow(orders, w);
    forall i | 0 <= i < |ws| ensures AfterCursor(ws, ws[i].sortValue) == ws[i + 1..] {
      AfterNamed(ws, i);
    }
  }

  /** Pages needed for n orders. */
  function PagesFor(n: int, size: int): nat
    requires size >= 1
    decreases n
  {
    if n <= 0 then 0 else 1 + PagesFor(n - size, size)
  }

  lemma {:induction false} PagesForIsCeiling(n: nat, size: int)
    requires size >= 1
    ensures PagesFor(n, size) == (n + size - 1) / size
  {
    PagesSpan(n, size);
    CeilUnique(PagesFor(n, size), n, size);
  }

  lemma {:induction false} PagesSpan(n: nat, size: int)
    requires size >= 1
    ensures (PagesFor(n, size) - 1) * size < n <= PagesFor(n, size) * size
  {
    if n > size {
      PagesSpan(n - size, size);
      var k := PagesFor(n - size, size);
      assert k * size == (k - 1) * size + size && (k + 1) * size == k * size + size;
    } else if n > 0 {
      assert PagesFor(n - size, size) == 0;
    }
  }

  /** The orders k pages can hold. */
  function Room(k: nat, size: nat): nat {
    if k == 0 then 0 else size + Room(k - 1, size)
  }

  lemma {:induction false} RoomIsProduct(k: nat, size: nat)
    ensures Room(k, size) == k * size
  {
    if k > 0 {
      RoomIsProduct(k - 1, size);
      assert k * size == (k - 1) * size + size;
    }
  }

  lemma TakeIsPrefix(s: seq<Order>, n: nat)
    ensures Take(s, n) == s[..Min(|s|, n)]
  {}

  lemma TakeAgain(s: seq<Order>, m: nat, n: nat)
    ensures var first := Take(s, m); first + Take(s[|first|..], n) == Take(s, m + n)
  {}

  lemma CursorAtEnd(ws: seq<Order>, i: nat, size: int)
    requires NamedByCursor(ws) && i < |ws| && size >= 1
    ensures var page := Take(ws[i..], size);
            page != [] && i + |page| <= |ws| && LastCursor(page) == ws[i + |page| - 1].sortValue != ""
  {}

  /** What the loop ends with when k pages are left and i orders of the window are seen: the next orders as far as
      k pages hold them, and one request more than it needs pages unless the cap stops it. */
  function FromCursor(ws: seq<Order>, size: nat, k: nat, i: nat): Outcome
    requires size >= 1 && i <= |ws|
  {
    Outcome(Found(Take(ws[i..], Room(k, size))), Min(k, PagesFor(|ws| - i, size) + 1))
  }

  lemma FromCursorAtEnd(ws: seq<Order>, size: nat, k: nat)
    requires size >= 1 && k >= 1
    ensures FromCursor(ws, size, k, |ws|) == Outcome(Found([]), 1)
  {}

  lemma FromCursorLastPage(ws: seq<Order>, size: nat, i: nat)
    requires size >= 1 && i <= |ws|
    ensures FromCursor(ws, size, 1, i) == Outcome(Found(Take(ws[i..], size)), 1)
  {
    assert Room(1, size) == size + Room(0, size);
  }

  lemma FromCursorTurn(ws: seq<Order>, size: nat, k: nat, i: nat)
    requires size >= 1 && k > 1 && i < |ws|
    ensures var page := Take(ws[i..], size);
            i + |page| <= |ws| && FromCursor(ws, size, k, i) == Before(page, 1, FromCursor(ws, size, k - 1, i + |page|))
  {
    var rest := ws[i..];
    var page := Take(rest, size);
    TakeAgain(rest, size, Room(k - 1, size));
    assert rest[|page|..] == ws[i + |page|..];
    assert PagesFor(|ws| - (i + |page|), size) == PagesFor(|ws| - i - size, size);
  }

  lemma {:induction false} CursorRunFrom(server: BonusServer, w: Window, ws: seq<Order>, size: nat,
                                         k: nat, i: nat, sortValue: string)
    requires ServesByCursor(server, w, ws, size) && NamedByCursor(ws) && size >= 1
    requires 1 <= k <= MAX_PAGES && i <= |ws|
    requires sortValue == if i == 0 then "" else ws[i - 1].sortValue
    ensures BonusRun(server, w, size, MAX_PAGES + 1 - k, sortValue) == FromCursor(ws, size, k, i)
    decreases k
  {
    hide BonusRun, LastCursor, ServesByCursor, NamedByCursor, FromCursor, Take, Before;
    BonusTurn(server, w, size, MAX_PAGES + 1 - k, sortValue);
    PageServed(server, w, ws, size, MAX_PAGES + 1 - k, i, sortValue);
    if i == |ws| {
      FromCursorAtEnd(ws, size, k);
    } else if k == 1 {
      FromCursorLastPage(ws, size, i);
    } else {
      CursorAtEnd(ws, i, size);
      FromCursorTurn(ws, size, k, i);
      var page := Take(ws[i..], size);
      CursorRunFrom(server, w, ws, size, k - 1, i + |page|, LastCursor(page));
    }
  }

  lemma PageServed(server: BonusServer, w: Window, ws: seq<Order>, size: nat, n: int, i: nat, sortValue: string)
    requires ServesByCursor(server, w, ws, size) && i <= |ws|
    requires sortValue == if i == 0 then "" else ws[i - 1].sortValue
    ensures server(w, n, size, sortValue) == Found(Take(ws[i..], size))
    ensures i == |ws| ==> Take(ws[i..], size) == [] && LastCursor(Take(ws[i..], size)) == ""
  {
    assert ws[0..] == ws;
  }

  /** The cursor loop returns the first min(n, 100 * size) orders of the window, in order. */
  lemma CursorLoopIsPrefix(server: BonusServer, w: Window, ws: seq<Order>, size: nat)
    requires ServesByCursor(server, w, ws, size) && NamedByCursor(ws) && size >= 1
    ensures 0 <= Min(|ws|, 100 * size) <= |ws|
    ensures Outcome(Found(ws[..Min(|ws|, 100 * size)]), Min(100, (|ws| + size - 1) / size + 1))
         == BonusRun(server, w, size, 1, "")
  {
    hide BonusRun, PagesFor, Room;
    CursorRunFrom(server, w, ws, size, MAX_PAGES, 0, "");
    PagesForIsCeiling(|ws|, size);
    RoomIsProduct(MAX_PAGES, size);
    TakeIsPrefix(ws, MAX_PAGES * size);
    assert ws[0..] == ws;
  }

  // ---------------------------------------------------------------- paging by number

  datatype RowReply = RowFailed(error: string) | Rows(orders: seq<Order>, hasMore: bool)

  /** Answers the request (window, pageIndex, pageSize). */
  type RowServer = (Window, int, int) -> RowReply

  function RowRun(server: RowServer, w: Window, size: int, pageIndex: int): Outcome
    decreases MAX_PAGES + 1 - pageIndex
  {
    match server(w, pageIndex, size)
    case RowFailed(e) => Outcome(Failed(e), 1)
    case Rows(page, more) =>
      if pageIndex + 1 > MAX_PAGES || !more then Outcome(Found(page), 1)
      else Before(page, 1, RowRun(server, w, size, pageIndex + 1))
  }

  lemma RowTurn(server: RowServer, w: Window, size: int, pageIndex: int)
    ensures RowRun(server, w, size, pageIndex) ==
            match server(w, pageIndex, size)
            case RowFailed(e) => Outcome(Failed(e), 1)
            case Rows(page, more) =>
              if pageIndex >= MAX_PAGES || !more then Outcome(Found(page), 1)
              else Before(page, 1, RowRun(server, w, size, pageIndex + 1))
  {}

  /** Request n asked for page n + 1, and every page but the last promised another one. */
  ghost predicate RowTrace(server: RowServer, w: Window, size: int, replies: seq<RowReply>) {
    && (forall n :: 0 <= n < |replies| ==> replies[n] == server(w, n + 1, size))
    && forall n :: 0 <= n < |replies| - 1 ==> replies[n].Rows? && replies[n].hasMore
  }

  /** The last reply failed, promised no more, or was the hundredth. */
  ghost predicate RowTraceEnds(replies: seq<RowReply>) {
    && 1 <= |replies| <= 100
    && var last := replies[|replies| - 1];
       last.RowFailed? || !last.hasMore || |replies| == 100
  }

  /** A reply without its promise. */
  function Plain(reply: RowReply): Reply {
    match reply case RowFailed(e) => Failed(e) case Rows(orders, _) => Found(orders)
  }

  function Plains(replies: seq<RowReply>): (ps: seq<Reply>)
    ensures |ps| == |replies|
    ensures forall i :: 0 <= i < |ps| ==> ps[i] == Plain(replies[i])
  {
    seq(|replies|, i requires 0 <= i < |replies| => Plain(replies[i]))
  }

  lemma RowTraceGrows(server: RowServer, w: Window, size: int, replies: seq<RowReply>)
    requires RowTrace(server, w, size, replies)
    requires replies != [] ==> replies[|replies| - 1].Rows? && replies[|replies| - 1].hasMore
    ensures var reply := server(w, |replies| + 1, size);
            && RowTrace(server, w, size, replies + [reply])
            && Plains(replies + [reply]) == Plains(replies) + [Plain(reply)]
  {}

  method FetchOrders(server: RowServer, w: Window, size: int)
    returns (r: Reply, requests: nat, ghost replies: seq<RowReply>)
    ensures RowTrace(server, w, size, replies) && RowTraceEnds(replies)
    ensures requests == |replies| && r == Gathered(Plains(replies))
    ensures Outcome(r, requests) == RowRun(server, w, size, 1)
  {
    hide RowRun, RowTrace, Plains, Pages;
    var allOrders: seq<Order> := [];
    var pageIndex, hasMore := 1, true;
    requests, replies := 0, [];
    NoRows(server, w, size);
    while hasMore
      invariant 1 <= pageIndex <= MAX_PAGES + 1 && requests == |replies| == pageIndex - 1
      invariant hasMore ==> pageIndex <= MAX_PAGES
      invariant hasMore ==> RowRun(server, w, size, 1) ==
                            Before(allOrders, requests, RowRun(server, w, size, pageIndex))
      invariant !hasMore ==> requests >= 1 && RowRun(server, w, size, 1) == Outcome(Found(allOrders), requests)
      invariant RowTrace(server, w, size, replies) && allOrders == Concat(Pages(Plains(replies)))
      invariant replies != [] ==> replies[|replies| - 1].Rows? && replies[|replies| - 1].hasMore == hasMore
      decreases MAX_PAGES + 1 - pageIndex
    {
      RowTurn(server, w, size, pageIndex);
      RowTraceGrows(server, w, size, replies);
      var reply := server(w, pageIndex, size);
      PagesSnoc(Plains(replies), Plain(reply));
      requests, replies := requests + 1, replies + [reply];
      if reply.RowFailed? {
        r := Failed(reply.error);
        return;
      }
      BeforeTwice(allOrders, requests - 1, reply.orders, 1, RowRun(server, w, size, pageIndex + 1));
      allOrders := allOrders + reply.orders;
      hasMore := reply.hasMore;
      pageIndex := pageIndex + 1;
      if pageIndex > MAX_PAGES {
        break;
      }
    }
    r := Found(allOrders);
  }

  lemma NoRows(server: RowServer, w: Window, size: int)
    ensures RowTrace(server, w, size, []) && Concat(Pages(Plains([]))) == []
  {
    assert Pages(Plains([])) == [];
  }

  /** A server that, for window w, cuts the list ws into numbered pages. */
  ghost predicate ServesByNumber(server: RowServer, w: Window, ws: seq<Order>, size: nat) {
    forall n: nat :: server(w, n + 1, size) == Rows(Take(Drop(ws, n * size), size), (n + 1) * size < |ws|)
  }

  function Drop(s: seq<Order>, n: nat): seq<Order> {
    if n < |s| then s[n..] else []
  }

  lemma {:induction false} NumberRunFrom(server: RowServer, w: Window, ws: seq<Order>, size: nat, k: nat)
    requires size >= 1 && ServesByNumber(server, w, ws, size)
    requires 1 <= k <= MAX_PAGES
    ensures var rest := Drop(ws, Room(MAX_PAGES - k, size));
            RowRun(server, w, size, MAX_PAGES + 1 - k) ==
            Outcome(Found(Take(rest, Room(k, size))), Min(k, if rest == [] then 1 else PagesFor(|rest|, size)))
    decreases k
  {
    var n := MAX_PAGES - k;
    var rest := Drop(ws, Room(n, size));
    RoomIsProduct(n, size);
    RoomIsProduct(n + 1, size);
    assert server(w, n + 1, size) == Rows(Take(rest, size), Room(n + 1, size) < |ws|);
    if k > 1 && Room(n + 1, size) < |ws| {
      NumberRunFrom(server, w, ws, size, k - 1);
      assert Drop(ws, Room(n + 1, size)) == rest[size..];
      TakeAgain(rest, size, Room(k - 1, size));
    }
  }

  /** The has-more loop returns the first min(n, 100 * size) orders of the window, in order. */
  lemma NumberLoopIsPrefix(server: RowServer, w: Window, ws: seq<Order>, size: nat)
    requires size >= 1 && ServesByNumber(server, w, ws, size)
    ensures 0 <= Min(|ws|, 100 * size) <= |ws|
    ensures Outcome(Found(ws[..Min(|ws|, 100 * size)]), Min(100, if ws == [] then 1 else (|ws| + size - 1) / size))
         == RowRun(server, w, size, 1)
  {
    hide RowRun, PagesFor, Room;
    NumberRunFrom(server, w, ws, size, MAX_PAGES);
    PagesForIsCeiling(|ws|, size);
    RoomIsProduct(MAX_PAGES, size);
    RoomIsProduct(0, size);
    assert Drop(ws, 0) == ws;
    TakeIsPrefix(ws, MAX_PAGES * size);
  }
}
