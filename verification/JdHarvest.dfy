/** From a query span to the harvested orders: windows one after the other, each paged to its end. */
module JdHarvest {
  import opened JdOrders
  import opened JdWindows
  import opened Sequences
  import opened Wrappers

  const HOUR_SECONDS := 3600
  const BONUS_MILLIS := 600_000

  /** Fetching every window in turn; the first failing window fails the whole harvest. */
  function Harvest(fetch: Window -> Reply, ws: seq<Window>): Reply {
    if ws == [] then Found([])
    else match fetch(ws[0])
      case Failed(e) => Failed(e)
      case Found(orders) => Prepend(orders, Harvest(fetch, ws[1..]))
  }

  function Prepend(orders: seq<Order>, rest: Reply): Reply {
    match rest case Failed(e) => Failed(e) case Found(more) => Found(orders + more)
  }

  lemma PrependTwice(a: seq<Order>, b: seq<Order>, rest: Reply)
    ensures Prepend(a, Prepend(b, rest)) == Prepend(a + b, rest)
  {}

  /** Window i is the first one that fails. */
  ghost predicate FailsFirst(fetch: Window -> Reply, ws: seq<Window>, i: nat) {
    i < |ws| && fetch(ws[i]).Failed? && forall j :: 0 <= j < i ==> fetch(ws[j]).Found?
  }

  /** A harvest ends with the first failure, error and all; without any it is what the windows hold, one behind the
      other. */
  lemma HarvestSpelledOut(fetch: Window -> Reply, ws: seq<Window>)
    ensures forall i: nat :: FailsFirst(fetch, ws, i) ==> Harvest(fetch, ws) == fetch(ws[i])
    ensures (forall j :: 0 <= j < |ws| ==> fetch(ws[j]).Found?) ==> Harvest(fetch, ws) == Found(Concat(Held(fetch, ws)))
  {
    hide Harvest, Held;
    forall i: nat | FailsFirst(fetch, ws, i) ensures Harvest(fetch, ws) == fetch(ws[i]) {
      HarvestFails(fetch, ws, i);
    }
    if forall j :: 0 <= j < |ws| ==> fetch(ws[j]).Found? {
      HarvestFinds(fetch, ws);
    }
  }

  lemma {:induction false} HarvestFails(fetch: Window -> Reply, ws: seq<Window>, i: nat)
    requires FailsFirst(fetch, ws, i)
    ensures Harvest(fetch, ws) == fetch(ws[i])
    decreases ws
  {
    if i > 0 {
      var rest := ws[1..];
      assert fetch(ws[0]).Found? && forall j :: 0 <= j < |rest| ==> rest[j] == ws[j + 1];
      HarvestFails(fetch, rest, i - 1);
    }
  }

  lemma {:induction false} HarvestFinds(fetch: Window -> Reply, ws: seq<Window>)
    requires forall j :: 0 <= j < |ws| ==> fetch(ws[j]).Found?
    ensures Harvest(fetch, ws) == Found(Concat(Held(fetch, ws)))
  {
    if ws == [] {
      assert Held(fetch, ws) == [];
    } else {
      hide Concat;
      var rest := ws[1..];
      assert forall j :: 0 <= j < |rest| ==> rest[j] == ws[j + 1];
      HarvestFinds(fetch, rest);
      assert Held(fetch, ws) == [fetch(ws[0]).orders] + Held(fetch, rest);
      ConcatFront(fetch(ws[0]).orders, Held(fetch, rest));
    }
  }

  /** What each window holds. */
  function Held(fetch: Window -> Reply, ws: seq<Window>): (hs: seq<seq<Order>>)
    ensures |hs| == |ws|
    ensures forall i :: 0 <= i < |ws| && fetch(ws[i]).Found? ==> hs[i] == fetch(ws[i]).orders
  {
    seq(|ws|, i requires 0 <= i < |ws| => PageOf(fetch(ws[i])))
  }

  function BonusFetch(server: BonusServer, size: int): Window -> Reply {
    w => BonusRun(server, w, size, 1, "").reply
  }

  function RowFetch(server: RowServer, size: int): Window -> Reply {
    w => RowRun(server, w, size, 1).reply
  }

  datatype Response = BadRequest | ServerError(error: string) | NoOrders | Export(orders: seq<Order>)

  /** What a query of the span answers, having asked for some windows: those that tile the span, in order, up to the
      first that fails, whose error is the answer. */
  ghost predicate Harvested(fetch: Window -> Reply, start: int, end: int, limit: int, asked: seq<Window>, r: Response)
    requires limit > 0
  {
    && asked <= Cut(start, end, limit)
    && match Harvest(fetch, Cut(start, end, limit))
       case Failed(e) => r == ServerError(e) && asked != [] && fetch(asked[|asked| - 1]) == Failed(e)
       case Found(orders) =>
         && Tiles(asked, start, end, limit)
         && r == (if orders == [] then NoOrders else Export(orders))
  }

  /** The bonus query: bounds are parsed, then int64 milliseconds advance window by window. */
  method GetJdBonusOrder(startTimeStr: string, endTimeStr: string, dates: string -> Option<int>,
                         server: BonusServer, pageSize: int) returns (r: Response, ghost asked: seq<Window>)
    requires DatesAreInt64(dates)
    ensures r.BadRequest? <==> startTimeStr == "" || endTimeStr == ""
                               || ParseMillis(startTimeStr, dates) == None || ParseMillis(endTimeStr, dates) == None
    ensures !r.BadRequest? ==>
              var start, end := ParseMillis(startTimeStr, dates).value, ParseMillis(endTimeStr, dates).value;
              Harvested(BonusFetch(server, pageSize), start, end, 600_000, asked, r)
  {
    hide Harvest, Cut, ParseMillis, BonusRun, Tiles;
    asked := [];
    if startTimeStr == "" || endTimeStr == "" {
      r := BadRequest;
      return;
    }
    var startTime := ParseMillis(startTimeStr, dates);
    if startTime == None {
      r := BadRequest;
      return;
    }
    var endTime := ParseMillis(endTimeStr, dates);
    if endTime == None {
      r := BadRequest;
      return;
    }
    ParsedBoundIsSmall(startTimeStr, dates);
    ParsedBoundIsSmall(endTimeStr, dates);

    var allOrders: seq<Order> := [];
    var currentTime, end := startTime.value, endTime.value;
    CutTiles(currentTime, end, BONUS_MILLIS);
    ghost var fetch := BonusFetch(server, pageSize);
    ghost var whole := Harvest(fetch, Cut(currentTime, end, BONUS_MILLIS));
    while currentTime < end
      invariant currentTime == startTime.value || currentTime <= end
      invariant whole == Prepend(allOrders, Harvest(fetch, Cut(currentTime, end, BONUS_MILLIS)))
      invariant asked + Cut(currentTime, end, BONUS_MILLIS) == Cut(startTime.value, end, BONUS_MILLIS)
      decreases end - currentTime
    {
      var intervalEndTime := Add64(currentTime, BONUS_MILLIS);
      if intervalEndTime > end {
        intervalEndTime := end;
      }
      var w := Window(currentTime, intervalEndTime);
      HarvestTurn(fetch, currentTime, end, BONUS_MILLIS);
      OneMoreAsked(asked, currentTime, end, BONUS_MILLIS);
      asked := asked + [w];
      var orders, _, _, _ := FetchBonusOrders(server, w, pageSize);
      assert fetch(w) == orders;
      if orders.Failed? {
        r := ServerError(orders.error);
        return;
      }
      PrependTwice(allOrders, orders.orders, Harvest(fetch, Cut(intervalEndTime, end, BONUS_MILLIS)));
      allOrders := allOrders + orders.orders;
      currentTime := intervalEndTime;
    }
    HarvestNothing(fetch, currentTime, end, BONUS_MILLIS);
    assert asked + [] == asked;
    if |allOrders| == 0 {
      r := NoOrders;
      return;
    }
    r := Export(allOrders);
  }

  /** strings.Replace(s, t, u, -1) for texts of one length. */
  function ReplaceAll(s: string, t: string, u: string): (r: string)
    requires |t| == |u| > 0
    ensures |r| == |s|
  {
    if |s| < |t| then s
    else if s[..|t|] == t then u + ReplaceAll(s[|t|..], t, u)
    else [s[0]] + ReplaceAll(s[1..], t, u)
  }

  predicate OccursAt(s: string, t: string, i: nat) { i + |t| <= |s| && s[i..i + |t|] == t }

  lemma ReplaceTurn(s: string, t: string, u: string)
    requires |t| == |u| > 0
    ensures ReplaceAll(s, t, u) ==
            if |s| < |t| then s
            else if OccursAt(s, t, 0) then u + ReplaceAll(s[|t|..], t, u)
            else [s[0]] + ReplaceAll(s[1..], t, u)
  {
    assert |s| >= |t| ==> s[0..|t|] == s[..|t|];
  }

  /** t shows its first character nowhere else, and u brings that character in front and one foreign to t at
      its end: no replacement can make a new occurrence. */
  ghost predicate Unmixable(t: string, u: string) {
    |t| == |u| > 0 && t[0] == u[0] && t[0] !in t[1..] && u[|u| - 1] !in t
  }

  lemma {:induction false} UntouchedPrefix(s: string, t: string, u: string, k: nat)
    requires Unmixable(t, u) && k <= |s| && t[0] !in ReplaceAll(s, t, u)[..k]
    ensures ReplaceAll(s, t, u)[..k] == s[..k]
  {
    hide ReplaceAll;
    ReplaceTurn(s, t, u);
    if k > 0 && |s| >= |t| {
      assert ReplaceAll(s, t, u)[0] in ReplaceAll(s, t, u)[..k];
      var rest := ReplaceAll(s[1..], t, u);
      assert ReplaceAll(s, t, u)[..k] == [s[0]] + rest[..k - 1];
      UntouchedPrefix(s[1..], t, u, k - 1);
      assert s[..k] == [s[0]] + s[1..][..k - 1];
    }
  }

  lemma FirstStaysFree(s: string, t: string, u: string)
    requires Unmixable(t, u) && |s| >= |t| && !OccursAt(s, t, 0)
    ensures !OccursAt(ReplaceAll(s, t, u), t, 0)
  {
    hide ReplaceAll;
    ReplaceTurn(s, t, u);
    var n := |t| - 1;
    var rest := ReplaceAll(s[1..], t, u);
    HeadOf(s[0], s[1..], n);
    HeadOf(s[0], rest, n);
    assert s == [s[0]] + s[1..];
    if t[0] !in rest[..n] {
      UntouchedPrefix(s[1..], t, u, n);
    } else {
      TailOf(s[0], rest[..n], t);
    }
  }

  lemma HeadOf(c: char, p: string, n: nat)
    requires n <= |p|
    ensures ([c] + p)[0..n + 1] == [c] + p[..n]
  {}

  lemma TailOf(c: char, p: string, t: string)
    ensures [c] + p == t ==> t != "" && p == t[1..]
  {
    assert ([c] + p)[1..] == p;
  }

  /** Where replacing cannot make a new occurrence none is left. */
  lemma {:induction false} NoneLeft(s: string, t: string, u: string, i: nat)
    requires Unmixable(t, u)
    ensures !OccursAt(ReplaceAll(s, t, u), t, i)
    decreases |s|
  {
    hide ReplaceAll;
    ReplaceTurn(s, t, u);
    var r, n := ReplaceAll(s, t, u), |t|;
    if i + n <= |s| {
      if OccursAt(s, t, 0) {
        if i < n {
          assert r[i..i + n][n - 1 - i] == u[n - 1];
        } else {
          NoneLeft(s[n..], t, u, i - n);
          assert r[i..i + n] == ReplaceAll(s[n..], t, u)[i - n..i];
        }
      } else if i == 0 {
        FirstStaysFree(s, t, u);
      } else {
        NoneLeft(s[1..], t, u, i - 1);
        assert r[i..i + n] == ReplaceAll(s[1..], t, u)[i - 1..i - 1 + n];
      }
    }
  }

  lemma OccursInRest(s: string, t: string, i: nat, n: nat)
    requires n <= i && n <= |s|
    ensures OccursAt(s, t, i) <==> OccursAt(s[n..], t, i - n)
  {
    assert i + |t| <= |s| ==> s[n..][i - n..i - n + |t|] == s[i..i + |t|];
  }

  /** Where t stood, u stands: t does not overlap itself, so no occurrence is passed over. */
  lemma {:induction false} ReplacedThere(s: string, t: string, u: string, i: nat)
    requires Unmixable(t, u) && OccursAt(s, t, i)
    ensures OccursAt(ReplaceAll(s, t, u), u, i)
    decreases |s|
  {
    hide ReplaceAll, OccursAt;
    ReplaceTurn(s, t, u);
    OccursFits(s, t, i);
    var n := |t|;
    if OccursAt(s, t, 0) {
      var rest := ReplaceAll(s[n..], t, u);
      OccursInFront(u, rest);
      if i > 0 {
        Overlap(s, t, i);
        OccursInRest(s, t, i, n);
        ReplacedThere(s[n..], t, u, i - n);
        OccursBehind(u, rest, u, i - n);
      }
    } else {
      OccursInRest(s, t, i, 1);
      ReplacedThere(s[1..], t, u, i - 1);
      OccursBehind([s[0]], ReplaceAll(s[1..], t, u), u, i - 1);
    }
  }

  lemma OccursFits(s: string, t: string, i: nat)
    requires OccursAt(s, t, i)
    ensures i + |t| <= |s|
  {}

  lemma OccursInFront(t: string, s: string)
    ensures OccursAt(t + s, t, 0)
  {}

  lemma OccursBehind(p: string, s: string, t: string, i: nat)
    requires OccursAt(s, t, i)
    ensures OccursAt(p + s, t, |p| + i)
  {
    assert (p + s)[|p| + i..|p| + i + |t|] == s[i..i + |t|];
  }

  /** Two occurrences that overlap: the first character comes again. */
  lemma Overlap(s: string, t: string, i: nat)
    requires i > 0 && OccursAt(s, t, 0) && OccursAt(s, t, i)
    ensures i < |t| ==> t[0] in t[1..]
  {
    if i < |t| {
      assert s[0..|t|][i] == s[i] == s[i..i + |t|][0];
      assert t[1..][i - 1] == t[i];
    }
  }

  /** A character that is in no occurrence of t stays. */
  lemma {:induction false} OthersStay(s: string, t: string, u: string, k: nat)
    requires |t| == |u| > 0 && k < |s|
    requires forall i: nat :: i <= k < i + |t| ==> !OccursAt(s, t, i)
    ensures ReplaceAll(s, t, u)[k] == s[k]
    decreases |s|
  {
    hide ReplaceAll;
    ReplaceTurn(s, t, u);
    var n := |t|;
    if |s| >= n {
      var skip := if OccursAt(s, t, 0) then n else 1;
      if k >= skip {
        forall i: nat | i <= k - skip < i + n ensures !OccursAt(s[skip..], t, i) {
          OccursInRest(s, t, i + skip, skip);
        }
        OthersStay(s[skip..], t, u, k - skip);
      }
    }
  }

  const MIDNIGHT := "24:00:00"
  const LAST_SECOND := "23:59:59"

  /** In an end bound every 24:00:00 becomes 23:59:59, no 24:00:00 is left, and all other characters stay. */
  lemma MidnightReplaced(s: string, i: nat)
    ensures var r := ReplaceAll(s, "24:00:00", "23:59:59");
            && |r| == |s| && !OccursAt(r, "24:00:00", i)
            && (OccursAt(s, "24:00:00", i) ==> OccursAt(r, "23:59:59", i))
            && (i < |s| && (forall k: nat :: k <= i < k + 8 ==> !OccursAt(s, "24:00:00", k)) ==> r[i] == s[i])
  {
    hide ReplaceAll, OccursAt;
    NoneLeft(s, MIDNIGHT, LAST_SECOND, i);
    if OccursAt(s, MIDNIGHT, i) {
      ReplacedThere(s, MIDNIGHT, LAST_SECOND, i);
    } else if i < |s| && forall k: nat :: k <= i < k + |MIDNIGHT| ==> !OccursAt(s, MIDNIGHT, k) {
      OthersStay(s, MIDNIGHT, LAST_SECOND, i);
    }
  }

  /** The order query: bounds are parsed by dates, into whole seconds, and advance hour by hour. */
  method GetJdOrder(startTimeStr: string, endTimeStr: string, dates: string -> Option<int>,
                    server: RowServer, pageSize: int) returns (r: Response, ghost asked: seq<Window>)
    ensures r.BadRequest? <==> startTimeStr == "" || endTimeStr == "" || dates(startTimeStr) == None
                               || dates(ReplaceAll(endTimeStr, "24:00:00", "23:59:59")) == None
    ensures !r.BadRequest? ==>
              var start, end := dates(startTimeStr).value, dates(ReplaceAll(endTimeStr, "24:00:00", "23:59:59")).value;
              Harvested(RowFetch(server, pageSize), start, end, 3600, asked, r)
  {
    hide Harvest, Cut, RowRun, ReplaceAll, Tiles;
    asked := [];
    if startTimeStr == "" || endTimeStr == "" {
      r := BadRequest;
      return;
    }
    var parsedStart := dates(startTimeStr);
    if parsedStart == None {
      r := BadRequest;
      return;
    }
    var parsedEnd := dates(ReplaceAll(endTimeStr, MIDNIGHT, LAST_SECOND));
    if parsedEnd == None {
      r := BadRequest;
      return;
    }
    var startTime, endTime := parsedStart.value, parsedEnd.value;
    var allOrders: seq<Order> := [];
    var currentTime := startTime;
    CutTiles(startTime, endTime, HOUR_SECONDS);
    ghost var fetch := RowFetch(server, pageSize);
    ghost var whole := Harvest(fetch, Cut(startTime, endTime, HOUR_SECONDS));
    while currentTime < endTime
      invariant currentTime == startTime || currentTime <= endTime
      invariant whole == Prepend(allOrders, Harvest(fetch, Cut(currentTime, endTime, HOUR_SECONDS)))
      invariant asked + Cut(currentTime, endTime, HOUR_SECONDS) == Cut(startTime, endTime, HOUR_SECONDS)
      decreases endTime - currentTime
    {
      var hourEndTime := currentTime + HOUR_SECONDS;
      if hourEndTime > endTime {
        hourEndTime := endTime;
      }
      var w := Window(currentTime, hourEndTime);
      HarvestTurn(fetch, currentTime, endTime, HOUR_SECONDS);
      OneMoreAsked(asked, currentTime, endTime, HOUR_SECONDS);
      asked := asked + [w];
      var orders, _, _ := FetchOrders(server, w, pageSize);
      assert fetch(w) == orders;
      if orders.Failed? {
        r := ServerError(orders.error);
        return;
      }
      PrependTwice(allOrders, orders.orders, Harvest(fetch, Cut(hourEndTime, endTime, HOUR_SECONDS)));
      allOrders := allOrders + orders.orders;
      currentTime := hourEndTime;
    }
    HarvestNothing(fetch, currentTime, endTime, HOUR_SECONDS);
    assert asked + [] == asked;
    if |allOrders| == 0 {
      r := NoOrders;
      return;
    }
    r := Export(allOrders);
  }

  /** The windows asked for so far, and the next one. */
  lemma OneMoreAsked(asked: seq<Window>, start: int, end: int, limit: int)
    requires limit > 0 && start < end
    ensures var e := Close(start, end, limit);
            asked + [Window(start, e)] + Cut(e, end, limit) == asked + Cut(start, end, limit)
  {
    CutTurn(start, end, limit);
  }

  lemma HarvestTurn(fetch: Window -> Reply, start: int, end: int, limit: int)
    requires limit > 0 && start < end
    ensures var e := Close(start, end, limit);
            Harvest(fetch, Cut(start, end, limit)) ==
            match fetch(Window(start, e))
            case Failed(m) => Failed(m)
            case Found(orders) => Prepend(orders, Harvest(fetch, Cut(e, end, limit)))
  {}

  lemma HarvestNothing(fetch: Window -> Reply, start: int, end: int, limit: int)
    requires limit > 0 && start >= end
    ensures Cut(start, end, limit) == [] && Harvest(fetch, Cut(start, end, limit)) == Found([])
  {}

  // ---------------------------------------------------------------- what a harvest from a list holds

  /** The orders of the windows, window after window. */
  function Whole(orders: seq<Order>, ws: seq<Window>): seq<Order> {
    if ws == [] then [] else InWindow(orders, ws[0]) + Whole(orders, ws[1..])
  }

  /** The same with at most room orders of each window. */
  function Capped(orders: seq<Order>, ws: seq<Window>, room: nat): seq<Order> {
    if ws == [] then [] else Take(InWindow(orders, ws[0]), room) + Capped(orders, ws[1..], room)
  }

  ghost predicate AllFit(orders: seq<Order>, ws: seq<Window>, room: nat) {
    forall i :: 0 <= i < |ws| ==> |InWindow(orders, ws[i])| <= room
  }

  lemma {:induction false} CappedIsWholeIffFits(orders: seq<Order>, ws: seq<Window>, room: nat)
    ensures |Capped(orders, ws, room)| <= |Whole(orders, ws)|
    ensures AllFit(orders, ws, room) ==> Capped(orders, ws, room) == Whole(orders, ws)
    ensures !AllFit(orders, ws, room) ==> |Capped(orders, ws, room)| < |Whole(orders, ws)|
  {
    if ws != [] {
      CappedIsWholeIffFits(orders, ws[1..], room);
      if AllFit(orders, ws, room) {
        assert forall i :: 0 <= i < |ws[1..]| ==> ws[1..][i] == ws[i + 1];
      } else {
        var i :| 0 <= i < |ws| && |InWindow(orders, ws[i])| > room;
        assert i > 0 ==> ws[1..][i - 1] == ws[i];
      }
    }
  }

  lemma {:induction false} WindowSplits(orders: seq<Order>, a: int, b: int, c: int)
    requires a <= b <= c
    ensures multiset(InWindow(orders, Window(a, c))) ==
            multiset(InWindow(orders, Window(a, b))) + multiset(InWindow(orders, Window(b, c)))
  {
    if orders != [] {
      WindowSplits(orders[1..], a, b, c);
    }
  }

  lemma {:induction false} EmptyWindow(orders: seq<Order>, a: int, c: int)
    requires c <= a
    ensures InWindow(orders, Window(a, c)) == []
  {
    if orders != [] {
      EmptyWindow(orders[1..], a, c);
    }
  }

  /** Cutting a span into windows neither loses nor repeats an order. */
  lemma {:induction false} WholeIsSpan(orders: seq<Order>, start: int, end: int, limit: int)
    requires limit > 0
    ensures multiset(Whole(orders, Cut(start, end, limit))) == multiset(InWindow(orders, Window(start, end)))
    decreases end - start
  {
    if start < end {
      var e := Close(start, end, limit);
      CutTurn(start, end, limit);
      WholeIsSpan(orders, e, end, limit);
      WindowSplits(orders, start, e, end);
    } else {
      EmptyWindow(orders, start, end);
    }
  }

  ghost predicate ByTime(orders: seq<Order>) {
    forall i, j :: 0 <= i < j < |orders| ==> orders[i].time <= orders[j].time
  }

  lemma {:induction false} WindowSplitsInOrder(orders: seq<Order>, a: int, b: int, c: int)
    requires a <= b <= c && ByTime(orders)
    ensures InWindow(orders, Window(a, c)) == InWindow(orders, Window(a, b)) + InWindow(orders, Window(b, c))
  {
    hide InWindow;
    InWindowTurn(orders, Window(a, b));
    InWindowTurn(orders, Window(b, c));
    InWindowTurn(orders, Window(a, c));
    if orders != [] {
      WindowSplitsInOrder(orders[1..], a, b, c);
      if orders[0].time >= b {
        NothingEarlier(orders, a, b);
        NothingEarlier(orders[1..], a, b);
      }
    }
  }

  lemma InWindowTurn(orders: seq<Order>, w: Window)
    ensures InWindow(orders, w) ==
            if orders == [] then []
            else if w.start <= orders[0].time < w.end then [orders[0]] + InWindow(orders[1..], w)
            else InWindow(orders[1..], w)
  {}

  lemma {:induction false} NothingEarlier(orders: seq<Order>, a: int, b: int)
    requires forall i :: 0 <= i < |orders| ==> orders[i].time >= b
    ensures InWindow(orders, Window(a, b)) == []
  {
    if orders != [] {
      NothingEarlier(orders[1..], a, b);
    }
  }

  /** When the server lists orders by time, the harvest is simply the span, in order. */
  lemma {:induction false} WholeIsSpanInOrder(orders: seq<Order>, start: int, end: int, limit: int)
    requires limit > 0 && ByTime(orders)
    ensures Whole(orders, Cut(start, end, limit)) == InWindow(orders, Window(start, end))
    decreases end - start
  {
    if start < end {
      var e := Close(start, end, limit);
      CutTurn(start, end, limit);
      WholeIsSpanInOrder(orders, e, end, limit);
      WindowSplitsInOrder(orders, start, e, end);
    } else {
      EmptyWindow(orders, start, end);
    }
  }

  lemma {:induction false} HarvestIsCapped(fetch: Window -> Reply, orders: seq<Order>, ws: seq<Window>, room: nat)
    requires forall i :: 0 <= i < |ws| ==> fetch(ws[i]) == Found(Take(InWindow(orders, ws[i]), room))
    ensures Harvest(fetch, ws) == Found(Capped(orders, ws, room))
  {
    if ws != [] {
      assert forall i :: 0 <= i < |ws[1..]| ==> ws[1..][i] == ws[i + 1];
      HarvestIsCapped(fetch, orders, ws[1..], room);
    }
  }

  /** The end-to-end result of both queries: each window gives its first room orders, window after window;
      every order of the span comes exactly once if and only if no window holds more than room. */
  lemma HarvestExact(fetch: Window -> Reply, orders: seq<Order>, start: int, end: int, limit: int, room: nat)
    requires limit > 0
    requires forall i :: 0 <= i < |Cut(start, end, limit)| ==>
               var w := Cut(start, end, limit)[i]; fetch(w) == Found(Take(InWindow(orders, w), room))
    ensures var ws := Cut(start, end, limit);
            var r := Harvest(fetch, ws);
            && r == Found(Capped(orders, ws, room))
            && (multiset(r.orders) == multiset(InWindow(orders, Window(start, end))) <==> AllFit(orders, ws, room))
            && (AllFit(orders, ws, room) ==> r.orders == Whole(orders, ws))
            && (AllFit(orders, ws, room) && ByTime(orders) ==> r.orders == InWindow(orders, Window(start, end)))
  {
    var ws := Cut(start, end, limit);
    HarvestIsCapped(fetch, orders, ws, room);
    CappedIsWholeIffFits(orders, ws, room);
    WholeIsSpan(orders, start, end, limit);
    if !AllFit(orders, ws, room) {
      assert |multiset(Capped(orders, ws, room))| < |multiset(Whole(orders, ws))|;
    }
    if ByTime(orders) {
      WholeIsSpanInOrder(orders, start, end, limit);
    }
  }

  /** The bonus harvest: exactly once if and only if no ten-minute window holds more than 100 pages. */
  lemma BonusHarvestExact(server: BonusServer, orders: seq<Order>, start: int, end: int, size: nat)
    requires size >= 1 && NamedByCursor(orders)
    requires forall i :: 0 <= i < |Cut(start, end, 600_000)| ==>
               var w := Cut(start, end, 600_000)[i]; ServesByCursor(server, w, InWindow(orders, w), size)
    ensures var ws := Cut(start, end, 600_000);
            var r := Harvest(BonusFetch(server, size), ws);
            && r == Found(Capped(orders, ws, 100 * size))
            && (multiset(r.orders) == multiset(InWindow(orders, Window(start, end)))
                <==> AllFit(orders, ws, 100 * size))
            && (AllFit(orders, ws, 100 * size) ==> r.orders == Whole(orders, ws))
  {
    hide Cut, Harvest, BonusRun, InWindow, ServesByCursor, NamedByCursor, AllFit, Whole, Capped;
    var ws := Cut(start, end, BONUS_MILLIS);
    var fetch := BonusFetch(server, size);
    forall i | 0 <= i < |ws| ensures fetch(ws[i]) == Found(Take(InWindow(orders, ws[i]), MAX_PAGES * size)) {
      TakeIsPrefix(InWindow(orders, ws[i]), MAX_PAGES * size);
      InWindowNamed(orders, ws[i]);
      CursorLoopIsPrefix(server, ws[i], InWindow(orders, ws[i]), size);
    }
    HarvestExact(fetch, orders, start, end, BONUS_MILLIS, MAX_PAGES * size);
  }

  /** The order harvest: exactly once if and only if no hour holds more than 100 pages. */
  lemma OrderHarvestExact(server: RowServer, orders: seq<Order>, start: int, end: int, size: nat)
    requires size >= 1
    requires forall i :: 0 <= i < |Cut(start, end, 3600)| ==>
               var w := Cut(start, end, 3600)[i]; ServesByNumber(server, w, InWindow(orders, w), size)
    ensures var ws := Cut(start, end, 3600);
            var r := Harvest(RowFetch(server, size), ws);
            && r == Found(Capped(orders, ws, 100 * size))
            && (multiset(r.orders) == multiset(InWindow(orders, Window(start, end)))
                <==> AllFit(orders, ws, 100 * size))
            && (AllFit(orders, ws, 100 * size) ==> r.orders == Whole(orders, ws))
  {
    hide Cut, Harvest, RowRun, InWindow, ServesByNumber, AllFit, Whole, Capped;
    var ws := Cut(start, end, HOUR_SECONDS);
    var fetch := RowFetch(server, size);
    forall i | 0 <= i < |ws| ensures fetch(ws[i]) == Found(Take(InWindow(orders, ws[i]), MAX_PAGES * size)) {
      TakeIsPrefix(InWindow(orders, ws[i]), MAX_PAGES * size);
      NumberLoopIsPrefix(server, ws[i], InWindow(orders, ws[i]), size);
    }
    HarvestExact(fetch, orders, start, end, HOUR_SECONDS, MAX_PAGES * size);
  }

  lemma {:induction false} InWindowNamed(orders: seq<Order>, w: Window)
    requires NamedByCursor(orders)
    ensures NamedByCursor(InWindow(orders, w))
    ensures forall o :: o in InWindow(orders, w) ==> o in orders
  {
    if orders != [] {
      var rest := orders[1..];
      assert forall i :: 0 <= i < |rest| ==> rest[i] == orders[i + 1];
      InWindowNamed(rest, w);
      var tail := InWindow(rest, w);
      forall i | 0 <= i < |tail| ensures tail[i].sortValue != orders[0].sortValue {
        assert tail[i] in rest;
      }
    }
  }
}
