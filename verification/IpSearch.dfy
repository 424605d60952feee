/** Looking an address up in a table of address ranges. */
module IpSearch {
  import opened Arith
  import opened Bytes
  import opened Wrappers

  datatype Row = Row(s: Bytes, e: Bytes, v: string)

  predicate Covers(row: Row, ip: Bytes) {
    Compare(row.s, ip) <= 0 && Compare(row.e, ip) >= 0
  }

  /** The row starts at the address and yet ends before it: no branch of the search loop moves. */
  predicate Sticks(row: Row, ip: Bytes) {
    Compare(row.s, ip) == 0 && Compare(row.e, ip) < 0
  }

  ghost predicate SortedDisjoint(rows: seq<Row>) {
    && (forall i :: 0 <= i < |rows| ==> Compare(rows[i].s, rows[i].e) <= 0)
    && forall i, j :: 0 <= i < j < |rows| ==> Compare(rows[i].e, rows[j].s) < 0
  }

  /** The value of the first row that covers the address, or nothing. */
  function LinearScan(rows: seq<Row>, ip: Bytes): string {
    if rows == [] then ""
    else if Covers(rows[0], ip) then rows[0].v
    else LinearScan(rows[1..], ip)
  }

  // ---------------------------------------------------------------- the loop, one probe at a time

  datatype Probe = Stop(v: string) | Go(low: int, height: int)

  function Mid(low: int, height: int): int
    requires low <= height
  {
    low + (height - low) / 2
  }

  predicate Within(rows: seq<Row>, p: Probe) {
    p.Go? ==> 0 <= p.low && p.height < |rows| && p.low <= p.height + 1
  }

  function Step(rows: seq<Row>, ip: Bytes, p: Probe): (q: Probe)
    requires Within(rows, p)
    ensures Within(rows, q)
  {
    if p.Stop? then p
    else if p.low > p.height then Stop("")
    else
      var mid := Mid(p.low, p.height);
      if Covers(rows[mid], ip) then Stop(rows[mid].v)
      else if Compare(rows[mid].s, ip) == 1 then Go(p.low, mid - 1)
      else if Compare(rows[mid].s, ip) == -1 then Go(mid + 1, p.height)
      else p
  }

  function Run(rows: seq<Row>, ip: Bytes, n: nat): (p: Probe)
    ensures Within(rows, p)
  {
    if n == 0 then Go(0, |rows| - 1) else Step(rows, ip, Run(rows, ip, n - 1))
  }

  lemma CompareRange(a: Bytes, b: Bytes)
    ensures Compare(a, b) == -1 || Compare(a, b) == 0 || Compare(a, b) == 1
  {}

  /** A probe that does not stop either narrows the range or, exactly at a sticking row, repeats itself. */
  lemma ProbeNarrowsOrSticks(rows: seq<Row>, ip: Bytes, p: Probe)
    requires Within(rows, p) && p.Go? && p.low <= p.height
    ensures var q := Step(rows, ip, p);
            if Sticks(rows[Mid(p.low, p.height)], ip) then q == p
            else q.Go? ==> q.height - q.low < p.height - p.low
  {
    CompareRange(rows[Mid(p.low, p.height)].s, ip);
  }

  /** Once on a sticking row the search never ends. */
  lemma {:induction false} StuckForever(rows: seq<Row>, ip: Bytes, n: nat, m: nat)
    requires var p := Run(rows, ip, n); p.Go? && p.low <= p.height && Sticks(rows[Mid(p.low, p.height)], ip)
    ensures Run(rows, ip, n + m) == Run(rows, ip, n)
  {
    if m > 0 {
      StuckForever(rows, ip, n, m - 1);
      ProbeNarrowsOrSticks(rows, ip, Run(rows, ip, n));
      assert Run(rows, ip, n + m) == Step(rows, ip, Run(rows, ip, n + m - 1));
    }
  }

  lemma RunTurn(rows: seq<Row>, ip: Bytes, n: nat)
    ensures Run(rows, ip, 0) == Go(0, |rows| - 1)
    ensures Run(rows, ip, n + 1) == Step(rows, ip, Run(rows, ip, n))
  {}

  /** The probe looks at a sticking row. */
  predicate Stuck(rows: seq<Row>, ip: Bytes, p: Probe)
    requires Within(rows, p)
  {
    p.Go? && p.low <= p.height && Sticks(rows[Mid(p.low, p.height)], ip)
  }

  /** Until it sticks, every probe takes at least one row out of the range. */
  lemma {:induction false} RangeShrinks(rows: seq<Row>, ip: Bytes, n: nat)
    requires forall k: nat :: k < n ==> !Stuck(rows, ip, Run(rows, ip, k))
    ensures var p := Run(rows, ip, n); p.Go? ==> p.height - p.low + 1 <= |rows| - n
  {
    hide Step, Sticks;
    RunTurn(rows, ip, n);
    if n > 0 {
      RangeShrinks(rows, ip, n - 1);
      RunTurn(rows, ip, n - 1);
      var p := Run(rows, ip, n - 1);
      if p.Go? && p.low <= p.height {
        ProbeNarrowsOrSticks(rows, ip, p);
      } else {
        EmptyRangeStops(rows, ip, p);
      }
    }
  }

  lemma EmptyRangeStops(rows: seq<Row>, ip: Bytes, p: Probe)
    requires Within(rows, p) && (p.Stop? || p.low > p.height)
    ensures Step(rows, ip, p).Stop?
  {}

  predicate StopsBy(rows: seq<Row>, ip: Bytes, n: nat) { Run(rows, ip, n).Stop? }

  predicate StuckAt(rows: seq<Row>, ip: Bytes, n: nat) { Stuck(rows, ip, Run(rows, ip, n)) }

  /** The search ends. */
  ghost predicate Answers(rows: seq<Row>, ip: Bytes) { exists n: nat :: StopsBy(rows, ip, n) }

  /** No probe of the search meets a sticking row. */
  ghost predicate NeverStuck(rows: seq<Row>, ip: Bytes) { forall n: nat :: !StuckAt(rows, ip, n) }

  /** The search of any table ends if and only if no probe meets a sticking row, and then within |rows| + 1 turns. */
  lemma {:induction false} AnswersIffNeverStuck(rows: seq<Row>, ip: Bytes)
    ensures Answers(rows, ip) <==> NeverStuck(rows, ip)
    ensures Answers(rows, ip) ==> StopsBy(rows, ip, |rows| + 1)
  {
    hide Step, Stuck;
    if n: nat :| StuckAt(rows, ip, n) {
      forall m: nat ensures !StopsBy(rows, ip, m) {
        NeverStopsAround(rows, ip, n, m);
      }
    } else {
      forall k: nat | k < |rows| ensures !Stuck(rows, ip, Run(rows, ip, k)) {
        assert !StuckAt(rows, ip, k);
      }
      RangeShrinks(rows, ip, |rows|);
      EmptyRangeStops(rows, ip, Run(rows, ip, |rows|));
      RunTurn(rows, ip, |rows|);
      assert StopsBy(rows, ip, |rows| + 1);
    }
  }

  lemma {:induction false} NeverStopsAround(rows: seq<Row>, ip: Bytes, n: nat, m: nat)
    requires StuckAt(rows, ip, n)
    ensures !StopsBy(rows, ip, m)
    decreases if m < n then n - m else 0
  {
    if m >= n {
      StuckForever(rows, ip, n, m - n);
    } else {
      NeverStopsAround(rows, ip, n, m + 1);
      RunTurn(rows, ip, m);
    }
  }

  /** A probe leaves at most half of the rows in the range. */
  lemma ProbeHalves(rows: seq<Row>, ip: Bytes, p: Probe)
    requires Within(rows, p) && p.Go? && p.low <= p.height && !Sticks(rows[Mid(p.low, p.height)], ip)
    ensures var q := Step(rows, ip, p); q.Go? ==> 2 * (q.height - q.low + 1) <= p.height - p.low + 1
  {
    hide Compare;
    CompareRange(rows[Mid(p.low, p.height)].s, ip);
    CompareRange(rows[Mid(p.low, p.height)].e, ip);
  }

  lemma {:induction false} RangeHalves(rows: seq<Row>, ip: Bytes, n: nat)
    requires NeverStuck(rows, ip)
    ensures var p := Run(rows, ip, n); p.Go? ==> (p.height - p.low + 1) * Pow2(n) <= |rows|
  {
    hide Step, Run, Sticks, NeverStuck;
    NotStuckAt(rows, ip, n - 1);
    if n == 0 {
      RunTurn(rows, ip, 0);
    } else {
      RangeHalves(rows, ip, n - 1);
      RunTurn(rows, ip, n - 1);
      var p, q := Run(rows, ip, n - 1), Run(rows, ip, n);
      if q.Go? {
        if p.Go? && p.low <= p.height {
          ProbeHalves(rows, ip, p);
          Doubling(q.height - q.low + 1, p.height - p.low + 1, Pow2(n - 1), |rows|);
        } else {
          EmptyRangeStops(rows, ip, p);
        }
      }
    }
  }

  lemma NotStuckAt(rows: seq<Row>, ip: Bytes, n: int)
    requires NeverStuck(rows, ip)
    ensures n >= 0 ==> !StuckAt(rows, ip, n)
  {}

  lemma Doubling(x: int, y: int, p: nat, n: int)
    requires 2 * x <= y && y * p <= n
    ensures x * (2 * p) <= n
  {
    MulMonotone(2 * x, y, p);
  }

  /** A search that ends does so after at most floor(log2 of the rows) + 1 probes. */
  lemma AnswersInLogTime(rows: seq<Row>, ip: Bytes, n: nat)
    requires Answers(rows, ip) && |rows| < Pow2(n)
    ensures StopsBy(rows, ip, n + 1)
  {
    hide Run, Step;
    AnswersIffNeverStuck(rows, ip);
    RangeHalves(rows, ip, n);
    var p := Run(rows, ip, n);
    if p.Go? && p.low <= p.height {
      MulMonotone(1, p.height - p.low + 1, Pow2(n));
    }
    EmptyRangeStops(rows, ip, p);
    RunTurn(rows, ip, n);
  }

  /** A row reversed at its own start: the one-row table never answers that address. */
  lemma ReversedRowHangs(rows: seq<Row>, n: nat)
    requires |rows| == 1 && Compare(rows[0].e, rows[0].s) < 0
    ensures !StopsBy(rows, rows[0].s, n)
  {
    hide Compare, Run;
    var ip := rows[0].s;
    CompareEqual(ip, ip);
    RunTurn(rows, ip, 0);
    OneRowProbe(rows, ip);
    NeverStopsAround(rows, ip, 0, n);
  }

  lemma OneRowProbe(rows: seq<Row>, ip: Bytes)
    requires |rows| == 1 && Sticks(rows[0], ip)
    ensures Stuck(rows, ip, Go(0, 0))
  {}

  // ---------------------------------------------------------------- which tables answer every address

  /** Rows in order of their starts, each ending before the next one starts; a row may still be reversed. */
  ghost predicate InOrder(rows: seq<Row>) {
    forall i, j :: 0 <= i < j < |rows| ==> Compare(rows[i].s, rows[j].s) < 0 && Compare(rows[i].e, rows[j].s) < 0
  }

  /** In such a table a row that sticks is never left out of the range, and no other row covers the address. */
  lemma {:induction false} StickingStaysInRange(rows: seq<Row>, ip: Bytes, i: nat, n: nat)
    requires InOrder(rows) && i < |rows| && Sticks(rows[i], ip)
    ensures var p := Run(rows, ip, n); p.Go? && p.low <= i <= p.height
  {
    hide Compare, Run;
    if n == 0 {
      RunTurn(rows, ip, 0);
    } else {
      RunTurn(rows, ip, n - 1);
      StickingStaysInRange(rows, ip, i, n - 1);
      var p := Run(rows, ip, n - 1);
      var mid := Mid(p.low, p.height);
      CompareEqual(rows[i].s, ip);
      assert mid < i ==> Compare(rows[mid].s, ip) < 0 && Compare(rows[mid].e, ip) < 0;
      CompareSwaps(rows[mid].s, ip);
      CompareRange(rows[mid].s, ip);
      assert i < mid ==> Compare(ip, rows[mid].s) < 0;
    }
  }

  /** There an address is answered exactly when no row sticks at it. */
  lemma AnswersIffNoneSticks(rows: seq<Row>, ip: Bytes)
    requires InOrder(rows)
    ensures Answers(rows, ip) <==> forall i :: 0 <= i < |rows| ==> !Sticks(rows[i], ip)
  {
    hide Run, Sticks;
    if i :| 0 <= i < |rows| && Sticks(rows[i], ip) {
      forall n: nat ensures !StopsBy(rows, ip, n) {
        StickingStaysInRange(rows, ip, i, n);
      }
    } else {
      AnswersIffNeverStuck(rows, ip);
    }
  }

  /** And every address is answered exactly when no row ends before it starts. */
  lemma AnswersAllIffNoneReversed(rows: seq<Row>)
    requires InOrder(rows)
    ensures (forall ip: Bytes :: Answers(rows, ip))
       <==> forall i :: 0 <= i < |rows| ==> Compare(rows[i].s, rows[i].e) <= 0
  {
    hide Run, Compare;
    if i :| 0 <= i < |rows| && Compare(rows[i].s, rows[i].e) > 0 {
      CompareSwaps(rows[i].s, rows[i].e);
      CompareEqual(rows[i].s, rows[i].s);
      AnswersIffNoneSticks(rows, rows[i].s);
      assert Sticks(rows[i], rows[i].s);
    } else {
      forall ip: Bytes ensures Answers(rows, ip) {
        forall i | 0 <= i < |rows| ensures !Sticks(rows[i], ip) {
          OrderedRowsNeverStick(rows[i], ip);
        }
        AnswersIffNoneSticks(rows, ip);
      }
    }
  }

  /** A row that starts at or before its end never sticks. */
  lemma OrderedRowsNeverStick(row: Row, ip: Bytes)
    requires Compare(row.s, row.e) <= 0
    ensures !Sticks(row, ip)
  {
    CompareEqual(row.s, ip);
    CompareSwaps(row.e, ip);
  }

  // ---------------------------------------------------------------- what the answer is

  /** Row i covers the address and holds the value. */
  ghost predicate HoldsAt(rows: seq<Row>, ip: Bytes, v: string, i: int) {
    0 <= i < |rows| && Covers(rows[i], ip) && rows[i].v == v
  }

  /** On any table whatever: a value that is returned belongs to a row covering the address. */
  lemma {:induction false} AnswerIsCovering(rows: seq<Row>, ip: Bytes, n: nat)
    requires Run(rows, ip, n).Stop? && Run(rows, ip, n).v != ""
    ensures exists i :: HoldsAt(rows, ip, Run(rows, ip, n).v, i)
  {
    hide Run, Covers;
    RunTurn(rows, ip, 0);
    RunTurn(rows, ip, n - 1);
    var p := Run(rows, ip, n - 1);
    if p.Stop? {
      AnswerIsCovering(rows, ip, n - 1);
    } else {
      assert HoldsAt(rows, ip, Run(rows, ip, n).v, Mid(p.low, p.height));
    }
  }

  /** On sorted disjoint rows a row that covers the address stays in the range. */
  lemma {:induction false} CoveringStaysInRange(rows: seq<Row>, ip: Bytes, i: nat, n: nat)
    requires SortedDisjoint(rows) && i < |rows| && Covers(rows[i], ip)
    ensures var p := Run(rows, ip, n); p.Go? ==> p.low <= i <= p.height
  {
    hide Run, Covers;
    if n == 0 {
      RunTurn(rows, ip, 0);
    } else {
      RunTurn(rows, ip, n - 1);
      CoveringStaysInRange(rows, ip, i, n - 1);
      var p := Run(rows, ip, n - 1);
      if p.Go? && p.low <= p.height {
        var mid := Mid(p.low, p.height);
        if mid <= i && Compare(rows[mid].s, ip) > 0 {
          StartsLater(rows, mid, i, ip);
        } else if i <= mid && Compare(rows[mid].s, ip) < 0 && !Covers(rows[mid], ip) {
          EndsEarlier(rows, i, mid, ip);
        }
      }
    }
  }

  lemma StartsLater(rows: seq<Row>, mid: int, i: int, ip: Bytes)
    requires SortedDisjoint(rows) && 0 <= mid <= i < |rows| && Compare(rows[mid].s, ip) > 0
    ensures !Covers(rows[i], ip)
  {
    if mid < i {
      CompareTransitive(rows[mid].s, rows[mid].e, rows[i].s);
      CompareSwaps(rows[mid].s, ip);
      CompareTransitive(ip, rows[mid].s, rows[i].s);
      CompareSwaps(ip, rows[i].s);
    }
  }

  lemma EndsEarlier(rows: seq<Row>, i: int, mid: int, ip: Bytes)
    requires SortedDisjoint(rows) && 0 <= i <= mid < |rows| && Compare(rows[mid].s, ip) < 0
    requires !Covers(rows[mid], ip)
    ensures !Covers(rows[i], ip)
  {
    if i < mid {
      CompareTransitive(rows[i].e, rows[mid].s, ip);
    }
  }

  /** On sorted disjoint rows the search answers what a scan from the first row on finds. */
  lemma {:induction false} AnswerIsScan(rows: seq<Row>, ip: Bytes, n: nat)
    requires SortedDisjoint(rows) && Run(rows, ip, n).Stop?
    ensures Run(rows, ip, n).v == LinearScan(rows, ip)
  {
    hide Run, Covers, Compare, LinearScan;
    RunTurn(rows, ip, 0);
    RunTurn(rows, ip, n - 1);
    var p := Run(rows, ip, n - 1);
    if p.Stop? {
      AnswerIsScan(rows, ip, n - 1);
    } else if p.low > p.height {
      forall i | 0 <= i < |rows| ensures !Covers(rows[i], ip) {
        if Covers(rows[i], ip) {
          CoveringStaysInRange(rows, ip, i, n - 1);
        }
      }
      ScanFindsNothing(rows, ip);
    } else {
      CoveringRowIsScanned(rows, ip, Mid(p.low, p.height));
    }
  }

  /** A scan answers with the first covering row, or with nothing when no row covers the address. */
  lemma ScanSpelledOut(rows: seq<Row>, ip: Bytes)
    ensures (forall i :: 0 <= i < |rows| ==> !Covers(rows[i], ip)) ==> LinearScan(rows, ip) == ""
    ensures forall i: nat :: i < |rows| && Covers(rows[i], ip) && (forall j :: 0 <= j < i ==> !Covers(rows[j], ip))
              ==> LinearScan(rows, ip) == rows[i].v
  {
    hide LinearScan, Covers;
    if forall i :: 0 <= i < |rows| ==> !Covers(rows[i], ip) {
      ScanFindsNothing(rows, ip);
    }
    forall i: nat | i < |rows| && Covers(rows[i], ip) && forall j :: 0 <= j < i ==> !Covers(rows[j], ip)
      ensures LinearScan(rows, ip) == rows[i].v
    {
      ScanSkips(rows, ip, i);
    }
  }

  lemma {:induction false} ScanFindsNothing(rows: seq<Row>, ip: Bytes)
    requires forall i :: 0 <= i < |rows| ==> !Covers(rows[i], ip)
    ensures LinearScan(rows, ip) == ""
  {
    if rows != [] {
      ScanFindsNothing(rows[1..], ip);
    }
  }

  lemma {:induction false} ScanSkips(rows: seq<Row>, ip: Bytes, mid: nat)
    requires mid < |rows| && Covers(rows[mid], ip)
    requires forall i :: 0 <= i < mid ==> !Covers(rows[i], ip)
    ensures LinearScan(rows, ip) == rows[mid].v
  {
    if mid > 0 {
      ScanSkips(rows[1..], ip, mid - 1);
    }
  }

  /** Disjoint rows: at most one covers the address, so any covering row is the one a scan stops at. */
  lemma CoveringRowIsScanned(rows: seq<Row>, ip: Bytes, mid: nat)
    requires SortedDisjoint(rows) && mid < |rows| && Covers(rows[mid], ip)
    ensures LinearScan(rows, ip) == rows[mid].v
  {
    forall i | 0 <= i < mid ensures !Covers(rows[i], ip) {
      CompareTransitive(rows[i].e, rows[mid].s, ip);
    }
    ScanSkips(rows, ip, mid);
  }

  /** For addresses of one length, covering is lying between two numbers. */
  lemma CoversIsBetween(row: Row, ip: Bytes)
    requires |row.s| == |row.e| == |ip|
    ensures Covers(row, ip) <==> BigEndian(row.s) <= BigEndian(ip) <= BigEndian(row.e)
  {
    CompareIsNumeric(row.s, ip);
    CompareIsNumeric(row.e, ip);
  }

  // ---------------------------------------------------------------- the search

  ghost predicate IsAnswer(rows: seq<Row>, ip: Bytes, v: string) { exists n: nat :: Run(rows, ip, n) == Stop(v) }

  /** Any table on which the loop ends. */
  method Search(ips: seq<Row>, sip: Bytes) returns (v: string)
    requires NeverStuck(ips, sip)
    ensures IsAnswer(ips, sip, v)
    ensures v != "" ==> exists i :: HoldsAt(ips, sip, v, i)
    ensures SortedDisjoint(ips) ==> v == LinearScan(ips, sip)
  {
    hide Run, Compare, LinearScan, SortedDisjoint;
    var low, height := 0, |ips| - 1;
    ghost var n: nat := 0;
    RunTurn(ips, sip, 0);
    while low <= height
      invariant Run(ips, sip, n) == Go(low, height)
      decreases height - low
    {
      var mid := low + (height - low) / 2;
      var ip := ips[mid];
      var cmp_s := Compare(ip.s, sip);
      var cmp_e := Compare(ip.e, sip);
      CompareRange(ip.s, sip);
      CompareRange(ip.e, sip);
      assert !StuckAt(ips, sip, n);
      RunTurn(ips, sip, n);
      n := n + 1;
      if cmp_s < 1 && cmp_e > -1 {
        v := ip.v;
        Answered(ips, sip, n);
        return;
      } else if cmp_s == 1 {
        height := mid - 1;
      } else if cmp_s == -1 {
        low := mid + 1;
      }
    }
    RunTurn(ips, sip, n);
    Answered(ips, sip, n + 1);
    v := "";
  }

  lemma Answered(rows: seq<Row>, ip: Bytes, n: nat)
    requires Run(rows, ip, n).Stop?
    ensures var v := Run(rows, ip, n).v;
            && (v != "" ==> exists i :: HoldsAt(rows, ip, v, i))
            && (SortedDisjoint(rows) ==> v == LinearScan(rows, ip))
  {
    if Run(rows, ip, n).v != "" {
      AnswerIsCovering(rows, ip, n);
    }
    if SortedDisjoint(rows) {
      AnswerIsScan(rows, ip, n);
    }
  }

  lemma SortedNeverStick(rows: seq<Row>, ip: Bytes)
    requires SortedDisjoint(rows)
    ensures NeverStuck(rows, ip)
  {
    hide Run, Sticks;
    forall n: nat ensures !StuckAt(rows, ip, n) {
      var p := Run(rows, ip, n);
      if p.Go? && p.low <= p.height {
        OrderedRowsNeverStick(rows[Mid(p.low, p.height)], ip);
      }
    }
  }

  /** parse is net.ParseIP. Sorted disjoint tables always meet the requires, by SortedNeverStick. */
  method GetRegionId(ip: string, parse: string -> Option<Bytes>, ipv4s: seq<Row>, ipv6s: seq<Row>)
    returns (region: string)
    requires parse(ip).Some? ==> NeverStuck(if ':' in ip then ipv6s else ipv4s, parse(ip).value)
    ensures parse(ip) == None ==> region == "0"
    ensures parse(ip).Some? ==>
              var table, addr := if ':' in ip then ipv6s else ipv4s, parse(ip).value;
              && (exists v :: IsAnswer(table, addr, v) && region == if v == "" then "0" else v)
              && (region != "0" ==> exists i :: HoldsAt(table, addr, region, i))
              && (SortedDisjoint(table) ==>
                    region == if LinearScan(table, addr) == "" then "0" else LinearScan(table, addr))
  {
    hide IsAnswer, LinearScan, SortedDisjoint, NeverStuck;
    var ip_b := parse(ip);
    if ip_b == None {
      return "0";
    }
    var req: string;
    if ':' in ip {
      req := Search(ipv6s, ip_b.value);
    } else {
      req := Search(ipv4s, ip_b.value);
    }
    region := if req == "" then "0" else req;
  }
}
