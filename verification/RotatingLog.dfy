/** The queued logger: producers append lines, a ticking loop writes them to hourly files and hands each
    finished file to registration. */
module RotatingLog {
  import opened Arith
  import opened Numerals

  /** A wall-clock reading as the file name shows it: the date as the number yyyymmdd, and the hour. */
  datatype Clock = Clock(date: nat, hour: nat)

  predicate ValidClock(c: Clock) { c.date < 1_0000_0000 && c.hour < 24 }

  predicate NotAfter(a: Clock, b: Clock) {
    a.date < b.date || (a.date == b.date && a.hour <= b.hour)
  }

  // ---------------------------------------------------------------- file names

  datatype Config = Config(dir: string, filename: string, topic: string)

  function NameOf(cfg: Config, c: Clock): (name: string)
    ensures name != ""
  {
    var date := Digits(c.date, 8);
    cfg.dir + date + "/" + cfg.filename + ".hour." + (date + Digits(c.hour, 2))
  }

  /** Different hours have different files. */
  lemma NamesDiffer(cfg: Config, a: Clock, b: Clock)
    requires ValidClock(a) && ValidClock(b) && NameOf(cfg, a) == NameOf(cfg, b)
    ensures a == b
  {
    var x, y := Digits(a.date, 8) + Digits(a.hour, 2), Digits(b.date, 8) + Digits(b.hour, 2);
    var s, t := NameOf(cfg, a), NameOf(cfg, b);
    assert s[|s| - 10..] == x && t[|t| - 10..] == y;
    assert x[..8] == Digits(a.date, 8) && x[8..] == Digits(a.hour, 2);
    assert y[..8] == Digits(b.date, 8) && y[8..] == Digits(b.hour, 2);
    TimesFit(a);
    TimesFit(b);
  }

  /** Eight digits hold a date, two an hour. */
  lemma TimesFit(c: Clock)
    requires ValidClock(c)
    ensures AllDigits(Digits(c.date, 8)) && Decimal(Digits(c.date, 8)) == c.date
    ensures AllDigits(Digits(c.hour, 2)) && Decimal(Digits(c.hour, 2)) == c.hour
  {
    assert Pow10(8) == 1_0000_0000 by { assert Pow10(4) == 10000; }
    assert Pow10(2) == 100;
    DigitsAreRead(c.date, 8);
    DigitsAreRead(c.hour, 2);
  }

  /** A file name spelled out: directory, date, file name, and the date and hour once more. */
  lemma NameSpelledOut(cfg: Config, c: Clock) returns (date: string, hour: string)
    requires ValidClock(c)
    ensures |date| == 8 && AllDigits(date) && Decimal(date) == c.date
    ensures |hour| == 2 && AllDigits(hour) && Decimal(hour) == c.hour
    ensures NameOf(cfg, c) == cfg.dir + date + "/" + cfg.filename + ".hour." + date + hour
  {
    date, hour := Digits(c.date, 8), Digits(c.hour, 2);
    TimesFit(c);
    var front := cfg.dir + date + "/" + cfg.filename + ".hour.";
    assert front + (date + hour) == front + date + hour;
  }

  /** The error logs are the files with these seven characters in their name. */
  lemma ErrorLogSpelledOut(file: string)
    ensures IsErrorLog(file) <==> exists pre, post :: file == pre + "err.log" + post
  {
    if IsErrorLog(file) {
      var i :| 0 <= i <= |file| && "err.log" <= file[i..];
      assert file == file[..i] + "err.log" + file[i + 7..];
    }
    if pre, post :| file == pre + "err.log" + post {
      assert file == pre + ("err.log" + post);
      assert file[|pre|..] == "err.log" + post;
    }
  }

  predicate Contains(s: string, t: string) {
    exists i :: 0 <= i <= |s| && t <= s[i..]
  }

  predicate IsErrorLog(file: string) { Contains(file, "err.log") }

  // ---------------------------------------------------------------- the state and its steps

  /** A line in a file, and when it was written. */
  datatype Entry = Entry(file: string, line: string, at: Clock)

  /** A file handed to registration, when that many lines had been written. */
  datatype Registration = Registration(file: string, written: nat)

  /** curfile is "" before the first write. kafka holds what a configured topic took instead of a file. */
  datatype State = State(queue: seq<string>, curfile: string, written: seq<Entry>,
                         registered: seq<Registration>, kafka: seq<string>)

  const INITIAL := State([], "", [], [], [])

  function Write(st: State, cfg: Config, line: string, now: Clock): State {
    var name := NameOf(cfg, now);
    var closing := st.curfile != "" && name != st.curfile && !IsErrorLog(st.curfile);
    st.(curfile := name,
        written := st.written + [Entry(name, line, now)],
        registered := st.registered + if closing then [Registration(st.curfile, |st.written|)] else [])
  }

  /** The head of the queue goes to its sink. */
  function Deliver(st: State, cfg: Config, now: Clock): State
    requires st.queue != []
  {
    var line := st.queue[0];
    var after := if cfg.topic != "" then st.(kafka := st.kafka + [line]) else Write(st, cfg, line, now);
    after.(queue := st.queue[1..])
  }

  /** k lines delivered; times gives the clock reading of each. */
  function Drain(st: State, cfg: Config, times: nat -> Clock, k: nat): (r: State)
    requires k <= |st.queue|
    ensures r.queue == st.queue[k..]
  {
    if k == 0 then st else Deliver(Drain(st, cfg, times, k - 1), cfg, times(k - 1))
  }

  /** How much one tick drains: at most the batch size, or everything when the batch size is not positive. */
  function BatchOf(queued: nat, dealnumfre: int): nat {
    if dealnumfre > 0 && dealnumfre < queued then dealnumfre else queued
  }

  /** A tick carries the batch size set by then. */
  datatype Event = Push(line: string) | Tick(times: nat -> Clock, dealnumfre: int)

  function Step(st: State, cfg: Config, e: Event): State {
    match e
    case Push(line) => st.(queue := st.queue + [line])
    case Tick(times, dealnumfre) => Drain(st, cfg, times, BatchOf(|st.queue|, dealnumfre))
  }

  function Run(st: State, cfg: Config, es: seq<Event>): State {
    if es == [] then st else Step(Run(st, cfg, es[..|es| - 1]), cfg, es[|es| - 1])
  }

  /** The lines a batch writes, each in the file of its own moment. */
  function Batch(cfg: Config, queue: seq<string>, times: nat -> Clock, k: nat): seq<Entry>
    requires k <= |queue|
  {
    seq(k, i requires 0 <= i < k => Entry(NameOf(cfg, times(i)), queue[i], times(i)))
  }

  /** What k delivered lines change: they go to the topic when there is one, otherwise to files, each line as
      written at its own moment. */
  lemma {:induction false} DrainSpelledOut(st: State, cfg: Config, times: nat -> Clock, k: nat)
    requires k <= |st.queue|
    ensures var r := Drain(st, cfg, times, k);
            if cfg.topic != "" then r == st.(queue := st.queue[k..], kafka := st.kafka + st.queue[..k])
            else r.kafka == st.kafka && r.queue == st.queue[k..]
                 && r.written == st.written + Batch(cfg, st.queue, times, k)
  {
    hide NameOf, IsErrorLog, Deliver, Batch;
    BatchTurn(cfg, st.queue, times, k);
    if k > 0 {
      DrainSpelledOut(st, cfg, times, k - 1);
      var mid := Drain(st, cfg, times, k - 1);
      DeliverSpelledOut(mid, cfg, times(k - 1));
      assert mid.queue[0] == st.queue[k - 1] && mid.queue[1..] == st.queue[k..];
    }
  }

  lemma BatchTurn(cfg: Config, queue: seq<string>, times: nat -> Clock, k: nat)
    requires k <= |queue|
    ensures k == 0 ==> Batch(cfg, queue, times, k) == []
    ensures k > 0 ==> Batch(cfg, queue, times, k) ==
                      Batch(cfg, queue, times, k - 1)
                      + [Entry(NameOf(cfg, times(k - 1)), queue[k - 1], times(k - 1))]
    ensures k > 0 ==> queue[..k] == queue[..k - 1] + [queue[k - 1]]
  {
    hide NameOf;
  }

  lemma DeliverSpelledOut(st: State, cfg: Config, now: Clock)
    requires st.queue != []
    ensures var r := Deliver(st, cfg, now);
            if cfg.topic != "" then r == st.(queue := st.queue[1..], kafka := st.kafka + [st.queue[0]])
            else r.kafka == st.kafka && r.queue == st.queue[1..]
                 && r.written == st.written + [Entry(NameOf(cfg, now), st.queue[0], now)]
  {
    hide NameOf, IsErrorLog;
  }

  /** One tick delivers the batch size, or the whole queue when that is shorter or the size is not positive. */
  lemma TickSpelledOut(st: State, cfg: Config, times: nat -> Clock, n: int)
    ensures var k := if n <= 0 || |st.queue| <= n then |st.queue| else n;
            var r := Step(st, cfg, Tick(times, n));
            && r.queue == st.queue[k..]
            && (cfg.topic != "" ==> r.kafka == st.kafka + st.queue[..k] && r.written == st.written)
            && (cfg.topic == "" ==>
                  r.kafka == st.kafka && |r.written| == |st.written| + k && st.written <= r.written
                  && forall i :: 0 <= i < k ==>
                       r.written[|st.written| + i] == Entry(NameOf(cfg, times(i)), st.queue[i], times(i)))
  {
    hide Drain, NameOf;
    DrainSpelledOut(st, cfg, times, if n <= 0 || |st.queue| <= n then |st.queue| else n);
  }

  class Logger {
    const cfg: Config
    var dealnumfre: int
    var queue: seq<string>
    var curfile: string
    var written: seq<Entry>
    var registered: seq<Registration>
    var kafka: seq<string>

    constructor (cfg: Config)
      ensures this.cfg == cfg && dealnumfre == 5000 && Now() == INITIAL
    {
      this.cfg := cfg;
      dealnumfre := 5000;
      queue, curfile, written, registered, kafka := [], "", [], [], [];
    }

    function Now(): State
      reads this
    {
      State(queue, curfile, written, registered, kafka)
    }

    method SetDealProInfo(numfre: int)
      modifies this`dealnumfre
      ensures dealnumfre == numfre
    {
      dealnumfre := numfre;
    }

    method LogFile(str: string)
      modifies this`queue
      ensures Now() == Step(old(Now()), cfg, Push(str))
    {
      queue := queue + [str];
    }

    method WriteLog(str: string, now: Clock)
      modifies this`curfile, this`written, this`registered
      ensures Now() == Write(old(Now()), cfg, str, now)
    {
      if curfile == "" {
        curfile := NameOf(cfg, now);
      } else {
        var nametmp := NameOf(cfg, now);
        if nametmp != curfile {
          if !IsErrorLog(curfile) {
            registered := registered + [Registration(curfile, |written|)];
          }
          curfile := nametmp;
        }
      }
      written := written + [Entry(curfile, str, now)];
    }

    /** One round of the drain loop. */
    method DrainBatch(times: nat -> Clock)
      modifies this`queue, this`curfile, this`written, this`registered, this`kafka
      ensures Now() == Step(old(Now()), cfg, Tick(times, dealnumfre))
    {
      hide NameOf, IsErrorLog, Write;
      ghost var st := Now();
      var i: nat := 0;
      while queue != []
        invariant i <= |st.queue| && (dealnumfre > 0 ==> i < dealnumfre)
        invariant Now() == Drain(st, cfg, times, i)
        decreases |queue|
      {
        var line := queue[0];
        if cfg.topic != "" {
          kafka := kafka + [line];
        } else {
          WriteLog(line, times(i));
        }
        queue := queue[1..];
        i := i + 1;
        if i == dealnumfre {
          return;
        }
      }
    }
  }

  // ---------------------------------------------------------------- nothing lost, nothing twice

  function Pushed(es: seq<Event>): seq<string> {
    if es == [] then []
    else Pushed(es[..|es| - 1]) + match es[|es| - 1] case Push(line) => [line] case Tick(_, _) => []
  }

  function Lines(written: seq<Entry>): seq<string> {
    seq(|written|, i requires 0 <= i < |written| => written[i].line)
  }

  /** Lines delivered so far, whichever sink is configured. */
  function Delivered(st: State, cfg: Config): seq<string> {
    if cfg.topic != "" then st.kafka else Lines(st.written)
  }

  lemma DeliverMovesLine(st: State, cfg: Config, now: Clock)
    requires st.queue != []
    ensures Delivered(Deliver(st, cfg, now), cfg) == Delivered(st, cfg) + [st.queue[0]]
  {
    hide NameOf, IsErrorLog;
  }

  lemma {:induction false} DrainMovesLines(st: State, cfg: Config, times: nat -> Clock, k: nat)
    requires k <= |st.queue|
    ensures Delivered(Drain(st, cfg, times, k), cfg) == Delivered(st, cfg) + st.queue[..k]
  {
    hide Deliver, Delivered;
    if k > 0 {
      DrainMovesLines(st, cfg, times, k - 1);
      var mid := Drain(st, cfg, times, k - 1);
      assert mid.queue[0] == st.queue[k - 1];
      assert st.queue[..k] == st.queue[..k - 1] + [st.queue[k - 1]];
      DeliverMovesLine(mid, cfg, times(k - 1));
    }
  }

  lemma RunTurn(st: State, cfg: Config, es: seq<Event>)
    requires es != []
    ensures Run(st, cfg, es) == Step(Run(st, cfg, es[..|es| - 1]), cfg, es[|es| - 1])
  {}

  lemma StepMovesLines(st: State, cfg: Config, e: Event)
    ensures var st' := Step(st, cfg, e);
            Delivered(st', cfg) + st'.queue ==
            Delivered(st, cfg) + st.queue + match e case Push(line) => [line] case Tick(_, _) => []
  {
    hide Drain;
    match e
    case Push(line) =>
      assert Delivered(st, cfg) + (st.queue + [line]) == (Delivered(st, cfg) + st.queue) + [line];
    case Tick(times, dealnumfre) =>
      var k := BatchOf(|st.queue|, dealnumfre);
      DrainMovesLines(st, cfg, times, k);
      assert st.queue == st.queue[..k] + st.queue[k..];
      assert Delivered(st, cfg) + st.queue == (Delivered(st, cfg) + st.queue[..k]) + st.queue[k..];
  }

  /** In every interleaving of producers and ticks: pushed = delivered followed by queued, in order. */
  lemma {:induction false} NothingLost(cfg: Config, es: seq<Event>)
    ensures var st := Run(INITIAL, cfg, es); Pushed(es) == Delivered(st, cfg) + st.queue
  {
    hide Step;
    if es != [] {
      var init := es[..|es| - 1];
      NothingLost(cfg, init);
      RunTurn(INITIAL, cfg, es);
      StepMovesLines(Run(INITIAL, cfg, init), cfg, es[|es| - 1]);
    }
  }

  // ---------------------------------------------------------------- how fast the queue empties

  /** Nothing but ticks, each with a positive batch size. */
  ghost predicate Quiet(es: seq<Event>) { forall i :: 0 <= i < |es| ==> es[i].Tick? && es[i].dealnumfre > 0 }

  /** The batch sizes of the ticks added up. */
  ghost function Batches(es: seq<Event>): nat
    requires Quiet(es)
  {
    if es == [] then 0 else Batches(es[..|es| - 1]) + es[|es| - 1].dealnumfre
  }

  /** Quiet ticks take as many lines as their batch sizes allow, as long as there are lines. */
  lemma {:induction false} QuietTicks(st: State, cfg: Config, es: seq<Event>)
    requires Quiet(es)
    ensures var left := |st.queue| - Batches(es); |Run(st, cfg, es).queue| == if left > 0 then left else 0
  {
    if es != [] {
      hide Run, Drain;
      QuietTicks(st, cfg, es[..|es| - 1]);
      RunTurn(st, cfg, es);
    }
  }

  lemma {:induction false} SteadyBatches(es: seq<Event>, n: nat)
    requires Quiet(es) && forall i :: 0 <= i < |es| ==> es[i].dealnumfre == n
    ensures Batches(es) == |es| * n
  {
    if es != [] {
      SteadyBatches(es[..|es| - 1], n);
      MulMinusOne(|es|, n);
    }
  }

  /** A queue of length L is empty after quiet ticks exactly when their batch sizes add up to L; with one batch
      size n, when they number at least L / n, rounded up. */
  lemma EmptyIffEnoughTicks(st: State, cfg: Config, es: seq<Event>, n: nat)
    requires Quiet(es)
    ensures Run(st, cfg, es).queue == [] <==> Batches(es) >= |st.queue|
    ensures n > 0 && (forall i :: 0 <= i < |es| ==> es[i].dealnumfre == n) ==>
              (Run(st, cfg, es).queue == [] <==> |es| >= (|st.queue| + n - 1) / n)
  {
    hide Run, Batches;
    QuietTicks(st, cfg, es);
    if n > 0 && forall i :: 0 <= i < |es| ==> es[i].dealnumfre == n {
      SteadyBatches(es, n);
      CeilIff(|es|, |st.queue|, n);
    }
  }

  // ---------------------------------------------------------------- rotation

  /** The registrations a sequence of writes calls for: at every change of file, the file left behind. */
  function Boundaries(written: seq<Entry>): seq<Registration> {
    if |written| < 2 then []
    else
      var n := |written| - 1;
      Boundaries(written[..n])
      + if written[n].file != written[n - 1].file && !IsErrorLog(written[n - 1].file)
        then [Registration(written[n - 1].file, n)] else []
  }

  /** Every line is in the file of its hour. */
  ghost predicate InHourFiles(written: seq<Entry>, cfg: Config) {
    forall i :: 0 <= i < |written| ==> written[i].file == NameOf(cfg, written[i].at)
  }

  /** What every step keeps. */
  ghost predicate Consistent(st: State, cfg: Config) {
    && InHourFiles(st.written, cfg)
    && st.curfile == (if st.written == [] then "" else st.written[|st.written| - 1].file)
    && st.registered == Boundaries(st.written)
  }

  lemma DeliverConsistent(st: State, cfg: Config, now: Clock)
    requires Consistent(st, cfg) && st.queue != []
    ensures Consistent(Deliver(st, cfg, now), cfg)
  {
    hide NameOf, IsErrorLog, Boundaries;
    var written' := st.written + [Entry(NameOf(cfg, now), st.queue[0], now)];
    assert written'[..|st.written|] == st.written;
    BoundariesTurn(st.written);
    BoundariesTurn(written');
  }

  lemma {:induction false} DrainConsistent(st: State, cfg: Config, times: nat -> Clock, k: nat)
    requires Consistent(st, cfg) && k <= |st.queue|
    ensures Consistent(Drain(st, cfg, times, k), cfg)
  {
    hide Consistent, Deliver;
    if k > 0 {
      DrainConsistent(st, cfg, times, k - 1);
      DeliverConsistent(Drain(st, cfg, times, k - 1), cfg, times(k - 1));
    }
  }

  lemma {:induction false} RunConsistent(cfg: Config, es: seq<Event>)
    ensures Consistent(Run(INITIAL, cfg, es), cfg)
  {
    if es != [] {
      var init := es[..|es| - 1];
      RunConsistent(cfg, init);
      var st := Run(INITIAL, cfg, init);
      if es[|es| - 1].Tick? {
        hide Consistent;
        DrainConsistent(st, cfg, es[|es| - 1].times, BatchOf(|st.queue|, es[|es| - 1].dealnumfre));
      }
    }
  }

  // ---------------------------------------------------------------- which registrations there are

  /** File n - 1 is left for file n, and is no error log. */
  predicate Leaves(written: seq<Entry>, n: int) {
    0 < n < |written| && written[n].file != written[n - 1].file && !IsErrorLog(written[n - 1].file)
  }

  lemma BoundariesTurn(written: seq<Entry>)
    ensures Boundaries(written) ==
            if |written| < 2 then []
            else
              var n := |written| - 1;
              Boundaries(written[..n]) + if Leaves(written, n) then [Registration(written[n - 1].file, n)] else []
  {}

  /** Every registration is made where a file is left. */
  lemma {:induction false} BoundaryIsLeaving(written: seq<Entry>, k: nat)
    requires k < |Boundaries(written)|
    ensures var r := Boundaries(written)[k]; Leaves(written, r.written) && written[r.written - 1].file == r.file
  {
    hide Boundaries, IsErrorLog;
    BoundariesTurn(written);
    var init := written[..|written| - 1];
    if k < |Boundaries(init)| {
      BoundaryIsLeaving(init, k);
    }
  }

  lemma {:induction false} BoundariesAscend(written: seq<Entry>, j: nat, k: nat)
    requires j < k < |Boundaries(written)|
    ensures Boundaries(written)[j].written < Boundaries(written)[k].written
  {
    hide Boundaries, IsErrorLog;
    BoundariesTurn(written);
    var init := written[..|written| - 1];
    if k < |Boundaries(init)| {
      BoundariesAscend(init, j, k);
    } else {
      BoundaryIsLeaving(init, j);
    }
  }

  /** And wherever one is left there is a registration. */
  lemma {:induction false} LeavingIsBoundary(written: seq<Entry>, n: nat) returns (k: nat)
    requires Leaves(written, n)
    ensures k < |Boundaries(written)| && Boundaries(written)[k] == Registration(written[n - 1].file, n)
  {
    hide Boundaries, IsErrorLog;
    BoundariesTurn(written);
    var init := written[..|written| - 1];
    if n < |written| - 1 {
      k := LeavingIsBoundary(init, n);
    } else {
      k := |Boundaries(init)|;
    }
  }

  /** Somewhere between two different files the first one is left. */
  lemma {:induction false} LeavingPoint(written: seq<Entry>, i: nat, j: nat) returns (n: nat)
    requires i < j < |written| && written[i].file != written[j].file
    ensures i < n <= j && written[n].file != written[n - 1].file && written[n - 1].file == written[i].file
    decreases j - i
  {
    if written[i + 1].file != written[i].file {
      n := i + 1;
    } else {
      n := LeavingPoint(written, i + 1, j);
    }
  }

  /** An error log aside, a file that is left between i and j is registered in between. */
  lemma LeftIsRegistered(written: seq<Entry>, i: nat, j: nat) returns (k: nat)
    requires i < j < |written| && written[i].file != written[j].file && !IsErrorLog(written[i].file)
    ensures k < |Boundaries(written)| && Boundaries(written)[k].file == written[i].file
    ensures i < Boundaries(written)[k].written <= j
  {
    hide Boundaries, IsErrorLog;
    var n := LeavingPoint(written, i, j);
    k := LeavingIsBoundary(written, n);
  }

  // ---------------------------------------------------------------- when rotation is safe

  /** The registered file had been written, is no error log, and is not written from then on. */
  ghost predicate Retired(st: State, r: Registration) {
    && 0 < r.written < |st.written| && st.written[r.written - 1].file == r.file && !IsErrorLog(r.file)
    && forall i :: r.written <= i < |st.written| ==> st.written[i].file != r.file
  }

  /** No registered file is ever written again. */
  ghost predicate AllRetired(st: State) {
    forall k :: 0 <= k < |st.registered| ==> Retired(st, st.registered[k])
  }

  ghost predicate RegisteredOnce(st: State) {
    forall j, k :: 0 <= j < k < |st.registered| ==> st.registered[j].file != st.registered[k].file
  }

  ghost predicate ValidClocks(written: seq<Entry>) {
    forall i :: 0 <= i < |written| ==> ValidClock(written[i].at)
  }

  /** Writes in one hour, then in another, then in the first again. */
  predicate HourComesBack(written: seq<Entry>, i: int, j: int, k: int) {
    0 <= i < j < k < |written| && written[i].at == written[k].at && written[j].at != written[i].at
  }

  /** The hour of write i comes back, and is left again. */
  predicate HourLeftTwice(written: seq<Entry>, i: int, j: int, k: int, l: int) {
    HourComesBack(written, i, j, k) && k < l < |written| && written[l].at != written[k].at
  }

  /** Only hours of error logs come back. */
  ghost predicate NoHourComesBack(written: seq<Entry>, cfg: Config) {
    forall i, j, k :: HourComesBack(written, i, j, k) ==> IsErrorLog(NameOf(cfg, written[i].at))
  }

  /** Only hours of error logs are left twice. */
  ghost predicate NoHourLeftTwice(written: seq<Entry>, cfg: Config) {
    forall i, j, k, l :: HourLeftTwice(written, i, j, k, l) ==> IsErrorLog(NameOf(cfg, written[i].at))
  }

  lemma SameFileIffSameHour(written: seq<Entry>, cfg: Config, i: nat, j: nat)
    requires InHourFiles(written, cfg) && ValidClocks(written) && i < |written| && j < |written|
    ensures written[i].file == written[j].file <==> written[i].at == written[j].at
  {
    hide NameOf;
    if written[i].file == written[j].file {
      NamesDiffer(cfg, written[i].at, written[j].at);
    }
  }

  lemma RetiredUnlessHourComesBack(st: State, cfg: Config, n: nat)
    requires Consistent(st, cfg) && ValidClocks(st.written) && n < |st.registered|
    requires NoHourComesBack(st.written, cfg)
    ensures Retired(st, st.registered[n])
  {
    hide Boundaries, IsErrorLog, NameOf;
    BoundaryIsLeaving(st.written, n);
    var r := st.registered[n];
    SameFileIffSameHour(st.written, cfg, r.written - 1, r.written);
    forall k | r.written <= k < |st.written| ensures st.written[k].file != r.file {
      SameFileIffSameHour(st.written, cfg, r.written - 1, k);
      assert st.written[k].file == r.file <==> HourComesBack(st.written, r.written - 1, r.written, k);
    }
  }

  lemma RewrittenWhenHourComesBack(st: State, cfg: Config, i: int, j: int, k: int) returns (n: nat)
    requires Consistent(st, cfg) && ValidClocks(st.written) && HourComesBack(st.written, i, j, k)
    requires !IsErrorLog(NameOf(cfg, st.written[i].at))
    ensures n < |st.registered| && !Retired(st, st.registered[n])
  {
    hide Boundaries, IsErrorLog, NameOf;
    SameFileIffSameHour(st.written, cfg, i, j);
    n := LeftIsRegistered(st.written, i, j);
    assert st.written[k].file == st.registered[n].file;
  }

  /** In every run, whatever the clock does: no registered file is written again if and only if no hour of an
      ordinary log is left and comes back. */
  lemma RetiredIffNoHourComesBack(cfg: Config, es: seq<Event>)
    requires ValidClocks(Run(INITIAL, cfg, es).written)
    ensures var st := Run(INITIAL, cfg, es); AllRetired(st) <==> NoHourComesBack(st.written, cfg)
  {
    hide Run, Consistent, IsErrorLog, NameOf, Retired;
    var st := Run(INITIAL, cfg, es);
    RunConsistent(cfg, es);
    if NoHourComesBack(st.written, cfg) {
      forall n | 0 <= n < |st.registered| ensures Retired(st, st.registered[n]) {
        RetiredUnlessHourComesBack(st, cfg, n);
      }
    } else {
      var i, j, k :| HourComesBack(st.written, i, j, k) && !IsErrorLog(NameOf(cfg, st.written[i].at));
      var n := RewrittenWhenHourComesBack(st, cfg, i, j, k);
    }
  }

  lemma OnceUnlessHourLeftTwice(st: State, cfg: Config, m: nat, n: nat)
    requires Consistent(st, cfg) && ValidClocks(st.written) && m < n < |st.registered|
    requires NoHourLeftTwice(st.written, cfg)
    ensures st.registered[m].file != st.registered[n].file
  {
    hide Boundaries, IsErrorLog, NameOf;
    BoundaryIsLeaving(st.written, m);
    BoundaryIsLeaving(st.written, n);
    BoundariesAscend(st.written, m, n);
    var a, b := st.registered[m].written, st.registered[n].written;
    SameFileIffSameHour(st.written, cfg, a - 1, a);
    SameFileIffSameHour(st.written, cfg, a - 1, b - 1);
    SameFileIffSameHour(st.written, cfg, b - 1, b);
    assert st.registered[m].file == st.registered[n].file <==> HourLeftTwice(st.written, a - 1, a, b - 1, b);
  }

  lemma TwiceWhenHourLeftTwice(st: State, cfg: Config, i: int, j: int, k: int, l: int)
    requires Consistent(st, cfg) && ValidClocks(st.written) && HourLeftTwice(st.written, i, j, k, l)
    requires !IsErrorLog(NameOf(cfg, st.written[i].at))
    ensures !RegisteredOnce(st)
  {
    hide Boundaries, IsErrorLog, NameOf;
    SameFileIffSameHour(st.written, cfg, i, j);
    SameFileIffSameHour(st.written, cfg, i, k);
    SameFileIffSameHour(st.written, cfg, k, l);
    var m := LeftIsRegistered(st.written, i, j);
    var n := LeftIsRegistered(st.written, k, l);
    assert m != n && st.registered[m].file == st.registered[n].file;
  }

  /** And no file is registered twice if and only if no hour of an ordinary log is left, comes back and is left
      again. */
  lemma OnceIffNoHourLeftTwice(cfg: Config, es: seq<Event>)
    requires ValidClocks(Run(INITIAL, cfg, es).written)
    ensures var st := Run(INITIAL, cfg, es); RegisteredOnce(st) <==> NoHourLeftTwice(st.written, cfg)
  {
    hide Run, Consistent, IsErrorLog, NameOf;
    var st := Run(INITIAL, cfg, es);
    RunConsistent(cfg, es);
    if NoHourLeftTwice(st.written, cfg) {
      forall m, n | 0 <= m < n < |st.registered| ensures st.registered[m].file != st.registered[n].file {
        OnceUnlessHourLeftTwice(st, cfg, m, n);
      }
    } else {
      var i, j, k, l :| HourLeftTwice(st.written, i, j, k, l) && !IsErrorLog(NameOf(cfg, st.written[i].at));
      TwiceWhenHourLeftTwice(st, cfg, i, j, k, l);
    }
  }

  /** The clock readings of the writes, taken in order, never go back. */
  ghost predicate ClockForward(written: seq<Entry>) {
    forall i, j :: 0 <= i <= j < |written| ==> NotAfter(written[i].at, written[j].at)
  }

  ghost predicate RegisteredAt(st: State, file: string, k: nat) {
    k < |st.registered| && st.registered[k].file == file
  }

  /** A file that has been written and left, an error log aside. */
  predicate LeftBehind(st: State, i: nat) {
    i < |st.written| && st.written[i].file != st.curfile && !IsErrorLog(st.written[i].file)
  }

  /** In every run every ordinary file left behind is registered. With a clock that does not go back a registered
      file is moreover never written again and never registered again. */
  lemma RotationSafe(cfg: Config, es: seq<Event>)
    ensures var st := Run(INITIAL, cfg, es);
            && (forall i: nat :: LeftBehind(st, i) ==> exists k: nat :: RegisteredAt(st, st.written[i].file, k))
            && (ValidClocks(st.written) && ClockForward(st.written) ==> AllRetired(st) && RegisteredOnce(st))
  {
    hide Run, IsErrorLog, NameOf, Boundaries;
    var st := Run(INITIAL, cfg, es);
    RunConsistent(cfg, es);
    forall i: nat | LeftBehind(st, i) ensures exists k: nat :: RegisteredAt(st, st.written[i].file, k) {
      var k := LeftIsRegistered(st.written, i, |st.written| - 1);
      assert RegisteredAt(st, st.written[i].file, k);
    }
    if ValidClocks(st.written) && ClockForward(st.written) {
      forall i, j, k ensures !HourComesBack(st.written, i, j, k) {
        ForwardNeverComesBack(st.written, i, j, k);
      }
      RetiredIffNoHourComesBack(cfg, es);
      OnceIffNoHourLeftTwice(cfg, es);
    }
  }

  lemma ForwardNeverComesBack(written: seq<Entry>, i: int, j: int, k: int)
    requires ClockForward(written)
    ensures !HourComesBack(written, i, j, k)
  {
    if 0 <= i < j < k < |written| {
      assert NotAfter(written[i].at, written[j].at) && NotAfter(written[j].at, written[k].at);
    }
  }

  /** A clock that goes back one hour: the first file is written again after it was registered. */
  lemma ClockBackReopens(cfg: Config)
    requires cfg.topic == "" && !IsErrorLog(NameOf(cfg, Clock(20240101, 1)))
    ensures var a, b := Clock(20240101, 1), Clock(20240101, 2);
            var st := Write(Write(Write(INITIAL, cfg, "x", a), cfg, "y", b), cfg, "z", a);
            Registration(NameOf(cfg, a), 1) in st.registered && st.written[2].file == NameOf(cfg, a)
  {
    var a, b := Clock(20240101, 1), Clock(20240101, 2);
    if NameOf(cfg, a) == NameOf(cfg, b) {
      NamesDiffer(cfg, a, b);
    }
  }
}
