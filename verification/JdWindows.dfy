/** How a JD order query is cut into time windows, and why the int64 arithmetic of the cut is exact. */
module JdWindows {
  import opened Arith
  import opened Numerals
  import opened Wrappers

  /** The half-open span [start, end). */
  datatype Window = Window(start: int, end: int)

  /** Where the window that opens at start closes. */
  function Close(start: int, end: int, limit: int): int {
    if start + limit > end then end else start + limit
  }

  function Cut(start: int, end: int, limit: int): seq<Window>
    requires limit > 0
    decreases end - start
  {
    if start >= end then []
    else [Window(start, Close(start, end, limit))] + Cut(Close(start, end, limit), end, limit)
  }

  /** Window i is a full one, and the next one starts where it ends. */
  predicate Joins(ws: seq<Window>, i: int, limit: int) {
    0 <= i < |ws| - 1 && ws[i].end - ws[i].start == limit && ws[i].end == ws[i + 1].start
  }

  /** Non-empty windows, none over the limit and all but the last exactly at it, each starting where
      the one before ends, together covering [start, end). */
  ghost predicate Tiles(ws: seq<Window>, start: int, end: int, limit: int) {
    && (forall i :: 0 <= i < |ws| ==> 0 < ws[i].end - ws[i].start <= limit)
    && (forall i :: 0 <= i < |ws| - 1 ==> Joins(ws, i, limit))
    && (start < end <==> ws != [])
    && (ws != [] ==> ws[0].start == start && ws[|ws| - 1].end == end)
  }

  lemma CutTurn(start: int, end: int, limit: int)
    requires limit > 0
    ensures Cut(start, end, limit) ==
            if start >= end then []
            else [Window(start, Close(start, end, limit))] + Cut(Close(start, end, limit), end, limit)
  {}

  lemma {:induction false} CutTiles(start: int, end: int, limit: int)
    requires limit > 0
    ensures Tiles(Cut(start, end, limit), start, end, limit)
    decreases end - start
  {
    hide Cut, Tiles;
    CutTurn(start, end, limit);
    if start < end {
      var e := Close(start, end, limit);
      CutTiles(e, end, limit);
      OneMoreTile(Cut(e, end, limit), start, end, limit);
    } else {
      NoTiles(start, end, limit);
    }
  }

  lemma NoTiles(start: int, end: int, limit: int)
    requires start >= end
    ensures Tiles([], start, end, limit)
  {}

  lemma OneMoreTile(rest: seq<Window>, start: int, end: int, limit: int)
    requires limit > 0 && start < end
    requires Tiles(rest, Close(start, end, limit), end, limit)
    ensures Tiles([Window(start, Close(start, end, limit))] + rest, start, end, limit)
  {
    var ws := [Window(start, Close(start, end, limit))] + rest;
    forall i | 0 <= i < |ws| - 1 ensures Joins(ws, i, limit) {
      assert i > 0 ==> Joins(rest, i - 1, limit);
    }
  }

  /** The number of windows is the ceiling of the span over the limit. */
  lemma {:induction false} CutCount(start: int, end: int, limit: int)
    requires limit > 0
    ensures |Cut(start, end, limit)| == if start < end then (end - start + limit - 1) / limit else 0
    decreases end - start
  {
    if start < end {
      CutSpan(start, end, limit);
      CeilUnique(|Cut(start, end, limit)|, end - start, limit);
    }
  }

  lemma {:induction false} CutSpan(start: int, end: int, limit: int)
    requires limit > 0 && start < end
    ensures var n := |Cut(start, end, limit)|; (n - 1) * limit < end - start <= n * limit
    decreases end - start
  {
    if start + limit < end {
      CutSpan(start + limit, end, limit);
      var n := |Cut(start + limit, end, limit)|;
      assert n * limit == (n - 1) * limit + limit && (n + 1) * limit == n * limit + limit;
    } else {
      assert Cut(Close(start, end, limit), end, limit) == [];
      assert |Cut(start, end, limit)| == 1;
    }
  }

  /** Only one sequence of windows tiles a span. */
  lemma {:induction false} TilingUnique(ws: seq<Window>, start: int, end: int, limit: int)
    requires limit > 0 && Tiles(ws, start, end, limit)
    ensures ws == Cut(start, end, limit)
    decreases |ws|
  {
    if ws != [] {
      RestTiles(ws, start, end, limit);
      TilingUnique(ws[1..], ws[0].end, end, limit);
      assert ws == [ws[0]] + ws[1..];
      assert ws[0] == Window(start, Close(start, end, limit));
    }
  }

  lemma RestTiles(ws: seq<Window>, start: int, end: int, limit: int)
    requires limit > 0 && Tiles(ws, start, end, limit) && ws != []
    ensures Tiles(ws[1..], ws[0].end, end, limit)
    ensures ws[0].end == Close(start, end, limit)
  {
    var rest := ws[1..];
    forall i | 0 <= i < |rest| - 1 ensures Joins(rest, i, limit) {
      assert Joins(ws, i + 1, limit);
    }
    if rest != [] {
      assert Joins(ws, 0, limit);
      StartsBeforeEnd(ws, 1, start, end, limit);
      assert rest[|rest| - 1] == ws[|ws| - 1];
    }
  }

  lemma {:induction false} StartsBeforeEnd(ws: seq<Window>, i: nat, start: int, end: int, limit: int)
    requires Tiles(ws, start, end, limit) && i < |ws|
    ensures ws[i].start < end
    decreases |ws| - i
  {
    if i + 1 < |ws| {
      assert Joins(ws, i, limit);
      StartsBeforeEnd(ws, i + 1, start, end, limit);
    }
  }

  // ---------------------------------------------------------------- int64

  const MIN_INT64: int := -0x8000_0000_0000_0000
  const MAX_INT64: int := 0x7fff_ffff_ffff_ffff

  /** Two's complement addition of the int64 sum a + b. */
  function Add64(a: int, b: int): (r: int)
    ensures MIN_INT64 <= r <= MAX_INT64
    ensures MIN_INT64 <= a + b <= MAX_INT64 ==> r == a + b
  {
    (a + b - MIN_INT64) % 0x1_0000_0000_0000_0000 + MIN_INT64
  }

  /** Go's integer division, which truncates toward zero. */
  function TruncDiv(a: int, b: int): int
    requires b > 0
  {
    if a >= 0 then a / b else -((-a) / b)
  }

  /** strconv.ParseInt(s, 10, 64). */
  function ParseInt64(s: string): Option<int> {
    var negative := s != [] && s[0] == '-';
    var digits := if s != [] && (s[0] == '-' || s[0] == '+') then s[1..] else s;
    if digits == [] || !AllDigits(digits) then None
    else
      var v: int := if negative then -(Decimal(digits) as int) else Decimal(digits);
      if MIN_INT64 <= v <= MAX_INT64 then Some(v) else None
  }

  /** s is the numeral v: digits, with at most one sign in front. */
  ghost predicate Spells(s: string, v: int) {
    exists sign, digits :: s == sign + digits && IsNumeral(sign, digits, v)
  }

  predicate IsNumeral(sign: string, digits: string, v: int) {
    && digits != "" && AllDigits(digits)
    && (if sign == "-" then v == -(Decimal(digits) as int) else (sign == "" || sign == "+") && v == Decimal(digits))
  }

  /** What is accepted is exactly what spells a number of 64 bits, and it becomes that number. */
  lemma ParseInt64SpelledOut(s: string, v: int)
    ensures ParseInt64(s) == Some(v) <==> Spells(s, v) && -9223372036854775808 <= v <= 9223372036854775807
  {
    hide Decimal, AllDigits;
    var signed := s != "" && (s[0] == '-' || s[0] == '+');
    var sign := if signed then [s[0]] else "";
    var digits := if signed then s[1..] else s;
    assert s == sign + digits;
    if t, ds :| s == t + ds && IsNumeral(t, ds, v) {
      SignIsUnique(s, t, ds, v);
    }
  }

  /** A numeral comes apart in one way only. */
  lemma SignIsUnique(s: string, sign: string, digits: string, v: int)
    requires s == sign + digits && IsNumeral(sign, digits, v)
    ensures s != "" && (s[0] == '-' || s[0] == '+' <==> sign != "")
    ensures digits == (if sign == "" then s else s[1..]) && (sign != "" ==> sign == [s[0]])
  {
    if sign == "" {
      assert IsDigit(digits[0]);
    }
  }

  /** A query bound in milliseconds. dates is the date parser, giving nanoseconds since the epoch. */
  function ParseMillis(s: string, dates: string -> Option<int>): Option<int> {
    if |s| <= 13 && '0' in s then ParseInt64(s)
    else match dates(s)
      case None => None
      case Some(nanos) => Some(TruncDiv(nanos, 1_000_000))
  }

  ghost predicate DatesAreInt64(dates: string -> Option<int>) {
    forall s :: dates(s).Some? ==> MIN_INT64 <= dates(s).value <= MAX_INT64
  }

  const MILLIS_BOUND := 10_000_000_000_000

  /** Whatever the caller sends, an accepted bound stays so far inside int64 that adding a window never wraps. */
  lemma ParsedBoundIsSmall(s: string, dates: string -> Option<int>)
    requires DatesAreInt64(dates) && ParseMillis(s, dates).Some?
    ensures -MILLIS_BOUND < ParseMillis(s, dates).value < MILLIS_BOUND
  {
    if |s| <= 13 && '0' in s {
      var digits := if s[0] == '-' || s[0] == '+' then s[1..] else s;
      DecimalBelowPow10(digits);
      Pow10Grows(|digits|, 13);
      assert Pow10(13) == MILLIS_BOUND by { assert Pow10(10) == 10_000_000_000; }
    }
  }

  /** Thirteen characters with a zero among them: the bound is the number they spell, sign included. */
  lemma NumeralBound(s: string, dates: string -> Option<int>, v: int)
    requires |s| <= 13 && '0' in s
    ensures ParseMillis(s, dates) == Some(v) <==> Spells(s, v)
  {
    ParseInt64SpelledOut(s, v);
    if sign, digits :| s == sign + digits && IsNumeral(sign, digits, v) {
      DecimalBelowPow10(digits);
      Pow10Grows(|digits|, 13);
      assert Pow10(13) == MILLIS_BOUND by { assert Pow10(10) == 10_000_000_000; }
    }
  }

  /** Anything else is a date: accepted exactly when the date parser accepts it, and then its nanoseconds cut down
      to whole milliseconds, toward zero. */
  lemma DateBound(s: string, dates: string -> Option<int>)
    requires !(|s| <= 13 && '0' in s)
    ensures ParseMillis(s, dates) == None <==> dates(s) == None
    ensures dates(s).Some? ==>
              var n, ms := dates(s).value, ParseMillis(s, dates).value;
              && (n >= 0 ==> ms * 1_000_000 <= n < (ms + 1) * 1_000_000)
              && (n <= 0 ==> (ms - 1) * 1_000_000 < n <= ms * 1_000_000)
  {}

  /** The windows asked for between two dates tile the span between them in milliseconds. */
  lemma DatesAreTiled(s: string, t: string, dates: string -> Option<int>, a: int, b: int)
    requires !(|s| <= 13 && '0' in s) && !(|t| <= 13 && '0' in t)
    requires dates(s).Some? && dates(t).Some?
    requires a * 1_000_000 <= dates(s).value < (a + 1) * 1_000_000 && dates(s).value >= 0
    requires b * 1_000_000 <= dates(t).value < (b + 1) * 1_000_000 && dates(t).value >= 0
    ensures ParseMillis(s, dates) == Some(a) && ParseMillis(t, dates) == Some(b)
    ensures Tiles(Cut(a, b, 600_000), a, b, 600_000)
  {
    DateBound(s, dates);
    DateBound(t, dates);
    CutTiles(a, b, 600_000);
  }

  lemma SignedBound(dates: string -> Option<int>)
    ensures ParseMillis("-10", dates) == Some(-10) && ParseMillis("+10", dates) == Some(10)
  {
    assert "-10"[1..] == "10" && "+10"[1..] == "10" && "10"[..1] == "1" && "1"[..0] == "";
    assert Decimal("1") == 1 && Decimal("10") == 10;
  }

  /** A plain digit string of at most 13 characters is taken as a timestamp exactly when it has a zero digit;
      without one it goes to the date parser. */
  lemma {:induction false} TimestampNeedsAZero(s: string, dates: string -> Option<int>)
    requires s != [] && |s| <= 13 && AllDigits(s) && dates(s) == None
    ensures ParseMillis(s, dates) == if '0' in s then Some(Decimal(s)) else None
  {
    DecimalBelowPow10(s);
    Pow10Grows(|s|, 13);
    assert Pow10(13) == MILLIS_BOUND by { assert Pow10(10) == 10_000_000_000; }
  }

  /** A genuine 13-digit millisecond timestamp that is turned away. */
  lemma ZeroFreeTimestampRefused(dates: string -> Option<int>)
    requires dates("1758612345678") == None
    ensures AllDigits("1758612345678") && ParseMillis("1758612345678", dates) == None
  {}
}
