/** The connection pool's refill: dial until enough connections are queued, as far as dialling succeeds. */
module Pool {
  import opened Arith
  import opened Wrappers

  /** Answers the n-th dial of the pool's life. */
  type Dial<C> = nat -> Option<C>

  /** The connections obtained by dials first, first + 1, ..., first + count - 1, in order. */
  function Dialled<C>(dial: Dial<C>, first: nat, count: nat): seq<C> {
    if count == 0 then []
    else Dialled(dial, first, count - 1) + match dial(first + count - 1) case None => [] case Some(c) => [c]
  }

  function Deficit(minOpen: int, open: nat): nat {
    if minOpen > open then minOpen - open else 0
  }

  /** How many dials a pass makes: it stops at the first number i that the deficit left by then does not exceed. */
  ghost predicate PassLength<C>(dial: Dial<C>, first: nat, deficit: nat, i: nat) {
    && i >= deficit - |Dialled(dial, first, i)|
    && forall j: nat :: j < i ==> j < deficit - |Dialled(dial, first, j)|
  }

  class RabbitmqPool<C> {
    const maxOpen: int
    const minOpen: int
    const dial: Dial<C>
    var lq: seq<C>
    var dials: nat

    constructor Empty(maxOpen: int, minOpen: int, dial: Dial<C>)
      ensures this.maxOpen == maxOpen && this.minOpen == minOpen && this.dial == dial && lq == [] && dials == 0
    {
      this.maxOpen, this.minOpen, this.dial := maxOpen, minOpen, dial;
      lq, dials := [], 0;
    }

    /** None is ErrInvalidConfig. A failed first dial is not retried here. */
    static method NewPool(maxOpen: int, minOpen: int, dial: Dial<C>) returns (p: RabbitmqPool?<C>)
      ensures p == null <==> maxOpen <= 0 || minOpen > maxOpen
      ensures p != null ==>
                fresh(p) && p.minOpen == minOpen && p.maxOpen == maxOpen && p.dial == dial
                && p.dials == Deficit(minOpen, 0) && p.lq == Dialled(dial, 0, p.dials)
    {
      if maxOpen <= 0 || minOpen > maxOpen {
        return null;
      }
      var q := new RabbitmqPool<C>.Empty(maxOpen, minOpen, dial);
      var i := 0;
      while i < minOpen
        invariant 0 <= i && (i <= minOpen || i == 0)
        invariant q.dials == i && q.lq == Dialled(dial, 0, i)
      {
        var cn := dial(i);
        q.dials := q.dials + 1;
        i := i + 1;
        if cn == None {
          continue;
        }
        q.lq := q.lq + [cn.value];
      }
      p := q;
    }

    /** One pass of AutoLink. The loop bound is read anew in every turn, and shrinks as connections arrive. */
    method RefillPass() returns (i: nat)
      modifies this`lq, this`dials
      ensures PassLength(dial, old(dials), Deficit(minOpen, old(|lq|)), i)
      ensures dials == old(dials) + i
      ensures lq == old(lq) + Dialled(dial, old(dials), i)
    {
      ghost var open, first := |lq|, dials;
      i := 0;
      while i < minOpen - |lq|
        invariant dials == first + i && lq == old(lq) + Dialled(dial, first, i)
        invariant forall j: nat :: j < i ==> j < Deficit(minOpen, open) - |Dialled(dial, first, j)|
        decreases minOpen - |lq| - i
      {
        var cn := dial(dials);
        dials := dials + 1;
        i := i + 1;
        if cn == None {
          continue;
        }
        lq := lq + [cn.value];
      }
    }

    /** The first k passes of AutoLink, with nobody else touching the pool. */
    method AutoLink(k: nat)
      modifies this`lq, this`dials
      ensures Deficit(minOpen, |lq|) == AfterPasses(dial, old(dials), Deficit(minOpen, old(|lq|)), k)
      ensures NeverFails(dial) ==> (|lq| >= minOpen <==> k >= Halvings(Deficit(minOpen, old(|lq|))))
      ensures old(lq) <= lq
    {
      hide AfterPasses, PassLength, Dialled;
      ghost var first, deficit := dials, Deficit(minOpen, |lq|);
      for n := 0 to k
        invariant AfterPasses(dial, dials, Deficit(minOpen, |lq|), k - n) == AfterPasses(dial, first, deficit, k)
        invariant old(lq) <= lq
      {
        PassTurn(dial, dials, Deficit(minOpen, |lq|), k - n);
        ghost var before := dials;
        ghost var d := Deficit(minOpen, |lq|);
        var i := RefillPass();
        PassNeverOvershoots(dial, before, d, i);
        OnePass(dial, before, d, i);
      }
      NoPass(dial, dials, Deficit(minOpen, |lq|));
      if NeverFails(dial) {
        GoneIffEnoughPasses(dial, first, deficit, k);
      }
    }
  }

  lemma {:induction false} DialledBound<C>(dial: Dial<C>, first: nat, i: nat, j: nat)
    requires i <= j
    ensures |Dialled(dial, first, i)| <= |Dialled(dial, first, j)| <= |Dialled(dial, first, i)| + (j - i)
    decreases j
  {
    if i < j {
      DialledBound(dial, first, i, j - 1);
    }
  }

  /** Only one pass length fits a deficit, and there is one: passes terminate and are determined by the dials. */
  lemma PassLengthUnique<C>(dial: Dial<C>, first: nat, deficit: nat, i: nat, j: nat)
    requires PassLength(dial, first, deficit, i) && PassLength(dial, first, deficit, j)
    ensures i == j
  {}

  /** A pass never goes beyond the minimum, makes no more dials than the deficit and, when d dials could not
      be enough, makes at least half of it. Everything queued came from a dial that succeeded. */
  lemma PassNeverOvershoots<C>(dial: Dial<C>, first: nat, deficit: nat, i: nat)
    requires PassLength(dial, first, deficit, i)
    ensures |Dialled(dial, first, i)| <= deficit
    ensures deficit <= 2 * i && i <= deficit
  {
    DialledBound(dial, first, 0, i);
    if i > 0 {
      DialledBound(dial, first, i - 1, i);
      assert i - 1 < deficit - |Dialled(dial, first, i - 1)|;
    }
  }

  /** What dial n obtained stands behind what the dials before it obtained. */
  lemma {:induction false} DialledAt<C>(dial: Dial<C>, first: nat, i: nat, n: nat)
    requires n < i && dial(first + n).Some?
    ensures var k := |Dialled(dial, first, n)|;
            k < |Dialled(dial, first, i)| && Dialled(dial, first, i)[k] == dial(first + n).value
    decreases i
  {
    if n < i - 1 {
      DialledAt(dial, first, i - 1, n);
    }
  }

  ghost predicate Delivers<C>(dial: Dial<C>, n: nat, c: C) { dial(n) == Some(c) }

  lemma {:induction false} DialledSucceeded<C>(dial: Dial<C>, first: nat, i: nat, k: nat) returns (n: nat)
    requires k < |Dialled(dial, first, i)|
    ensures first <= n < first + i && Delivers(dial, n, Dialled(dial, first, i)[k])
  {
    if k < |Dialled(dial, first, i - 1)| {
      n := DialledSucceeded(dial, first, i - 1, k);
    } else {
      n := first + i - 1;
    }
  }

  /** The deficit a pass leaves behind. */
  function Left<C>(dial: Dial<C>, first: nat, deficit: nat, i: nat): int {
    deficit - |Dialled(dial, first, i)|
  }

  /** With f of its dials failing, a pass takes deficit d to the floor of (d + f) / 2. */
  lemma PassHalves<C>(dial: Dial<C>, first: nat, deficit: nat, i: nat)
    requires PassLength(dial, first, deficit, i)
    ensures var failed := i - |Dialled(dial, first, i)|;
            failed >= 0 && Left(dial, first, deficit, i) == (deficit + failed) / 2
  {
    DialledBound(dial, first, 0, i);
    if i > 0 {
      DialledBound(dial, first, i - 1, i);
      assert i - 1 < deficit - |Dialled(dial, first, i - 1)|;
      LastDial(dial, first, i);
    }
  }

  lemma LastDial<C>(dial: Dial<C>, first: nat, i: nat)
    requires i > 0
    ensures |Dialled(dial, first, i)| == |Dialled(dial, first, i - 1)| + if dial(first + i - 1).Some? then 1 else 0
  {}

  // ---------------------------------------------------------------- convergence

  /** The length of a pass, counted from dial i on. */
  function PassFrom<C>(dial: Dial<C>, first: nat, deficit: nat, i: nat): (n: nat)
    decreases deficit - i
  {
    if i >= deficit - |Dialled(dial, first, i)| then i else PassFrom(dial, first, deficit, i + 1)
  }

  lemma {:induction false} PassFromIsLength<C>(dial: Dial<C>, first: nat, deficit: nat, i: nat)
    requires forall j: nat :: j < i ==> j < deficit - |Dialled(dial, first, j)|
    ensures PassLength(dial, first, deficit, PassFrom(dial, first, deficit, i))
    decreases deficit - i
  {
    if i < deficit - |Dialled(dial, first, i)| {
      PassFromIsLength(dial, first, deficit, i + 1);
    }
  }

  /** The deficit after k passes of a pool that nobody else touches. */
  function AfterPasses<C>(dial: Dial<C>, first: nat, deficit: nat, k: nat): nat
    decreases k
  {
    if k == 0 then deficit
    else
      var i := PassFrom(dial, first, deficit, 0);
      PassFromIsLength(dial, first, deficit, 0);
      PassNeverOvershoots(dial, first, deficit, i);
      AfterPasses(dial, first + i, Left(dial, first, deficit, i), k - 1)
  }

  lemma NoPass<C>(dial: Dial<C>, first: nat, deficit: nat)
    ensures AfterPasses(dial, first, deficit, 0) == deficit
  {}

  lemma OnePass<C>(dial: Dial<C>, first: nat, deficit: nat, i: nat)
    requires PassLength(dial, first, deficit, i)
    ensures PassFrom(dial, first, deficit, 0) == i
  {
    PassFromIsLength(dial, first, deficit, 0);
    PassLengthUnique(dial, first, deficit, i, PassFrom(dial, first, deficit, 0));
  }

  lemma PassTurn<C>(dial: Dial<C>, first: nat, deficit: nat, k: nat)
    requires k > 0
    ensures var i := PassFrom(dial, first, deficit, 0);
            Left(dial, first, deficit, i) >= 0
            && AfterPasses(dial, first, deficit, k)
               == AfterPasses(dial, first + i, Left(dial, first, deficit, i), k - 1)
  {
    PassFromIsLength(dial, first, deficit, 0);
    PassNeverOvershoots(dial, first, deficit, PassFrom(dial, first, deficit, 0));
  }

  ghost predicate NeverFails<C>(dial: Dial<C>) { forall n: nat :: dial(n).Some? }

  lemma {:induction false} AllDialled<C>(dial: Dial<C>, first: nat, i: nat)
    requires NeverFails(dial)
    ensures |Dialled(dial, first, i)| == i
  {
    if i > 0 {
      AllDialled(dial, first, i - 1);
    }
  }

  /** How often d can be halved, rounding down, before it is gone. */
  function Halvings(d: nat): nat { if d == 0 then 0 else 1 + Halvings(d / 2) }

  /** That is floor(log2 d) + 1. */
  lemma {:induction false} HalvingsIsLog(d: nat)
    requires d > 0
    ensures Halvings(d) >= 1 && Pow2(Halvings(d) - 1) <= d < Pow2(Halvings(d))
  {
    hide Halvings, Pow2;
    HalvingsTurn(d);
    Pow2Turn(Halvings(d / 2));
    if d > 1 {
      HalvingsIsLog(d / 2);
      Pow2Turn(Halvings(d / 2) - 1);
    }
  }

  lemma HalvingsTurn(d: nat)
    requires d > 0
    ensures Halvings(d) == 1 + Halvings(d / 2) && Halvings(0) == 0
  {}

  lemma Pow2Turn(n: nat)
    ensures Pow2(n + 1) == 2 * Pow2(n) && Pow2(0) == 1
  {}

  /** Without dial errors the deficit is gone exactly from pass floor(log2 d) + 1 on. */
  lemma {:induction false} GoneIffEnoughPasses<C>(dial: Dial<C>, first: nat, deficit: nat, k: nat)
    requires NeverFails(dial)
    ensures AfterPasses(dial, first, deficit, k) == 0 <==> k >= Halvings(deficit)
    decreases k
  {
    if k > 0 {
      var i := PassFrom(dial, first, deficit, 0);
      PassFromIsLength(dial, first, deficit, 0);
      AllDialled(dial, first, i);
      PassHalves(dial, first, deficit, i);
      GoneIffEnoughPasses(dial, first + i, deficit / 2, k - 1);
    }
  }
}
