/** Bytes, their exclusive or, and the lexicographic order of Go's bytes.Compare. */
module Bytes {
  import opened Arith

  newtype byte = x: int | 0 <= x < 256

  type Bytes = seq<byte>

  // ---------------------------------------------------------------- exclusive or

  /** The low n bits of a xor b, bit by bit. */
  function XorBits(a: nat, b: nat, n: nat): (r: nat)
    ensures n == 0 ==> r == 0
  {
    if n == 0 then 0 else (a % 2 + b % 2) % 2 + 2 * XorBits(a / 2, b / 2, n - 1)
  }

  lemma {:induction false} XorBelow(a: nat, b: nat, n: nat)
    ensures XorBits(a, b, n) < Pow2(n)
  {
    if n > 0 {
      XorBelow(a / 2, b / 2, n - 1);
    }
  }

  lemma {:induction false} XorBitsTwice(a: nat, b: nat, n: nat)
    requires a < Pow2(n)
    ensures XorBits(XorBits(a, b, n), b, n) == a
  {
    if n > 0 {
      hide XorBits;
      XorBitsTwice(a / 2, b / 2, n - 1);
      XorTurn(a, b, n);
      XorTurnOn((a % 2 + b % 2) % 2, XorBits(a / 2, b / 2, n - 1), b, n);
      BitTwice(a, b);
    }
  }

  lemma XorTurn(a: nat, b: nat, n: nat)
    requires n > 0
    ensures XorBits(a, b, n) == (a % 2 + b % 2) % 2 + 2 * XorBits(a / 2, b / 2, n - 1)
  {}

  lemma LowAndRest(low: nat, high: nat)
    requires low < 2
    ensures (low + 2 * high) % 2 == low && (low + 2 * high) / 2 == high
  {}

  lemma XorTurnOn(low: nat, high: nat, b: nat, n: nat)
    requires low < 2 && n > 0
    ensures XorBits(low + 2 * high, b, n) == (low + b % 2) % 2 + 2 * XorBits(high, b / 2, n - 1)
  {
    hide XorBits;
    XorTurn(low + 2 * high, b, n);
    LowAndRest(low, high);
  }

  lemma BitTwice(a: nat, b: nat)
    ensures ((a % 2 + b % 2) % 2 + b % 2) % 2 + 2 * (a / 2) == a
  {}

  function Xor(a: byte, b: byte): byte {
    XorBelow(a as nat, b as nat, 8);
    assert Pow2(8) == 256;
    XorBits(a as nat, b as nat, 8) as byte
  }

  lemma XorTwice(a: byte, b: byte)
    ensures Xor(Xor(a, b), b) == a
  {
    assert Pow2(8) == 256;
    XorBitsTwice(a as nat, b as nat, 8);
  }

  /** Bit i of n, counted from the lowest. */
  function Bit(n: nat, i: nat): nat {
    if i == 0 then n % 2 else Bit(n / 2, i - 1)
  }

  lemma {:induction false} XorBitsAt(a: nat, b: nat, n: nat, i: nat)
    requires i < n
    ensures Bit(XorBits(a, b, n), i) == 1 <==> Bit(a, i) != Bit(b, i)
  {
    hide XorBits;
    XorTurn(a, b, n);
    LowAndRest((a % 2 + b % 2) % 2, XorBits(a / 2, b / 2, n - 1));
    if i > 0 {
      XorBitsAt(a / 2, b / 2, n - 1, i - 1);
    }
  }

  /** Each of the eight bits is set exactly when the two bits differ. */
  lemma XorSpelledOut(a: byte, b: byte, i: nat)
    requires i < 8
    ensures Bit(Xor(a, b) as nat, i) == 1 <==> Bit(a as nat, i) != Bit(b as nat, i)
  {
    XorBitsAt(a as nat, b as nat, 8, i);
  }

  // ---------------------------------------------------------------- order

  /** bytes.Compare: -1, 0 or 1. */
  function Compare(a: Bytes, b: Bytes): int {
    if a == [] && b == [] then 0
    else if a == [] then -1
    else if b == [] then 1
    else if a[0] < b[0] then -1
    else if a[0] > b[0] then 1
    else Compare(a[1..], b[1..])
  }

  lemma {:induction false} CompareEqual(a: Bytes, b: Bytes)
    ensures Compare(a, b) == 0 <==> a == b
  {
    if a != [] && b != [] {
      CompareEqual(a[1..], b[1..]);
      assert a == [a[0]] + a[1..] && b == [b[0]] + b[1..];
    }
  }

  lemma {:induction false} CompareSwaps(a: Bytes, b: Bytes)
    ensures Compare(a, b) == -Compare(b, a)
  {
    if a != [] && b != [] {
      CompareSwaps(a[1..], b[1..]);
    }
  }

  lemma {:induction false} CompareTransitive(a: Bytes, b: Bytes, c: Bytes)
    requires Compare(a, b) <= 0 && Compare(b, c) <= 0
    ensures Compare(a, c) <= 0
    ensures Compare(a, b) < 0 || Compare(b, c) < 0 ==> Compare(a, c) < 0
  {
    if a != [] && b != [] && c != [] && a[0] == b[0] == c[0] {
      CompareTransitive(a[1..], b[1..], c[1..]);
    }
  }

  /** a and b agree on their first i bytes; then a ends, or has the smaller byte. */
  predicate SmallerAt(a: Bytes, b: Bytes, i: nat) {
    i <= |a| && i < |b| && a[..i] == b[..i] && (i == |a| || a[i] < b[i])
  }

  /** The order of byte strings by their first difference. */
  lemma CompareSpelledOut(a: Bytes, b: Bytes)
    ensures Compare(a, b) == -1 || Compare(a, b) == 0 || Compare(a, b) == 1
    ensures Compare(a, b) == -1 <==> exists i: nat :: SmallerAt(a, b, i)
    ensures Compare(a, b) == 0 <==> a == b
  {
    CompareEqual(a, b);
    if Compare(a, b) < 0 {
      var i := FirstDifference(a, b);
    }
    if i: nat :| SmallerAt(a, b, i) {
      DifferenceDecides(a, b, i);
    }
  }

  lemma {:induction false} FirstDifference(a: Bytes, b: Bytes) returns (i: nat)
    requires Compare(a, b) < 0
    ensures SmallerAt(a, b, i)
  {
    if a == [] || a[0] < b[0] {
      i := 0;
    } else {
      var k := FirstDifference(a[1..], b[1..]);
      i := k + 1;
      assert a[..i] == [a[0]] + a[1..][..k] && b[..i] == [b[0]] + b[1..][..k];
    }
  }

  lemma {:induction false} DifferenceDecides(a: Bytes, b: Bytes, i: nat)
    requires SmallerAt(a, b, i)
    ensures Compare(a, b) == -1
  {
    if i > 0 {
      assert a[..i][0] == b[..i][0] && a[..i][1..] == a[1..][..i - 1] && b[..i][1..] == b[1..][..i - 1];
      DifferenceDecides(a[1..], b[1..], i - 1);
    }
  }

  // ---------------------------------------------------------------- addresses as numbers

  function Pow256(n: nat): nat { if n == 0 then 1 else 256 * Pow256(n - 1) }

  /** The number the bytes spell, most significant byte first. */
  function BigEndian(b: Bytes): nat {
    if b == [] then 0 else b[0] as nat * Pow256(|b| - 1) + BigEndian(b[1..])
  }

  lemma {:induction false} Multiples(x: nat, y: nat, p: nat)
    requires x < y
    ensures x * p + p <= y * p
    decreases y
  {
    MulMinusOne(y, p);
    if x < y - 1 {
      Multiples(x, y - 1, p);
    }
  }

  lemma {:induction false} BigEndianBound(b: Bytes)
    ensures BigEndian(b) < Pow256(|b|)
  {
    if b != [] {
      BigEndianBound(b[1..]);
      Multiples(b[0] as nat, 256, Pow256(|b| - 1));
    }
  }

  /** On addresses of one length the byte order is the order of the numbers. */
  lemma {:induction false} CompareIsNumeric(a: Bytes, b: Bytes)
    requires |a| == |b|
    ensures Compare(a, b) < 0 <==> BigEndian(a) < BigEndian(b)
    ensures Compare(a, b) == 0 <==> BigEndian(a) == BigEndian(b)
  {
    if a != [] {
      CompareIsNumeric(a[1..], b[1..]);
      BigEndianBound(a[1..]);
      BigEndianBound(b[1..]);
      if a[0] < b[0] {
        Multiples(a[0] as nat, b[0] as nat, Pow256(|a| - 1));
      } else if b[0] < a[0] {
        Multiples(b[0] as nat, a[0] as nat, Pow256(|a| - 1));
      }
    }
  }
}
