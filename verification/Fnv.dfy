/** The 64-bit and 32-bit FNV-1a hashes. Machine words are bit-vectors, so products wrap as in Go. */
module Fnv {

  type Key = seq<bv8>

  // ---------------------------------------------------------------- folding a key into a hash state

  function Fold<S>(step: (S, bv8) -> S, hash: S, key: Key): S
    decreases key
  {
    if key == [] then hash else Fold(step, step(hash, key[0]), key[1..])
  }

  /** The step undone byte by byte, last byte first. */
  function Unfold<S>(back: (S, bv8) -> S, hash: S, key: Key): S {
    if key == [] then hash else back(Unfold(back, hash, key[1..]), key[0])
  }

  /** For each byte, back undoes step and step undoes back: the step is a bijection on the state. */
  ghost predicate Bijective<S(!new)>(step: (S, bv8) -> S, back: (S, bv8) -> S) {
    forall h: S, b: bv8 :: Undone(step, back, h, b)
  }

  ghost predicate Undone<S>(step: (S, bv8) -> S, back: (S, bv8) -> S, h: S, b: bv8) {
    back(step(h, b), b) == h && step(back(h, b), b) == h
  }

  /** From one state, different bytes lead to different states. */
  ghost predicate Separating<S(!new)>(step: (S, bv8) -> S) {
    forall h: S, b: bv8, c: bv8 :: step(h, b) == step(h, c) ==> b == c
  }

  lemma {:induction false} FoldBijective<S(!new)>(step: (S, bv8) -> S, back: (S, bv8) -> S, hash: S, key: Key)
    requires Bijective(step, back)
    ensures Unfold(back, Fold(step, hash, key), key) == hash
    ensures Fold(step, Unfold(back, hash, key), key) == hash
    decreases key
  {
    if key != [] {
      FoldBijective(step, back, step(hash, key[0]), key[1..]);
      FoldBijective(step, back, hash, key[1..]);
      assert Undone(step, back, hash, key[0]) && Undone(step, back, Unfold(back, hash, key[1..]), key[0]);
    }
  }

  lemma {:induction false} FoldConcat<S>(step: (S, bv8) -> S, hash: S, a: Key, b: Key)
    ensures Fold(step, hash, a + b) == Fold(step, Fold(step, hash, a), b)
    decreases a
  {
    if a == [] {
      assert a + b == b;
    } else {
      assert (a + b)[0] == a[0] && (a + b)[1..] == a[1..] + b;
      FoldConcat(step, step(hash, a[0]), a[1..], b);
    }
  }

  lemma FoldSnoc<S>(step: (S, bv8) -> S, hash: S, key: Key, i: nat)
    requires i < |key|
    ensures Fold(step, hash, key[..i + 1]) == step(Fold(step, hash, key[..i]), key[i])
  {
    assert key[..i + 1] == key[..i] + [key[i]];
    FoldConcat(step, hash, key[..i], [key[i]]);
    assert [key[i]][1..] == [];
  }

  /** A common prefix and suffix neither make nor hide a collision. */
  lemma CollisionIsInTheMiddle<S(!new)>(step: (S, bv8) -> S, back: (S, bv8) -> S, hash: S,
                                        pre: Key, a: Key, b: Key, post: Key)
    requires Bijective(step, back)
    ensures Fold(step, hash, pre + a + post) == Fold(step, hash, pre + b + post)
       <==> Fold(step, Fold(step, hash, pre), a) == Fold(step, Fold(step, hash, pre), b)
  {
    FoldConcat(step, hash, pre + a, post);
    FoldConcat(step, hash, pre + b, post);
    FoldConcat(step, hash, pre, a);
    FoldConcat(step, hash, pre, b);
    FoldBijective(step, back, Fold(step, hash, pre + a), post);
    FoldBijective(step, back, Fold(step, hash, pre + b), post);
  }

  ghost predicate DifferOnlyAt(k: Key, l: Key, i: nat) {
    |k| == |l| && i < |k| && k[i] != l[i] && forall j :: 0 <= j < |k| && j != i ==> k[j] == l[j]
  }

  lemma OneByteSeparates<S(!new)>(step: (S, bv8) -> S, back: (S, bv8) -> S, hash: S, k: Key, l: Key, i: nat)
    requires Bijective(step, back) && Separating(step) && DifferOnlyAt(k, l, i)
    ensures Fold(step, hash, k) != Fold(step, hash, l)
  {
    var pre, post, a, b := k[..i], k[i + 1..], [k[i]], [l[i]];
    assert k == pre + a + post && l == pre + b + post;
    CollisionIsInTheMiddle(step, back, hash, pre, a, b, post);
    assert a[1..] == [] && b[1..] == [];
    assert step(Fold(step, hash, pre), k[i]) != step(Fold(step, hash, pre), l[i]);
  }

  // ---------------------------------------------------------------- 64 bits

  const OFFSET64: bv64 := 14695981039346656037

  /** The product with the FNV prime, and with its inverse modulo 2^64. */
  function TimesPrime64(x: bv64): bv64 { x * 1099511628211 }
  function OverPrime64(x: bv64): bv64 { x * 0xce965057aff6957b }

  function Step64(hash: bv64, b: bv8): bv64 { TimesPrime64(hash ^ (b as bv64)) }
  function Back64(hash: bv64, b: bv8): bv64 { OverPrime64(hash) ^ (b as bv64) }

  lemma OverTimes64(x: bv64)
    ensures OverPrime64(TimesPrime64(x)) == x
  {
    calc {
      OverPrime64(TimesPrime64(x));
      OverPrime64(x * 1099511628211);
      x * 1099511628211 * 0xce965057aff6957b;
      x;
    }
  }

  lemma TimesOver64(x: bv64)
    ensures TimesPrime64(OverPrime64(x)) == x
  {
    calc {
      TimesPrime64(OverPrime64(x));
      TimesPrime64(x * 0xce965057aff6957b);
      x * 0xce965057aff6957b * 1099511628211;
      x;
    }
  }

  lemma Xor64(x: bv64, b: bv8, c: bv8)
    ensures (x ^ (b as bv64)) ^ (b as bv64) == x
    ensures x ^ (b as bv64) == x ^ (c as bv64) ==> b == c
  {}

  lemma BackAfterStep64(h: bv64, b: bv8)
    ensures Back64(Step64(h, b), b) == h
  {
    hide TimesPrime64, OverPrime64;
    OverTimes64(h ^ (b as bv64));
    Xor64(h, b, b);
  }

  lemma StepAfterBack64(h: bv64, b: bv8)
    ensures Step64(Back64(h, b), b) == h
  {
    hide TimesPrime64, OverPrime64;
    Xor64(OverPrime64(h), b, b);
    TimesOver64(h);
  }

  lemma StepSeparates64(h: bv64, b: bv8, c: bv8)
    requires Step64(h, b) == Step64(h, c)
    ensures b == c
  {
    hide TimesPrime64, OverPrime64;
    OverTimes64(h ^ (b as bv64));
    OverTimes64(h ^ (c as bv64));
    Xor64(h, b, c);
  }

  lemma StepBijective64()
    ensures Bijective(Step64, Back64) && Separating(Step64)
  {
    hide Step64, Back64;
    forall h: bv64, b: bv8 ensures Undone(Step64, Back64, h, b) {
      BackAfterStep64(h, b);
      StepAfterBack64(h, b);
    }
    forall h: bv64, b: bv8, c: bv8 | Step64(h, b) == Step64(h, c) ensures b == c {
      StepSeparates64(h, b, c);
    }
  }

  function Hash64(key: Key): bv64 { Fold(Step64, OFFSET64, key) }

  lemma Hash64Snoc(key: Key, b: bv8)
    ensures Hash64([]) == OFFSET64 && Hash64(key + [b]) == Step64(Hash64(key), b)
  {
    hide Step64;
    FoldSnoc(Step64, OFFSET64, key + [b], |key|);
    assert (key + [b])[..|key| + 1] == key + [b] && (key + [b])[..|key|] == key;
  }

  lemma Step64SpelledOut(hash: bv64, b: bv8)
    ensures Step64(hash, b) == (hash ^ (b as bv64)) * 1099511628211
  {}

  /** The published algorithm: start from the offset basis; for each byte first exclusive or, then the product. */
  lemma Hash64SpelledOut(key: Key, b: bv8)
    ensures Hash64([]) == 14695981039346656037
    ensures Hash64(key + [b]) == (Hash64(key) ^ (b as bv64)) * 1099511628211
  {
    hide Hash64, Step64, TimesPrime64;
    Hash64Snoc(key, b);
    Step64SpelledOut(Hash64(key), b);
  }

  /** The published hash of "a". */
  lemma Hash64OfA()
    ensures Hash64([0x61]) == 0xaf63dc4c8601ec8c
  {
    hide Hash64;
    var a: bv8, none: Key := 0x61, [];
    var mixed: bv64 := 14695981039346656068;
    Hash64SpelledOut(none, a);
    assert Hash64(none) ^ (a as bv64) == mixed;
    assert mixed * 1099511628211 == 0xaf63dc4c8601ec8c;
    assert none + [a] == [a];
  }

  method Sum64(key: Key) returns (hash: bv64)
    ensures hash == Hash64(key)
  {
    hide TimesPrime64;
    hash := OFFSET64;
    for i := 0 to |key|
      invariant hash == Fold(Step64, OFFSET64, key[..i])
    {
      FoldSnoc(Step64, OFFSET64, key, i);
      hash := hash ^ (key[i] as bv64);
      hash := TimesPrime64(hash);
    }
    assert key[..|key|] == key;
  }

  /** Keys of one length that differ in exactly one byte never collide. */
  lemma OneByteNeverCollides64(k: Key, l: Key, i: nat)
    requires DifferOnlyAt(k, l, i)
    ensures Hash64(k) != Hash64(l)
  {
    StepBijective64();
    OneByteSeparates(Step64, Back64, OFFSET64, k, l, i);
  }

  // ---------------------------------------------------------------- 32 bits

  const OFFSET32: bv32 := 2166136261

  function TimesPrime32(x: bv32): bv32 { x * 16777619 }
  function OverPrime32(x: bv32): bv32 { x * 0x359c449b }

  function Step32(hash: bv32, b: bv8): bv32 { TimesPrime32(hash ^ (b as bv32)) }
  function Back32(hash: bv32, b: bv8): bv32 { OverPrime32(hash) ^ (b as bv32) }

  lemma OverTimes32(x: bv32)
    ensures OverPrime32(TimesPrime32(x)) == x
  {
    calc {
      OverPrime32(TimesPrime32(x));
      OverPrime32(x * 16777619);
      x * 16777619 * 0x359c449b;
      x;
    }
  }

  lemma TimesOver32(x: bv32)
    ensures TimesPrime32(OverPrime32(x)) == x
  {
    calc {
      TimesPrime32(OverPrime32(x));
      TimesPrime32(x * 0x359c449b);
      x * 0x359c449b * 16777619;
      x;
    }
  }

  lemma Xor32(x: bv32, b: bv8, c: bv8)
    ensures (x ^ (b as bv32)) ^ (b as bv32) == x
    ensures x ^ (b as bv32) == x ^ (c as bv32) ==> b == c
  {}

  lemma BackAfterStep32(h: bv32, b: bv8)
    ensures Back32(Step32(h, b), b) == h
  {
    hide TimesPrime32, OverPrime32;
    OverTimes32(h ^ (b as bv32));
    Xor32(h, b, b);
  }

  lemma StepAfterBack32(h: bv32, b: bv8)
    ensures Step32(Back32(h, b), b) == h
  {
    hide TimesPrime32, OverPrime32;
    Xor32(OverPrime32(h), b, b);
    TimesOver32(h);
  }

  lemma StepSeparates32(h: bv32, b: bv8, c: bv8)
    requires Step32(h, b) == Step32(h, c)
    ensures b == c
  {
    hide TimesPrime32, OverPrime32;
    OverTimes32(h ^ (b as bv32));
    OverTimes32(h ^ (c as bv32));
    Xor32(h, b, c);
  }

  lemma StepBijective32()
    ensures Bijective(Step32, Back32) && Separating(Step32)
  {
    hide Step32, Back32;
    forall h: bv32, b: bv8 ensures Undone(Step32, Back32, h, b) {
      BackAfterStep32(h, b);
      StepAfterBack32(h, b);
    }
    forall h: bv32, b: bv8, c: bv8 | Step32(h, b) == Step32(h, c) ensures b == c {
      StepSeparates32(h, b, c);
    }
  }

  function Hash32(key: Key): bv32 { Fold(Step32, OFFSET32, key) }

  lemma Hash32Snoc(key: Key, b: bv8)
    ensures Hash32([]) == OFFSET32 && Hash32(key + [b]) == Step32(Hash32(key), b)
  {
    hide Step32;
    FoldSnoc(Step32, OFFSET32, key + [b], |key|);
    assert (key + [b])[..|key| + 1] == key + [b] && (key + [b])[..|key|] == key;
  }

  lemma Step32SpelledOut(hash: bv32, b: bv8)
    ensures Step32(hash, b) == (hash ^ (b as bv32)) * 16777619
  {}

  /** The published algorithm: start from the offset basis; for each byte first exclusive or, then the product. */
  lemma Hash32SpelledOut(key: Key, b: bv8)
    ensures Hash32([]) == 2166136261
    ensures Hash32(key + [b]) == (Hash32(key) ^ (b as bv32)) * 16777619
  {
    hide Hash32, Step32, TimesPrime32;
    Hash32Snoc(key, b);
    Step32SpelledOut(Hash32(key), b);
  }

  /** The published hash of "a". */
  lemma Hash32OfA()
    ensures Hash32([0x61]) == 0xe40c292c
  {
    hide Hash32;
    var a: bv8, none: Key := 0x61, [];
    var mixed: bv32 := 2166136228;
    Hash32SpelledOut(none, a);
    assert Hash32(none) ^ (a as bv32) == mixed;
    assert mixed * 16777619 == 0xe40c292c;
    assert none + [a] == [a];
  }

  method Sum32(key: Key) returns (hash: bv32)
    ensures hash == Hash32(key)
  {
    hide TimesPrime32;
    hash := OFFSET32;
    for i := 0 to |key|
      invariant hash == Fold(Step32, OFFSET32, key[..i])
    {
      FoldSnoc(Step32, OFFSET32, key, i);
      hash := hash ^ (key[i] as bv32);
      hash := TimesPrime32(hash);
    }
    assert key[..|key|] == key;
  }

  lemma OneByteNeverCollides32(k: Key, l: Key, i: nat)
    requires DifferOnlyAt(k, l, i)
    ensures Hash32(k) != Hash32(l)
  {
    StepBijective32();
    OneByteSeparates(Step32, Back32, OFFSET32, k, l, i);
  }
}
