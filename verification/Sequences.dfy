/** Putting sequences behind one another, and keeping the elements that give a value. */
module Sequences {
  import opened Wrappers

  // ---------------------------------------------------------------- one behind the other

  function Concat<T>(ss: seq<seq<T>>): seq<T> {
    if ss == [] then [] else Concat(ss[..|ss| - 1]) + ss[|ss| - 1]
  }

  lemma ConcatSnoc<T>(ss: seq<seq<T>>, s: seq<T>)
    ensures Concat(ss + [s]) == Concat(ss) + s
  {
    assert (ss + [s])[..|ss|] == ss;
  }

  lemma {:induction false} ConcatFront<T>(s: seq<T>, ss: seq<seq<T>>)
    ensures Concat([s] + ss) == s + Concat(ss)
  {
    if ss == [] {
      assert [s] + ss == [s] && [s][..0] == [];
      assert Concat([s]) == [] + s == s + [];
    } else {
      var init, last := ss[..|ss| - 1], ss[|ss| - 1];
      ConcatFront(s, init);
      assert ([s] + ss)[..|ss|] == [s] + init;
      assert s + Concat(init) + last == s + (Concat(init) + last);
    }
  }

  /** The next sequence starts where the earlier ones end, and the whole ends with the last one. */
  lemma ConcatStart<T>(ss: seq<seq<T>>, n: nat)
    requires n < |ss|
    ensures |Concat(ss[..0])| == 0 && Concat(ss[..|ss|]) == Concat(ss)
    ensures |Concat(ss[..n + 1])| == |Concat(ss[..n])| + |ss[n]|
  {
    assert ss[..n + 1] == ss[..n] + [ss[n]] && ss[..|ss|] == ss;
    ConcatSnoc(ss[..n], ss[n]);
  }

  /** Element k of sequence n stands k places behind the earlier sequences. */
  lemma {:induction false} ConcatAt<T>(ss: seq<seq<T>>, n: nat, k: nat)
    requires n < |ss| && k < |ss[n]|
    ensures |Concat(ss[..n])| + k < |Concat(ss)|
    ensures Concat(ss)[|Concat(ss[..n])| + k] == ss[n][k]
  {
    var init := ss[..|ss| - 1];
    if n < |init| {
      ConcatAt(init, n, k);
      assert init[..n] == ss[..n];
    }
  }

  // ---------------------------------------------------------------- filtering

  /** The values f gives for the elements of s, in order; elements without a value are passed over. */
  function FilterMap<S, T>(f: S -> Option<T>, s: seq<S>): seq<T> {
    if s == [] then [] else FilterMap(f, s[..|s| - 1]) + ValueOf(f(s[|s| - 1]))
  }

  function ValueOf<T>(v: Option<T>): seq<T> {
    match v case None => [] case Some(x) => [x]
  }

  lemma FilterMapSnoc<S, T>(f: S -> Option<T>, s: seq<S>, x: S)
    ensures FilterMap(f, s + [x]) == FilterMap(f, s) + ValueOf(f(x))
  {
    assert (s + [x])[..|s|] == s;
  }

  lemma FilterMapNothing<S, T>(f: S -> Option<T>)
    ensures FilterMap(f, []) == []
  {}

  lemma {:induction false} FilterMapJoins<S, T>(f: S -> Option<T>, s: seq<S>, t: seq<S>)
    ensures FilterMap(f, s + t) == FilterMap(f, s) + FilterMap(f, t)
    decreases |t|
  {
    if t == [] {
      assert s + t == s;
    } else {
      var init := t[..|t| - 1];
      assert (s + t)[..|s + t| - 1] == s + init;
      FilterMapJoins(f, s, init);
    }
  }

  /** The indices below n of the elements with a value. */
  ghost function Kept<S, T>(f: S -> Option<T>, s: seq<S>, n: nat): set<int> {
    set i | 0 <= i < |s| && i < n && f(s[i]).Some?
  }

  lemma KeptGrows<S, T>(f: S -> Option<T>, s: seq<S>, n: nat)
    requires n < |s|
    ensures |Kept(f, s, n + 1)| == |Kept(f, s, n)| + |ValueOf(f(s[n]))|
  {
    assert Kept(f, s, n + 1) == if f(s[n]).Some? then Kept(f, s, n) + {n} else Kept(f, s, n);
  }

  /** There are as many values among the first n elements as elements that give one. */
  lemma {:induction false} FilterMapCount<S, T>(f: S -> Option<T>, s: seq<S>, n: nat)
    requires n <= |s|
    ensures |FilterMap(f, s[..n])| == |Kept(f, s, n)|
    ensures s[..|s|] == s
  {
    if n > 0 {
      hide FilterMap, Kept, ValueOf;
      FilterMapCount(f, s, n - 1);
      KeptGrows(f, s, n - 1);
      assert s[..n] == s[..n - 1] + [s[n - 1]];
      FilterMapSnoc(f, s[..n - 1], s[n - 1]);
    } else {
      assert Kept(f, s, 0) == {} && FilterMap(f, []) == [];
    }
  }

  /** And the value of element i stands behind those of the elements before it. */
  lemma {:induction false} FilterMapAt<S, T>(f: S -> Option<T>, s: seq<S>, i: nat)
    requires i < |s| && f(s[i]).Some?
    ensures var k := |Kept(f, s, i)|; k < |FilterMap(f, s)| && FilterMap(f, s)[k] == f(s[i]).value
  {
    var n := |s| - 1;
    var init := s[..n];
    FilterMapCount(f, s, n);
    if i < n {
      FilterMapAt(f, init, i);
      assert Kept(f, init, i) == Kept(f, s, i);
    }
  }

  /** The same place, told by the values of the elements before i. */
  lemma FilterMapPlace<S, T>(f: S -> Option<T>, s: seq<S>, i: nat)
    requires i < |s| && f(s[i]).Some?
    ensures var front, all := FilterMap(f, s[..i]), FilterMap(f, s);
            |front| < |all| && all[..|front|] == front && all[|front|] == f(s[i]).value
  {
    hide FilterMap, Kept;
    FilterMapCount(f, s, i);
    FilterMapAt(f, s, i);
    assert s == s[..i] + s[i..];
    FilterMapJoins(f, s[..i], s[i..]);
  }
}
