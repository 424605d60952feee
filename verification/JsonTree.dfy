/** JSON values as plain trees, with the two updates and the lookup of go-simplejson stated on them. */
module JsonTree {

  datatype Atom = Null | Bool(b: bool) | Number(literal: string) | Text(s: string)

  datatype Tree = TLeaf(atom: Atom) | TArr(elems: seq<Tree>) | TMap(kids: map<string, Tree>)

  type Path = seq<string>

  /** What a chain of Get calls reads: null as soon as a key or a map is missing. */
  function Lookup(t: Tree, p: Path): Tree {
    if p == [] then t
    else if t.TMap? && p[0] in t.kids then Lookup(t.kids[p[0]], p[1..])
    else TLeaf(Null)
  }

  function KidsOf(t: Tree): map<string, Tree> {
    if t.TMap? then t.kids else map[]
  }

  /** Where a write through key k continues: the map a repair would put there when nothing stands. */
  function Below(t: Tree, k: string): Tree {
    if k in KidsOf(t) then KidsOf(t)[k] else TMap(map[])
  }

  /** Writing v at p: whatever stands on the way and is not a map gives way to an empty map. */
  function SetAt(t: Tree, p: Path, v: Tree): Tree
    decreases p
  {
    if p == [] then v
    else TMap(KidsOf(t)[p[0] := SetAt(Below(t, p[0]), p[1..], v)])
  }

  /** Removing the last key of p from the map in front of it; nothing happens where there is no map. */
  function DelAt(t: Tree, p: Path): Tree
    requires p != []
  {
    if !t.TMap? then t
    else if |p| == 1 then TMap(t.kids - {p[0]})
    else if p[0] in t.kids then TMap(t.kids[p[0] := DelAt(t.kids[p[0]], p[1..])])
    else t
  }

  /** Neither path is a prefix of the other. */
  predicate Diverge(p: Path, q: Path) {
    p != [] && q != [] && (p[0] != q[0] || Diverge(p[1..], q[1..]))
  }

  lemma {:induction false} DivergeMeansNoPrefix(p: Path, q: Path)
    ensures Diverge(p, q) <==> !(p <= q) && !(q <= p)
  {
    if p != [] && q != [] && p[0] == q[0] {
      DivergeMeansNoPrefix(p[1..], q[1..]);
      assert p == [p[0]] + p[1..] && q == [q[0]] + q[1..];
      assert p <= q ==> p[1..] <= q[1..];
      assert q <= p ==> q[1..] <= p[1..];
    }
  }

  lemma {:induction false} LookupThrough(t: Tree, p: Path, q: Path)
    ensures Lookup(t, p + q) == Lookup(Lookup(t, p), q)
  {
    if p == [] {
      assert p + q == q;
    } else if t.TMap? && p[0] in t.kids {
      assert (p + q)[1..] == p[1..] + q;
      LookupThrough(t.kids[p[0]], p[1..], q);
    } else {
      LookupNull(q);
    }
  }

  lemma LookupNull(q: Path)
    ensures Lookup(TLeaf(Null), q) == TLeaf(Null)
  {}

  /** Read after write, at the written path and everywhere below it. */
  lemma {:induction false} LookupWritten(t: Tree, p: Path, v: Tree, q: Path)
    ensures Lookup(SetAt(t, p, v), p + q) == Lookup(v, q)
    decreases p
  {
    if p == [] {
      assert p + q == q;
    } else {
      assert (p + q)[1..] == p[1..] + q;
      LookupWritten(Below(t, p[0]), p[1..], v, q);
    }
  }

  /** A write is invisible on every path that diverges from it, replaced scalars included. */
  lemma {:induction false} LookupElsewhere(t: Tree, p: Path, v: Tree, q: Path)
    requires Diverge(p, q)
    ensures Lookup(SetAt(t, p, v), q) == Lookup(t, q)
    decreases p
  {
    if p[0] == q[0] {
      LookupElsewhere(Below(t, p[0]), p[1..], v, q[1..]);
    }
  }

  lemma WritesThroughOneKey(t: Tree, p: Path, v: Tree, q: Path, w: Tree)
    requires p != [] && q != [] && p[0] == q[0]
    ensures SetAt(SetAt(t, p, v), q, w)
         == TMap(KidsOf(t)[p[0] := SetAt(SetAt(Below(t, p[0]), p[1..], v), q[1..], w)])
  {}

  lemma WritesThroughTwoKeys(t: Tree, p: Path, v: Tree, q: Path, w: Tree)
    requires p != [] && q != [] && p[0] != q[0]
    ensures SetAt(SetAt(t, p, v), q, w)
         == TMap(KidsOf(t)[p[0] := SetAt(Below(t, p[0]), p[1..], v)][q[0] := SetAt(Below(t, q[0]), q[1..], w)])
  {}

  lemma {:induction false} WritesCommute(t: Tree, p: Path, v: Tree, q: Path, w: Tree)
    requires Diverge(p, q)
    ensures SetAt(SetAt(t, p, v), q, w) == SetAt(SetAt(t, q, w), p, v)
    decreases p
  {
    if p[0] == q[0] {
      WritesThroughOneKey(t, p, v, q, w);
      WritesThroughOneKey(t, q, w, p, v);
      WritesCommute(Below(t, p[0]), p[1..], v, q[1..], w);
    } else {
      WritesThroughTwoKeys(t, p, v, q, w);
      WritesThroughTwoKeys(t, q, w, p, v);
      var a, b := SetAt(Below(t, p[0]), p[1..], v), SetAt(Below(t, q[0]), q[1..], w);
      assert KidsOf(t)[p[0] := a][q[0] := b] == KidsOf(t)[q[0] := b][p[0] := a];
    }
  }

  /** A later write at or above an earlier one erases it. */
  lemma {:induction false} WriteAboveErases(t: Tree, p: Path, q: Path, v: Tree, w: Tree)
    ensures SetAt(SetAt(t, p + q, v), p, w) == SetAt(t, p, w)
    decreases p
  {
    if p != [] {
      assert (p + q)[0] == p[0] && (p + q)[1..] == p[1..] + q;
      WritesThroughOneKey(t, p + q, v, p, w);
      WriteAboveErases(Below(t, p[0]), p[1..], q, v, w);
    }
  }

  /** A later write below an earlier one is a write into the value. */
  lemma {:induction false} WriteBelowRefines(t: Tree, p: Path, q: Path, v: Tree, w: Tree)
    ensures SetAt(SetAt(t, p, v), p + q, w) == SetAt(t, p, SetAt(v, q, w))
    decreases p
  {
    if p == [] {
      assert p + q == q;
    } else {
      assert (p + q)[0] == p[0] && (p + q)[1..] == p[1..] + q;
      WritesThroughOneKey(t, p, v, p + q, w);
      WriteBelowRefines(Below(t, p[0]), p[1..], q, v, w);
    }
  }

  lemma {:induction false} DeletedReadsNull(t: Tree, p: Path, k: string, q: Path)
    ensures Lookup(DelAt(t, p + [k]), p + [k] + q) == TLeaf(Null)
  {
    if p == [] {
      assert p + [k] == [k] && ([k] + q)[0] == k;
    } else {
      assert (p + [k])[1..] == p[1..] + [k];
      assert (p + [k] + q)[0] == p[0] && (p + [k] + q)[1..] == p[1..] + [k] + q;
      if t.TMap? && p[0] in t.kids {
        DeletedReadsNull(t.kids[p[0]], p[1..], k, q);
      }
    }
  }

  lemma {:induction false} DeleteElsewhere(t: Tree, p: Path, q: Path)
    requires Diverge(p, q)
    ensures Lookup(DelAt(t, p), q) == Lookup(t, q)
  {
    if t.TMap? && |p| > 1 && p[0] == q[0] && p[0] in t.kids {
      DeleteElsewhere(t.kids[p[0]], p[1..], q[1..]);
    }
  }

  /** Where a map stands at p, writing one key of it is a write of the longer path. */
  lemma {:induction false} SetKeyIsSetAt(t: Tree, p: Path, k: string, v: Tree)
    requires Lookup(t, p).TMap?
    ensures SetAt(t, p + [k], v) == SetAt(t, p, TMap(Lookup(t, p).kids[k := v]))
    decreases p
  {
    var q := p + [k];
    if p == [] {
      assert q[0] == k && q[1..] == [];
      assert SetAt(Below(t, k), [], v) == v;
    } else {
      assert q[0] == p[0] && q[1..] == p[1..] + [k];
      SetKeyIsSetAt(t.kids[p[0]], p[1..], k, v);
    }
  }

  lemma {:induction false} DeleteKeyIsDelAt(t: Tree, p: Path, k: string)
    requires Lookup(t, p).TMap?
    ensures DelAt(t, p + [k]) == SetAt(t, p, TMap(Lookup(t, p).kids - {k}))
    decreases p
  {
    var q := p + [k];
    if p == [] {
      assert q[0] == k && |q| == 1;
    } else {
      assert q[0] == p[0] && q[1..] == p[1..] + [k];
      DeleteKeyIsDelAt(t.kids[p[0]], p[1..], k);
    }
  }

  /** Where a map stands at p, writing there changes the tree exactly when it changes what p reads. */
  lemma {:induction false} SameWriteIff(t: Tree, p: Path, x: Tree)
    requires Lookup(t, p).TMap?
    ensures SetAt(t, p, x) == t <==> x == Lookup(t, p)
    decreases p
  {
    if p != [] {
      var below := t.kids[p[0]];
      SameWriteIff(below, p[1..], x);
      var kids' := t.kids[p[0] := SetAt(below, p[1..], x)];
      assert SetAt(t, p, x) == TMap(kids') && kids'[p[0]] == SetAt(below, p[1..], x);
      if SetAt(below, p[1..], x) == below {
        assert kids' == t.kids;
      }
    }
  }

  /** A write below a place that holds no map starts from an empty map there. */
  lemma {:induction false} NonMapGivesWay(t: Tree, p: Path, q: Path, x: Tree)
    requires q != [] && !Lookup(t, p).TMap?
    ensures SetAt(t, p + q, x) == SetAt(t, p, SetAt(TMap(map[]), q, x))
    decreases p
  {
    if p == [] {
      assert p + q == q;
      assert Below(t, q[0]) == Below(TMap(map[]), q[0]);
    } else {
      assert (p + q)[0] == p[0] && (p + q)[1..] == p[1..] + q;
      if p[0] in KidsOf(t) || p[1..] != [] {
        NonMapGivesWay(Below(t, p[0]), p[1..], q, x);
      } else {
        assert p[1..] + q == q;
      }
    }
  }

  // ---------------------------------------------------------------- runs of writes

  datatype Write = Write(branch: Path, val: Tree)

  function Run(t: Tree, ws: seq<Write>): Tree
    decreases ws
  {
    if ws == [] then t else Run(SetAt(t, ws[0].branch, ws[0].val), ws[1..])
  }

  lemma {:induction false} RunSnoc(t: Tree, ws: seq<Write>, w: Write)
    ensures Run(t, ws + [w]) == SetAt(Run(t, ws), w.branch, w.val)
    decreases ws
  {
    if ws == [] {
      assert ws + [w] == [w] && [w][1..] == [];
      assert Run(SetAt(t, w.branch, w.val), []) == SetAt(t, w.branch, w.val);
    } else {
      assert (ws + [w])[1..] == ws[1..] + [w];
      RunSnoc(SetAt(t, ws[0].branch, ws[0].val), ws[1..], w);
    }
  }

  /** In a run, a path still reads its last write when every later write diverges from it. */
  lemma {:induction false} LastWriteWins(t: Tree, ws: seq<Write>, i: nat, q: Path)
    requires i < |ws|
    requires forall j :: i < j < |ws| ==> Diverge(ws[j].branch, ws[i].branch + q)
    ensures Lookup(Run(t, ws), ws[i].branch + q) == Lookup(ws[i].val, q)
    decreases ws
  {
    var t1 := SetAt(t, ws[0].branch, ws[0].val);
    if i > 0 {
      assert ws[1..][i - 1] == ws[i];
      LastWriteWins(t1, ws[1..], i - 1, q);
    } else {
      LookupWritten(t, ws[0].branch, ws[0].val, q);
      QuietRun(t1, ws[1..], ws[0].branch + q);
    }
  }

  /** A path no write comes near reads as before the run. */
  lemma {:induction false} QuietRun(t: Tree, ws: seq<Write>, q: Path)
    requires forall j :: 0 <= j < |ws| ==> Diverge(ws[j].branch, q)
    ensures Lookup(Run(t, ws), q) == Lookup(t, q)
    decreases ws
  {
    if ws != [] {
      LookupElsewhere(t, ws[0].branch, ws[0].val, q);
      QuietRun(SetAt(t, ws[0].branch, ws[0].val), ws[1..], q);
    }
  }

  /** A write may be moved to the end of a run past any writes that diverge from it. */
  lemma {:induction false} WriteMovesPastRun(t: Tree, w: Write, ws: seq<Write>)
    requires forall j :: 0 <= j < |ws| ==> Diverge(w.branch, ws[j].branch)
    ensures Run(t, [w] + ws) == SetAt(Run(t, ws), w.branch, w.val)
    decreases ws
  {
    if ws == [] {
      assert [w] + ws == [w];
      assert Run(t, [w]) == Run(SetAt(t, w.branch, w.val), []);
    } else {
      var u := ws[0];
      WritesCommute(t, w.branch, w.val, u.branch, u.val);
      WriteMovesPastRun(SetAt(t, u.branch, u.val), w, ws[1..]);
      assert ([w] + ws)[1..] == ws && ([w] + ws[1..])[1..] == ws[1..];
      assert Run(SetAt(t, u.branch, u.val), [w] + ws[1..])
          == Run(SetAt(SetAt(t, u.branch, u.val), w.branch, w.val), ws[1..]);
    }
  }
}
