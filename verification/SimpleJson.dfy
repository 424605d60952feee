/** The Json wrapper of go-simplejson: reads hand out new wrappers around the same maps,
    writes change those maps in place. */
module SimpleJson {
  import opened JsonHeap
  import opened JsonTree
  import opened Wrappers

  class Json {
    var data: Value

    constructor (data: Value)
      ensures this.data == data
    {
      this.data := data;
    }

    /** The map in this wrapper, when there is one. */
    function Map(): Option<MapObj>
      reads this
    {
      if data.Obj? then Some(data.m) else None
    }

    function Array(): Option<seq<Value>>
      reads this
    {
      if data.Arr? then Some(data.elems) else None
    }

    method Set(key: string, val: Value)
      modifies if data.Obj? then {data.m} else {}
      ensures data.Obj? ==> data.m.entries == old(data.m.entries)[key := val]
    {
      var m := Map();
      if m == None {
        return;
      }
      m.value.entries := m.value.entries[key := val];
    }

    method Del(key: string)
      modifies if data.Obj? then {data.m} else {}
      ensures data.Obj? ==> data.m.entries == old(data.m.entries) - {key}
    {
      var m := Map();
      if m == None {
        return;
      }
      m.value.entries := m.value.entries - {key};
    }

    method Get(key: string) returns (r: Json)
      ensures fresh(r)
      ensures r.data == if data.Obj? && key in data.m.entries then data.m.entries[key] else Leaf(Null)
    {
      var m := Map();
      if m != None {
        if key in m.value.entries {
          r := new Json(m.value.entries[key]);
          return;
        }
      }
      r := new Json(Leaf(Null));
    }

    method CheckGet(key: string) returns (r: Json?, ok: bool)
      ensures ok <==> data.Obj? && key in data.m.entries
      ensures ok ==> r != null && fresh(r) && r.data == data.m.entries[key]
      ensures !ok ==> r == null
    {
      var m := Map();
      if m != None {
        if key in m.value.entries {
          r := new Json(m.value.entries[key]);
          ok := true;
          return;
        }
      }
      r, ok := null, false;
    }

    /** An empty branch gives back this very wrapper, any other one a new wrapper around the value found.
        S is any set that holds the maps on the way; the heap may share maps and even be cyclic. */
    method GetPath(branch: Path, ghost S: set<MapObj>) returns (r: Json)
      requires Reaches(Heap(S), data, branch)
      ensures if branch == [] then r == this else fresh(r)
      ensures r.data == Walk(Heap(S), data, branch)
    {
      var jin := this;
      assert branch[0..] == branch;
      for i := 0 to |branch|
        invariant if i == 0 then jin == this else fresh(jin)
        invariant Reaches(Heap(S), jin.data, branch[i..])
        invariant Walk(Heap(S), jin.data, branch[i..]) == Walk(Heap(S), data, branch)
      {
        assert branch[i..][0] == branch[i] && branch[i..][1..] == branch[i + 1..];
        WalkNull(Heap(S), branch[i + 1..]);
        jin := jin.Get(branch[i]);
      }
      r := jin;
    }

    /** The map at the root; a new one takes the place of anything else. */
    method RootMap(branch: Path, ghost S: set<MapObj>, ghost s: Shape)
      returns (curr: MapObj, ghost S': set<MapObj>)
      requires Represents(Heap(S), data, s) && branch != []
      modifies this
      ensures S <= S' && fresh(S' - S)
      ensures AtStep(old(Heap(S)), Heap(S'), data, s, branch, 0, curr, if old(data).Obj? then Walking else Built(0, []))
      ensures data == if old(data).Obj? then old(data) else Obj(curr)
    {
      hide AtStep, Represents;
      if !data.Obj? {
        var n := MapObj.Make(S);
        StartReplaced(Heap(S), data, s, branch, n);
        data := Obj(n);
        S' := S + {n};
      } else {
        S' := S;
        StartInPlace(Heap(S), data, s, branch);
      }
      curr := data.m;
    }

    /** Writes val at branch, on any acyclic heap. At most one existing map changes, Written(s, branch). If val
        leads to that map the heap becomes cyclic; otherwise the result is the tree update SetAt exactly when
        that map stands nowhere else, or the update changes nothing. */
    method SetPath(branch: Path, val: Value, ghost S: set<MapObj>, ghost s: Shape, ghost sv: Shape)
      returns (ghost S': set<MapObj>, ghost s': Shape)
      requires Represents(Heap(S), data, s) && Represents(Heap(S), val, sv)
      modifies this, Written(s, branch)
      ensures S <= S' && fresh(S' - S)
      ensures Walk(Heap(S'), data, branch) == val
      ensures Acyclic(s, branch, sv) ==> Updates(Heap(S'), data, s, branch, sv, s')
      ensures !Acyclic(s, branch, sv) ==> forall z: Shape :: !Represents(Heap(S'), data, z)
      ensures MapInFront(s, branch) ==> data == old(data) && WritesKey(old(Heap(S)), Heap(S'), s, branch, val)
    {
      hide AtStep, Updates, Acyclic, Represents, Walk, Written, MapInFront, WritesKey, SetAt, Erase;
      ghost var H0 := Heap(S);
      if |branch| == 0 {
        data := val;
        S', s' := S, sv;
        AtOnce(H0, s, val, sv);
        return;
      }

      var curr;
      curr, S' := RootMap(branch, S, s);
      ghost var H := Heap(S');
      ghost var phase := if old(data).Obj? then Walking else Built(0, []);

      for i := 0 to |branch| - 1
        invariant S <= S' && fresh(S' - S) && H == Heap(S')
        invariant old(data).Obj? ==> data == old(data)
        invariant AtStep(H0, H, data, s, branch, i, curr, phase)
      {
        var b := branch[i];
        StopsHere(H0, H, data, s, branch, i, curr, phase);
        if b !in curr.entries || !curr.entries[b].Obj? {
          var n := curr.StoreNew(b, S');
          S' := S' + {n};
          phase := RepairStep(H0, H, Heap(S'), data, s, branch, i, curr, phase, n);
          H := Heap(S');
          curr := n;
        } else {
          DescendStep(H0, H, data, s, branch, i, curr, phase);
          curr := curr.entries[b].m;
        }
      }

      StopsHere(H0, H, data, s, branch, |branch| - 1, curr, phase);
      curr.Store(branch[|branch| - 1], val, S');
      s' := LastStep(H0, H, Heap(S'), old(data), data, s, branch, curr, phase, val, sv);
    }
  }

  /** The value, described by sv, does not lead to the map the write changes. */
  ghost predicate Acyclic(s: Shape, branch: Path, sv: Shape) { Written(s, branch) !! Refs(sv) }

  /** What a finished write of a value described by sv amounts to, in heap H seen from v. */
  ghost predicate Updates(H: Store, v: Value, s: Shape, branch: Path, sv: Shape, s': Shape) {
    var t := SetAt(Erase(s), branch, Erase(sv));
    && Represents(H, v, s')
    && (Erase(s') == t <==> Exclusive(s, branch) || t == Erase(s))
    && (Tidy(s) ==> Erase(s') == t)
    && (Tidy(s) && Tidy(sv) && Refs(s) !! Refs(sv) ==> Tidy(s'))
  }

  /** The map the last key belongs to is there already. */
  ghost predicate MapInFront(s: Shape, branch: Path) {
    branch != [] && ShapeAt(s, branch[..|branch| - 1]).SMap?
  }

  /** Then the write is one assignment to that map and nothing else. */
  ghost predicate WritesKey(H: Store, H': Store, s: Shape, branch: Path, val: Value)
    requires MapInFront(s, branch)
  {
    var w := ShapeAt(s, branch[..|branch| - 1]).at;
    w in H && H' == H[w := H[w][branch[|branch| - 1] := val]]
  }

  // ---------------------------------------------------------------- writing through an alias

  /** root.GetPath(p).Set(k, val), on any acyclic heap: where p holds a map, the very assignment that
      root.SetPath(p + [k], val) makes, so the root sees the same; elsewhere the heap stays as it is. */
  method SetThroughAlias(root: Json, p: Path, k: string, val: Value,
                         ghost S: set<MapObj>, ghost s: Shape, ghost sv: Shape)
    returns (ghost s': Shape)
    requires Represents(Heap(S), root.data, s) && Represents(Heap(S), val, sv)
    modifies if ShapeAt(s, p).SMap? then {ShapeAt(s, p).at} else {}
    ensures MapInFront(s, p + [k]) <==> ShapeAt(s, p).SMap?
    ensures MapInFront(s, p + [k]) ==>
              && WritesKey(old(Heap(S)), Heap(S), s, p + [k], val)
              && Walk(Heap(S), root.data, p + [k]) == val
              && (Acyclic(s, p + [k], sv) ==> Updates(Heap(S), root.data, s, p + [k], sv, s'))
              && (!Acyclic(s, p + [k], sv) ==> forall z: Shape :: !Represents(Heap(S), root.data, z))
    ensures !MapInFront(s, p + [k]) ==> Heap(S) == old(Heap(S))
  {
    hide Updates, Acyclic, Represents, Walk, Reaches, ShapeAt;
    ghost var H := Heap(S);
    AliasFacts(H, root.data, s, p, k);
    var w := root.GetPath(p, S);
    w.Set(k, val);
    s' := s;
    if ShapeAt(s, p).SMap? {
      ghost var m := ShapeAt(s, p).at;
      assert Heap(S) == H[m := H[m][k := val]];
      s' := Outcome(H, Heap(S), root.data, root.data, s, p + [k], |p| + 1, [], val, sv);
    }
  }

  /** root.GetPath(p).Del(k), on any acyclic heap: the root loses p + [k], and nothing else exactly when the
      map at p stands nowhere else or nothing is lost. */
  method DelThroughAlias(root: Json, p: Path, k: string, ghost S: set<MapObj>, ghost s: Shape)
    returns (ghost s': Shape)
    requires Represents(Heap(S), root.data, s)
    modifies if ShapeAt(s, p).SMap? then {ShapeAt(s, p).at} else {}
    ensures Represents(Heap(S), root.data, s') && (Tidy(s) ==> Tidy(s') && Erase(s') == DelAt(Erase(s), p + [k]))
    ensures var t := DelAt(Erase(s), p + [k]);
            Erase(s') == t <==> (ShapeAt(s, p).SMap? ==> Alone(s, p)) || t == Erase(s)
    ensures !ShapeAt(s, p).SMap? ==> Heap(S) == old(Heap(S))
  {
    hide SetAt, DelAt, Erase, Tidy, Represents, Walk, Reaches, ShapeAt, Alone;
    ghost var H := Heap(S);
    AliasFacts(H, root.data, s, p, k);
    var w := root.GetPath(p, S);
    w.Del(k);
    s' := s;
    if ShapeAt(s, p).SMap? {
      ghost var m := ShapeAt(s, p).at;
      assert Heap(S) == H[m := H[m] - {k}];
      s' := KeyDeleted(H, Heap(S), root.data, s, p, k);
      if Tidy(s) {
        TidyIsAlone(s, p);
      }
    } else {
      DeleteNothing(s, p, k);
    }
  }

  lemma AliasFacts(H: Store, v: Value, s: Shape, p: Path, k: string)
    requires Represents(H, v, s)
    ensures Reaches(H, v, p)
    ensures (p + [k])[..|p + [k]| - 1] == p && (p + [k])[|p|] == k
    ensures if ShapeAt(s, p).SMap? then Walk(H, v, p) == Obj(ShapeAt(s, p).at) && ShapeAt(s, p).at in H
            else !Walk(H, v, p).Obj?
  {
    WalkReadsTree(H, v, s, p);
  }

  lemma {:induction false} DeleteNothing(s: Shape, p: Path, k: string)
    requires !ShapeAt(s, p).SMap?
    ensures DelAt(Erase(s), p + [k]) == Erase(s)
    decreases p
  {
    var q := p + [k];
    if p != [] && s.SMap? && p[0] in s.kids {
      assert q[0] == p[0] && q[1..] == p[1..] + [k];
      DeleteNothing(s.kids[p[0]], p[1..], k);
      assert DelAt(Erase(s), q).kids == Erase(s).kids;
    } else if p != [] {
      assert q[0] == p[0];
    }
  }

  // ---------------------------------------------------------------- runs of SetPath

  ghost predicate AtomWrites(ws: seq<Write>) { forall i :: 0 <= i < |ws| ==> ws[i].val.TLeaf? }

  /** A run of SetPath calls that write atoms. Any acyclic heap stays acyclic; one that shares no map still shares
      none, and takes the very run of tree updates. */
  method SetPaths(root: Json, ws: seq<Write>, ghost S: set<MapObj>, ghost s: Shape)
    returns (ghost S': set<MapObj>, ghost s': Shape)
    requires Represents(Heap(S), root.data, s) && AtomWrites(ws)
    modifies root, S
    ensures S <= S' && fresh(S' - S)
    ensures Represents(Heap(S'), root.data, s')
    ensures Tidy(s) ==> Tidy(s') && Erase(s') == Run(Erase(s), ws)
  {
    hide Represents, Tidy, Erase, Run, SetAt, Acyclic, Written, Walk, Exclusive, MapInFront, WritesKey;
    S', s' := S, s;
    NoWrites(Erase(s));
    for i := 0 to |ws|
      invariant S <= S' && fresh(S' - S)
      invariant Represents(Heap(S'), root.data, s')
      invariant Tidy(s) ==> Tidy(s') && Erase(s') == Run(Erase(s), ws[..i])
    {
      ghost var sv := SLeaf(ws[i].val.atom);
      AtomFacts(Heap(S'), root.data, s', ws[i], sv);
      RunSnoc(Erase(s), ws[..i], ws[i]);
      assert ws[..i + 1] == ws[..i] + [ws[i]];
      S', s' := root.SetPath(ws[i].branch, Leaf(ws[i].val.atom), S', s', sv);
    }
    assert ws[..|ws|] == ws;
  }

  lemma NoWrites(t: Tree)
    ensures Run(t, []) == t
  {}

  /** An atom leads nowhere, and what a write changes is in the heap described. */
  lemma AtomFacts(H: Store, v: Value, s: Shape, w: Write, sv: Shape)
    requires Represents(H, v, s) && w.val.TLeaf? && sv == SLeaf(w.val.atom)
    ensures Represents(H, Leaf(w.val.atom), sv) && Tidy(sv) && Refs(sv) == {} && Erase(sv) == w.val
    ensures Acyclic(s, w.branch, sv) && Written(s, w.branch) <= H.Keys
  {
    RefsInStore(H, v, s);
    if w.branch != [] && s.SMap? {
      AtIsBelow(s, w.branch[..Depth(s, w.branch)]);
    }
  }

  /** Read through the heap after a run: a branch still holds its last atom when every later write diverges. */
  lemma LastAtomIsRead(H: Store, v: Value, s': Shape, t: Tree, ws: seq<Write>, i: nat)
    requires Represents(H, v, s') && Erase(s') == Run(t, ws)
    requires i < |ws| && ws[i].val.TLeaf?
    requires forall j :: i < j < |ws| ==> Diverge(ws[j].branch, ws[i].branch)
    ensures Walk(H, v, ws[i].branch) == Leaf(ws[i].val.atom)
  {
    assert ws[i].branch + [] == ws[i].branch;
    LastWriteWins(t, ws, i, []);
    WalkReadsTree(H, v, s', ws[i].branch);
  }

  // ---------------------------------------------------------------- where sharing and cycles come from

  lemma {:induction false} SelfLoopUndescribed(H: Store, m: MapObj, z: Shape)
    requires m in H && H[m] == map["a" := Obj(m)]
    ensures !Represents(H, Obj(m), z)
    decreases z
  {
    if z.SMap? && "a" in z.kids {
      SelfLoopUndescribed(H, m, z.kids["a"]);
      assert "a" in H[m];
    }
  }

  /** {} written into itself, SetPath(["a"], root): no tree describes the result. */
  lemma SelfWriteIsCyclic(m: MapObj, z: Shape)
    ensures var s, H, H' := SMap(m, map[]), map[m := map[]], map[m := map["a" := Obj(m)]];
            && Represents(H, Obj(m), s) && Written(s, ["a"]) == Refs(s) == {m}
            && MapInFront(s, ["a"]) && WritesKey(H, H', s, ["a"], Obj(m))
            && !Represents(H', Obj(m), z)
  {
    assert ["a"][..0] == [];
    SelfLoopUndescribed(map[m := map["a" := Obj(m)]], m, z);
  }

  /** One map under both "a" and "b" is not exclusive: writing a.x also changes b.x. */
  lemma SharedMapLeaks(m: MapObj, n: MapObj)
    requires m != n
    ensures var s := SMap(m, map["a" := SMap(n, map[]), "b" := SMap(n, map[])]);
            var H := map[m := map["a" := Obj(n), "b" := Obj(n)], n := map[]];
            var H' := H[n := map["x" := Leaf(Bool(true))]];
            && Represents(H, Obj(m), s) && !Exclusive(s, ["a", "x"])
            && MapInFront(s, ["a", "x"]) && WritesKey(H, H', s, ["a", "x"], Leaf(Bool(true)))
            && Walk(H, Obj(m), ["b", "x"]) == Leaf(Null) && Walk(H', Obj(m), ["b", "x"]) == Leaf(Bool(true))
  {
    var s := SMap(m, map["a" := SMap(n, map[]), "b" := SMap(n, map[])]);
    assert ["a", "x"][1..] == ["x"] && ["x"][..0] == [] && ["a", "x"][..1] == ["a"] && ["a"][1..] == [];
    assert Depth(SMap(n, map[]), ["x"]) == 0;
    assert Depth(s, ["a", "x"]) == 1;
    assert ShapeAt(s, ["a"]) == SMap(n, map[]);
    assert "b" in s.kids && n in Refs(s.kids["b"]);
    assert ["b", "x"][1..] == ["x"] && ["x"][1..] == [];
  }

  // ---------------------------------------------------------------- the steps of SetPath

  /** Walking down existing maps, or building new ones: ns have been hung under one another from branch[..c] on. */
  datatype Phase = Walking | Built(c: nat, ns: seq<MapObj>)

  /** x hangs where branch[..c] leads: under the map in front, or at the root when that was replaced. Of the old
      maps only that one has changed. */
  ghost predicate Hooked(H0: Store, H: Store, v: Value, s: Shape, branch: Path, c: nat, x: Value) {
    && c <= |branch|
    && (if c == 0 then !s.SMap? && v == x && forall r :: r in H0 ==> r in H && H[r] == H0[r]
        else
          && ShapeAt(s, branch[..c - 1]).SMap? && (c < |branch| ==> !ShapeAt(s, branch[..c]).SMap?)
          && Represents(H0, v, s) && KeyWrite(H0, H, s, branch[..c - 1], branch[c - 1], x))
  }

  /** Where the descent stands at step i, having turned the store H0 into H. */
  ghost predicate AtStep(H0: Store, H: Store, v: Value, s: Shape, branch: Path, i: nat, curr: MapObj, phase: Phase) {
    && i < |branch| && curr in H
    && match phase
       case Walking =>
         H == H0 && Represents(H0, v, s) && ShapeAt(s, branch[..i]).SMap? && ShapeAt(s, branch[..i]).at == curr
       case Built(c, ns) =>
         && c + |ns| == i && H[curr] == map[] && NoneTwice(ns + [curr])
         && (forall j :: 0 <= j <= |ns| ==> (ns + [curr])[j] !in H0 && (ns + [curr])[j] in H)
         && Linked(H, ns, branch[c..i], Obj(curr))
         && Hooked(H0, H, v, s, branch, c, Head(ns, Obj(curr)))
  }

  lemma Split(branch: Path, i: nat)
    requires i < |branch|
    ensures branch[..i + 1] == branch[..i] + [branch[i]]
  {}

  lemma SplitFrom(branch: Path, c: nat, i: nat)
    requires c <= i < |branch|
    ensures branch[c..i + 1] == branch[c..i] + [branch[i]]
    ensures i + 1 == |branch| ==> branch[c..i + 1] == branch[c..]
  {}

  lemma StartInPlace(H0: Store, v: Value, s: Shape, branch: Path)
    requires Represents(H0, v, s) && v.Obj? && branch != []
    ensures AtStep(H0, H0, v, s, branch, 0, v.m, Walking)
  {
    assert branch[..0] == [];
  }

  lemma StartReplaced(H0: Store, v: Value, s: Shape, branch: Path, n: MapObj)
    requires Represents(H0, v, s) && !v.Obj? && branch != [] && n !in H0
    ensures AtStep(H0, H0[n := map[]], Obj(n), s, branch, 0, n, Built(0, []))
  {}

  /** While walking, the first repair, or the last key, is where Written points to. */
  lemma StopsHere(H0: Store, H: Store, v: Value, s: Shape, branch: Path, i: nat, curr: MapObj, phase: Phase)
    requires AtStep(H0, H, v, s, branch, i, curr, phase)
    ensures i < |branch| && curr in H
    ensures curr in H0 && (i + 1 == |branch| || branch[i] !in H[curr] || !H[curr][branch[i]].Obj?)
            ==> Written(s, branch) == {curr}
  {
    if phase == Walking && (i + 1 == |branch| || branch[i] !in H[curr] || !H[curr][branch[i]].Obj?) {
      Split(branch, i);
      WalkFindsShape(H, v, s, branch[..i]);
      ShapeAtSnoc(s, branch[..i], branch[i]);
      DepthIs(s, branch, i);
    } else if phase.Built? {
      assert (phase.ns + [curr])[|phase.ns|] == curr;
    }
  }

  lemma DescendStep(H0: Store, H: Store, v: Value, s: Shape, branch: Path, i: nat, curr: MapObj, phase: Phase)
    requires AtStep(H0, H, v, s, branch, i, curr, phase) && i + 1 < |branch|
    requires branch[i] in H[curr] && H[curr][branch[i]].Obj?
    ensures AtStep(H0, H, v, s, branch, i + 1, H[curr][branch[i]].m, phase)
  {
    Split(branch, i);
    WalkFindsShape(H, v, s, branch[..i]);
    ShapeAtSnoc(s, branch[..i], branch[i]);
  }

  /** A repairing turn: it starts a chain under an old map, or lengthens the chain. */
  lemma RepairStep(H0: Store, H: Store, H': Store, v: Value, s: Shape, branch: Path, i: nat,
                   curr: MapObj, phase: Phase, n: MapObj) returns (phase': Phase)
    requires AtStep(H0, H, v, s, branch, i, curr, phase) && i + 1 < |branch|
    requires branch[i] !in H[curr] || !H[curr][branch[i]].Obj?
    requires n !in H && H' == H[n := map[]][curr := H[curr][branch[i] := Obj(n)]]
    ensures AtStep(H0, H', v, s, branch, i + 1, n, phase')
  {
    match phase
    case Walking =>
      phase' := Built(i + 1, []);
      Split(branch, i);
      WalkFindsShape(H, v, s, branch[..i]);
      ShapeAtSnoc(s, branch[..i], branch[i]);
    case Built(c, ns) =>
      phase' := Built(c, ns + [curr]);
      RepairChain(H0, H, H', v, s, branch, c, i, ns, curr, n);
  }

  lemma RepairChain(H0: Store, H: Store, H': Store, v: Value, s: Shape, branch: Path, c: nat, i: nat,
                    ns: seq<MapObj>, curr: MapObj, n: MapObj)
    requires AtStep(H0, H, v, s, branch, i, curr, Built(c, ns)) && i + 1 < |branch|
    requires n !in H && H' == H[n := map[]][curr := map[branch[i] := Obj(n)]]
    ensures AtStep(H0, H', v, s, branch, i + 1, n, Built(c, ns + [curr]))
  {
    ChainGrows(H0, H, H', v, s, branch, c, i, ns, curr, Obj(n));
    hide Hooked, Linked, ShapeAt, Represents;
    var chain := ns + [curr];
    assert curr == chain[|ns|];
    assert Head(chain, Obj(n)) == Head(ns, Obj(curr));
    forall j | 0 <= j <= |chain| ensures (chain + [n])[j] !in H0 && (chain + [n])[j] in H' {
      if j < |chain| {
        assert (chain + [n])[j] == chain[j];
      } else {
        HookedKeepsOld(H0, H, v, s, branch, c, Head(ns, Obj(curr)));
      }
    }
  }

  lemma HookedKeepsOld(H0: Store, H: Store, v: Value, s: Shape, branch: Path, c: nat, x: Value)
    requires Hooked(H0, H, v, s, branch, c, x)
    ensures H0.Keys <= H.Keys
  {}

  /** One key written into the end of a chain: the chain goes on to x. */
  lemma ChainGrows(H0: Store, H: Store, H': Store, v: Value, s: Shape, branch: Path, c: nat, i: nat,
                   ns: seq<MapObj>, curr: MapObj, x: Value)
    requires AtStep(H0, H, v, s, branch, i, curr, Built(c, ns))
    requires H.Keys <= H'.Keys && H'[curr] == map[branch[i] := x]
    requires forall r :: r in H && r != curr ==> H'[r] == H[r]
    ensures c <= i && Linked(H', ns + [curr], branch[c..i + 1], x)
    ensures Hooked(H0, H', v, s, branch, c, Head(ns + [curr], x))
  {
    hide Represents, ShapeAt;
    var chain := ns + [curr];
    forall j | 0 <= j < |ns| ensures ns[j] != curr && ns[j] in H {
      assert chain[j] == ns[j] && chain[|ns|] == curr;
    }
    assert chain[|ns|] == curr;
    LinkedKeeps(H, H', ns, branch[c..i], Obj(curr));
    LinkedGrows(H', ns, branch[c..i], curr, branch[i], x);
    SplitFrom(branch, c, i);
  }

  lemma LastStep(H0: Store, H: Store, H': Store, v0: Value, v: Value, s: Shape, branch: Path,
                 curr: MapObj, phase: Phase, val: Value, sv: Shape) returns (s': Shape)
    requires branch != [] && AtStep(H0, H, v, s, branch, |branch| - 1, curr, phase)
    requires H' == H[curr := H[curr][branch[|branch| - 1] := val]]
    requires Represents(H0, v0, s) && Represents(H0, val, sv) && (v0.Obj? ==> v == v0)
    ensures Walk(H', v, branch) == val
    ensures Acyclic(s, branch, sv) ==> Updates(H', v, s, branch, sv, s')
    ensures !Acyclic(s, branch, sv) ==> forall z: Shape :: !Represents(H', v, z)
    ensures MapInFront(s, branch) ==> v == v0 && WritesKey(H0, H', s, branch, val)
  {
    var n := |branch| - 1;
    match phase
    case Walking =>
      s' := Outcome(H0, H', v0, v, s, branch, |branch|, [], val, sv);
    case Built(c, ns) =>
      ChainGrows(H0, H, H', v, s, branch, c, n, ns, curr, val);
      SplitFrom(branch, c, n);
      assert forall j :: 0 <= j < |ns + [curr]| ==> (ns + [curr])[j] !in H0;
      s' := Outcome(H0, H', v0, v, s, branch, c, ns + [curr], val, sv);
  }

  /** Once a chain that ends in val is hooked in, the write is done. */
  lemma Outcome(H0: Store, H': Store, v0: Value, v: Value, s: Shape, branch: Path, c: nat, ns: seq<MapObj>,
                val: Value, sv: Shape) returns (s': Shape)
    requires branch != [] && Represents(H0, v0, s) && Represents(H0, val, sv) && (v0.Obj? ==> v == v0)
    requires Hooked(H0, H', v, s, branch, c, Head(ns, val)) && Linked(H', ns, branch[c..], val)
    requires NoneTwice(ns) && forall j :: 0 <= j < |ns| ==> ns[j] !in H0
    requires c == |branch| ==> MapInFront(s, branch) && WritesKey(H0, H', s, branch, val)
    ensures Walk(H', v, branch) == val
    ensures Acyclic(s, branch, sv) ==> Updates(H', v, s, branch, sv, s')
    ensures !Acyclic(s, branch, sv) ==> forall z: Shape :: !Represents(H', v, z)
    ensures MapInFront(s, branch) ==> v == v0 && WritesKey(H0, H', s, branch, val)
  {
    hide Updates, Acyclic, Linked, Represents, Walk, Written, WritesKey;
    if MapInFront(s, branch) {
      FrontMeansHooked(H0, H', v0, v, s, branch, c, Head(ns, val));
    }
    if c == 0 {
      assert branch[0..] == branch;
      s' := RootOutcome(H0, H', v, s, branch, ns, val, sv);
    } else {
      s' := KeyOutcome(H0, H', v, s, branch, c, ns, val, sv);
    }
  }

  lemma FrontMeansHooked(H0: Store, H': Store, v0: Value, v: Value, s: Shape, branch: Path, c: nat, x: Value)
    requires branch != [] && Represents(H0, v0, s) && (v0.Obj? ==> v == v0)
    requires Hooked(H0, H', v, s, branch, c, x) && MapInFront(s, branch)
    ensures c == |branch| && v == v0
  {
    var front := branch[..|branch| - 1];
    AtIsBelow(s, front);
    if 0 < c < |branch| {
      assert front == branch[..c] + branch[c..|branch| - 1];
      PrefixIsMap(s, branch[..c], branch[c..|branch| - 1]);
    }
  }

  lemma {:induction false} PrefixIsMap(s: Shape, p: Path, q: Path)
    requires ShapeAt(s, p + q).SMap?
    ensures ShapeAt(s, p).SMap?
    decreases p
  {
    if p == [] {
      assert p + q == q;
      AtIsBelow(s, q);
    } else {
      assert (p + q)[0] == p[0] && (p + q)[1..] == p[1..] + q;
      AtIsBelow(s, p + q);
      PrefixIsMap(s.kids[p[0]], p[1..], q);
    }
  }

  lemma RootOutcome(H0: Store, H': Store, v: Value, s: Shape, branch: Path, ns: seq<MapObj>, val: Value, sv: Shape)
    returns (s': Shape)
    requires branch != [] && Represents(H0, val, sv)
    requires Hooked(H0, H', v, s, branch, 0, Head(ns, val)) && Linked(H', ns, branch, val)
    requires NoneTwice(ns) && forall j :: 0 <= j < |ns| ==> ns[j] !in H0
    ensures Walk(H', v, branch) == val
    ensures Acyclic(s, branch, sv) ==> Updates(H', v, s, branch, sv, s')
    ensures !Acyclic(s, branch, sv) ==> forall z: Shape :: !Represents(H', v, z)
  {
    hide Tidy, Walk, Lookup;
    ChainWalks(H', ns, branch, val);
    RefsInStore(H0, val, sv);
    Frame(H0, H', val, sv);
    s' := Nested(ns, branch, sv);
    ChainDescribed(H', ns, branch, val, sv);
    assert Below(Erase(s), branch[0]) == Below(TMap(map[]), branch[0]);
    if Tidy(sv) {
      ChainTidy(ns, branch, sv);
    }
  }

  lemma KeyOutcome(H0: Store, H': Store, v: Value, s: Shape, branch: Path, c: nat, ns: seq<MapObj>,
                   val: Value, sv: Shape) returns (s': Shape)
    requires 0 < c <= |branch| && Represents(H0, val, sv)
    requires Hooked(H0, H', v, s, branch, c, Head(ns, val)) && Linked(H', ns, branch[c..], val)
    requires NoneTwice(ns) && forall j :: 0 <= j < |ns| ==> ns[j] !in H0
    ensures Walk(H', v, branch) == val
    ensures Acyclic(s, branch, sv) ==> Updates(H', v, s, branch, sv, s')
    ensures !Acyclic(s, branch, sv) ==> forall z: Shape :: !Represents(H', v, z)
  {
    hide Tidy, Walk, Lookup, Linked, Represents, SetAt, Erase, Alone, Refs;
    var p, k, q, x := branch[..c - 1], branch[c - 1], branch[c..], Head(ns, val);
    var w := ShapeAt(s, p).at;
    assert branch[..c] == p + [k] && branch == branch[..c] + q && branch == p + branch[c - 1..];
    WrittenIsFound(H0, H', v, s, p, k, x);
    ChainWalks(H', ns, q, val);
    WalkThrough(H', v, branch[..c], q);
    DepthIs(s, branch, c - 1);
    RefsInStore(H0, val, sv);
    if w in Refs(sv) {
      s' := s;
      forall z: Shape ensures !Represents(H', v, z) {
        LeadingBackIsCyclic(H0, H', v, z, p, branch[c - 1..], w, val, sv);
      }
    } else {
      Frame(H0, H', val, sv);
      var tx := Nested(ns, q, sv);
      ChainDescribed(H', ns, q, val, sv);
      s' := KeyWritten(H0, H', v, s, p, k, x, tx);
      WritePastNoMap(s, branch, c, Erase(sv));
      KeyTidy(H0, v, s, branch, p, ns, q, sv);
    }
  }

  lemma KeyTidy(H0: Store, v: Value, s: Shape, branch: Path, p: Path, ns: seq<MapObj>, q: Path, sv: Shape)
    requires Represents(H0, v, s) && ShapeAt(s, p).SMap? && |ns| == |q|
    requires NoneTwice(ns) && forall j :: 0 <= j < |ns| ==> ns[j] !in H0
    requires Refs(sv) <= H0.Keys
    ensures Tidy(s) ==> Alone(s, p)
    ensures Tidy(s) && Tidy(sv) && Refs(s) !! Refs(sv) ==>
              Tidy(Nested(ns, q, sv)) && Refs(s) !! Refs(Nested(ns, q, sv))
  {
    if Tidy(s) {
      TidyIsAlone(s, p);
    }
    if Tidy(sv) {
      ChainTidy(ns, q, sv);
      RefsInStore(H0, v, s);
    }
  }

  /** Where no map stands, a write below starts from an empty map. */
  lemma WritePastNoMap(s: Shape, branch: Path, c: nat, x: Tree)
    requires c <= |branch| && (c < |branch| ==> !ShapeAt(s, branch[..c]).SMap?)
    ensures SetAt(Erase(s), branch[..c], SetAt(TMap(map[]), branch[c..], x)) == SetAt(Erase(s), branch, x)
  {
    assert branch == branch[..c] + branch[c..];
    if c < |branch| {
      EraseReads(s, branch[..c]);
      NonMapGivesWay(Erase(s), branch[..c], branch[c..], x);
    } else {
      assert branch[..c] == branch && branch[c..] == [] && SetAt(TMap(map[]), [], x) == x;
    }
  }

  lemma AtOnce(H: Store, s: Shape, val: Value, sv: Shape)
    requires Represents(H, val, sv)
    ensures Walk(H, val, []) == val && Acyclic(s, [], sv) && Updates(H, val, s, [], sv, sv) && !MapInFront(s, [])
  {}
}
