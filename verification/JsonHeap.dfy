/** The heap of nested mutable maps behind a Json wrapper, seen as a store of map contents. */
module JsonHeap {
  import opened JsonTree

  /** A Go map[string]interface{}: shared by everyone who holds a reference to it. */
  class MapObj {
    var entries: map<string, Value>

    constructor ()
      ensures entries == map[]
    {
      entries := map[];
    }

    /** A fresh make(map[string]interface{}), added to the store S. */
    static method Make(ghost S: set<MapObj>) returns (n: MapObj)
      ensures fresh(n) && Heap(S + {n}) == old(Heap(S))[n := map[]]
    {
      n := new MapObj();
    }

    /** m[key] = val. */
    method Store(key: string, val: Value, ghost S: set<MapObj>)
      requires this in S
      modifies this
      ensures entries == old(entries)[key := val]
      ensures Heap(S) == old(Heap(S))[this := old(entries)[key := val]]
    {
      entries := entries[key := val];
    }

    /** A fresh map under the key. */
    method StoreNew(key: string, ghost S: set<MapObj>) returns (n: MapObj)
      requires this in S
      modifies this
      ensures fresh(n)
      ensures Heap(S + {n}) == old(Heap(S))[n := map[]][this := old(entries)[key := Obj(n)]]
    {
      n := Make(S);
      Store(key, Obj(n), S + {n});
    }
  }

  /** A Go interface{} holding decoded JSON. */
  datatype Value = Leaf(atom: Atom) | Arr(elems: seq<Value>) | Obj(m: MapObj)

  /** The contents of a set of map objects at one moment. */
  type Store = map<MapObj, map<string, Value>>

  ghost function Heap(S: set<MapObj>): Store
    reads S
  {
    map m | m in S :: m.entries
  }

  /** A tree that remembers which map object stands at each of its map nodes. Being a finite value,
      it can only describe an acyclic heap. */
  datatype Shape = SLeaf(atom: Atom) | SArr(elems: seq<Shape>) | SMap(at: MapObj, kids: map<string, Shape>)

  ghost function Erase(s: Shape): Tree {
    match s
    case SLeaf(a) => TLeaf(a)
    case SArr(es) => TArr(seq(|es|, i requires 0 <= i < |es| => Erase(es[i])))
    case SMap(_, kids) => TMap(map k | k in kids :: Erase(kids[k]))
  }

  ghost function Refs(s: Shape): set<MapObj> {
    match s
    case SLeaf(_) => {}
    case SArr(es) => set i, m | 0 <= i < |es| && m in Refs(es[i]) :: m
    case SMap(at, kids) => {at} + set k, m | k in kids && m in Refs(kids[k]) :: m
  }

  /** v, read in store H, is described by s. */
  ghost predicate Represents(H: Store, v: Value, s: Shape)
    decreases s
  {
    match s
    case SLeaf(a) => v == Leaf(a)
    case SArr(es) => v.Arr? && |v.elems| == |es| && forall i :: 0 <= i < |es| ==> Represents(H, v.elems[i], es[i])
    case SMap(at, kids) =>
      v == Obj(at) && at in H && H[at].Keys == kids.Keys
      && forall k :: k in kids ==> Represents(H, H[at][k], kids[k])
  }

  /** No map object stands at two places: what JSON decoding yields. */
  ghost predicate Tidy(s: Shape) {
    match s
    case SLeaf(_) => true
    case SArr(es) =>
      (forall i :: 0 <= i < |es| ==> Tidy(es[i]))
      && forall i, j :: 0 <= i < j < |es| ==> Refs(es[i]) !! Refs(es[j])
    case SMap(at, kids) =>
      (forall k :: k in kids ==> Tidy(kids[k]) && at !in Refs(kids[k]))
      && forall k, l :: k in kids && l in kids && k != l ==> Refs(kids[k]) !! Refs(kids[l])
  }

  ghost function ShapeAt(s: Shape, p: Path): Shape {
    if p == [] then s
    else if s.SMap? && p[0] in s.kids then ShapeAt(s.kids[p[0]], p[1..])
    else SLeaf(Null)
  }

  /** What following the keys of GetPath finds. */
  ghost function Walk(H: Store, v: Value, p: Path): Value
    decreases p
  {
    if p == [] then v
    else if v.Obj? && v.m in H && p[0] in H[v.m] then Walk(H, H[v.m][p[0]], p[1..])
    else Leaf(Null)
  }

  /** H holds every map the chase of p opens. */
  ghost predicate Reaches(H: Store, v: Value, p: Path)
    decreases p
  {
    p != [] && v.Obj? ==> v.m in H && (p[0] in H[v.m] ==> Reaches(H, H[v.m][p[0]], p[1..]))
  }

  /** How many keys of p lead through maps before a SetPath writes: it writes into the map reached by then. */
  ghost function Depth(s: Shape, p: Path): (d: nat)
    requires p != [] && s.SMap?
    ensures d < |p| && ShapeAt(s, p[..d]).SMap?
  {
    if |p| > 1 && p[0] in s.kids && s.kids[p[0]].SMap? then
      var d := Depth(s.kids[p[0]], p[1..]);
      assert p[..d + 1][0] == p[0] && p[..d + 1][1..] == p[1..][..d];
      d + 1
    else
      assert p[..0] == [];
      0
  }

  /** The one existing map a SetPath through p writes into; none when the root itself is replaced. */
  ghost function Written(s: Shape, p: Path): set<MapObj> {
    if p == [] || !s.SMap? then {} else {ShapeAt(s, p[..Depth(s, p)]).at}
  }

  /** The map found at p stands nowhere else. */
  ghost predicate Alone(s: Shape, p: Path)
    requires ShapeAt(s, p).SMap?
    decreases p
  {
    p == [] || ((forall l :: l in s.kids && l != p[0] ==> ShapeAt(s, p).at !in Refs(s.kids[l]))
                && Alone(s.kids[p[0]], p[1..]))
  }

  /** The map a SetPath through p writes into stands nowhere else. */
  ghost predicate Exclusive(s: Shape, p: Path) {
    p == [] || !s.SMap? || Alone(s, p[..Depth(s, p)])
  }

  // ---------------------------------------------------------------- reading

  lemma {:induction false} RefsInStore(H: Store, v: Value, s: Shape)
    requires Represents(H, v, s)
    ensures Refs(s) <= H.Keys
    decreases s
  {
    match s
    case SLeaf(_) =>
    case SArr(es) =>
      forall i | 0 <= i < |es| { RefsInStore(H, v.elems[i], es[i]); }
    case SMap(at, kids) =>
      forall k | k in kids { RefsInStore(H, H[at][k], kids[k]); }
  }

  /** A description survives any change to maps it does not mention. */
  lemma {:induction false} Frame(H: Store, H': Store, v: Value, s: Shape)
    requires Represents(H, v, s)
    requires forall m :: m in Refs(s) && m in H ==> m in H' && H'[m] == H[m]
    ensures Represents(H', v, s)
    decreases s
  {
    match s
    case SLeaf(_) =>
    case SArr(es) =>
      forall i | 0 <= i < |es| ensures Represents(H', v.elems[i], es[i]) {
        Frame(H, H', v.elems[i], es[i]);
      }
    case SMap(at, kids) =>
      forall k | k in kids ensures Represents(H', H[at][k], kids[k]) {
        Frame(H, H', H[at][k], kids[k]);
      }
  }

  lemma {:induction false} WalkFindsShape(H: Store, v: Value, s: Shape, p: Path)
    requires Represents(H, v, s)
    ensures Represents(H, Walk(H, v, p), ShapeAt(s, p))
    decreases p
  {
    if p != [] && s.SMap? && p[0] in s.kids {
      WalkFindsShape(H, H[s.at][p[0]], s.kids[p[0]], p[1..]);
    }
  }

  /** In a described heap every path can be chased, and reads what the tree reads. */
  lemma {:induction false} WalkReadsTree(H: Store, v: Value, s: Shape, p: Path)
    requires Represents(H, v, s)
    ensures Reaches(H, v, p) && Represents(H, Walk(H, v, p), ShapeAt(s, p))
    ensures Erase(ShapeAt(s, p)) == Lookup(Erase(s), p)
    decreases p
  {
    WalkFindsShape(H, v, s, p);
    EraseReads(s, p);
    if p != [] && s.SMap? && p[0] in s.kids {
      WalkReadsTree(H, H[s.at][p[0]], s.kids[p[0]], p[1..]);
    }
  }

  lemma {:induction false} EraseReads(s: Shape, p: Path)
    ensures Erase(ShapeAt(s, p)) == Lookup(Erase(s), p)
  {
    if p != [] && s.SMap? && p[0] in s.kids {
      EraseReads(s.kids[p[0]], p[1..]);
    }
  }

  /** The tree of a described value shows what the value is: the atom, the elements in order, the keys of the map. */
  lemma TreeSpelledOut(H: Store, v: Value, s: Shape)
    requires Represents(H, v, s)
    ensures forall a :: Erase(s) == TLeaf(a) <==> v == Leaf(a)
    ensures Erase(s).TArr? <==> v.Arr?
    ensures v.Arr? ==> s.SArr? && |Erase(s).elems| == |v.elems|
                       && forall i :: 0 <= i < |v.elems| ==> Erase(s).elems[i] == Erase(s.elems[i])
                                                             && Represents(H, v.elems[i], s.elems[i])
    ensures Erase(s).TMap? <==> v.Obj?
    ensures v.Obj? ==> s.SMap? && v.m in H && Erase(s).kids.Keys == H[v.m].Keys
                       && forall k :: k in H[v.m] ==> Erase(s).kids[k] == Erase(s.kids[k])
                                                      && Represents(H, H[v.m][k], s.kids[k])
  {}

  lemma {:induction false} ShapeRefsBelow(s: Shape, p: Path)
    ensures Refs(ShapeAt(s, p)) <= Refs(s)
  {
    if p != [] && s.SMap? && p[0] in s.kids {
      ShapeRefsBelow(s.kids[p[0]], p[1..]);
    }
  }

  /** One heap has at most one description. */
  lemma {:induction false} ShapeUnique(H: Store, v: Value, s: Shape, s': Shape)
    requires Represents(H, v, s) && Represents(H, v, s')
    ensures s == s'
    decreases s
  {
    match s
    case SLeaf(_) =>
    case SArr(es) =>
      forall i | 0 <= i < |es| ensures es[i] == s'.elems[i] {
        ShapeUnique(H, v.elems[i], es[i], s'.elems[i]);
      }
    case SMap(at, kids) =>
      forall k | k in kids ensures kids[k] == s'.kids[k] {
        ShapeUnique(H, H[at][k], kids[k], s'.kids[k]);
      }
  }

  lemma {:induction false} ShapeOf(H: Store, v: Value, s: Shape, w: MapObj) returns (sub: Shape)
    requires Represents(H, v, s) && w in Refs(s)
    ensures Represents(H, Obj(w), sub) && (sub == s || sub < s)
    decreases s
  {
    match s
    case SLeaf(_) =>
    case SArr(es) =>
      var i :| 0 <= i < |es| && w in Refs(es[i]);
      sub := ShapeOf(H, v.elems[i], es[i], w);
    case SMap(at, kids) =>
      if w == at {
        sub := s;
      } else {
        var k :| k in kids && w in Refs(kids[k]);
        sub := ShapeOf(H, H[at][k], kids[k], w);
      }
  }

  /** A described map never occurs below itself. */
  lemma NoCycle(H: Store, s: Shape, k: string)
    requires s.SMap? && Represents(H, Obj(s.at), s) && k in s.kids
    ensures s.at !in Refs(s.kids[k])
  {
    if s.at in Refs(s.kids[k]) {
      var sub := ShapeOf(H, H[s.at][k], s.kids[k], s.at);
      ShapeUnique(H, Obj(s.at), sub, s);
      assert false;
    }
  }

  lemma {:induction false} TidyAt(s: Shape, p: Path)
    requires Tidy(s)
    ensures Tidy(ShapeAt(s, p))
  {
    if p != [] && s.SMap? && p[0] in s.kids {
      TidyAt(s.kids[p[0]], p[1..]);
    }
  }

  lemma {:induction false} AtIsBelow(s: Shape, p: Path)
    requires ShapeAt(s, p).SMap?
    ensures s.SMap? && ShapeAt(s, p).at in Refs(s)
    ensures p != [] ==> p[0] in s.kids && ShapeAt(s, p).at in Refs(s.kids[p[0]])
    decreases p
  {
    if p != [] {
      AtIsBelow(s.kids[p[0]], p[1..]);
    }
  }

  /** On the way to the map at p that map is not met before. */
  lemma NotOnTheWay(H: Store, v: Value, s: Shape, p: Path)
    requires Represents(H, v, s) && ShapeAt(s, p).SMap? && p != []
    ensures s.SMap? && p[0] in s.kids && s.at != ShapeAt(s, p).at
  {
    AtIsBelow(s, p);
    NoCycle(H, s, p[0]);
  }

  lemma {:induction false} TidyIsAlone(s: Shape, p: Path)
    requires Tidy(s) && ShapeAt(s, p).SMap?
    ensures Alone(s, p)
    decreases p
  {
    if p != [] {
      AtIsBelow(s, p);
      TidyIsAlone(s.kids[p[0]], p[1..]);
    }
  }

  lemma TidyIsExclusive(s: Shape, p: Path)
    requires Tidy(s)
    ensures Exclusive(s, p)
  {
    if p != [] && s.SMap? {
      TidyIsAlone(s, p[..Depth(s, p)]);
    }
  }

  /** The depth is known where the next key is the last one or leads to no map. */
  lemma {:induction false} DepthIs(s: Shape, p: Path, i: nat)
    requires i < |p| && ShapeAt(s, p[..i]).SMap?
    requires i + 1 == |p| || !ShapeAt(s, p[..i + 1]).SMap?
    ensures s.SMap? && Depth(s, p) == i
    decreases i
  {
    if i == 0 {
      assert p[..0] == [];
      if |p| > 1 {
        assert p[..1][0] == p[0] && p[..1][1..] == [];
      }
    } else {
      assert p[..i][0] == p[0] && p[..i][1..] == p[1..][..i - 1];
      assert i + 1 < |p| ==> p[..i + 1][0] == p[0] && p[..i + 1][1..] == p[1..][..i];
      AtIsBelow(s, p[..i]);
      assert ShapeAt(s.kids[p[0]], p[1..][..i - 1]).SMap?;
      ShapeAtNeedsMap(s.kids[p[0]], p[1..][..i - 1]);
      DepthIs(s.kids[p[0]], p[1..], i - 1);
    }
  }

  lemma ShapeAtNeedsMap(s: Shape, p: Path)
    requires ShapeAt(s, p).SMap?
    ensures s.SMap?
  {
    AtIsBelow(s, p);
  }

  lemma {:induction false} ShapeAtSnoc(s: Shape, p: Path, k: string)
    requires ShapeAt(s, p).SMap?
    ensures ShapeAt(s, p + [k]) == if k in ShapeAt(s, p).kids then ShapeAt(s, p).kids[k] else SLeaf(Null)
    decreases p
  {
    var q := p + [k];
    if p == [] {
      assert q[0] == k && q[1..] == [];
    } else {
      assert q[0] == p[0] && q[1..] == p[1..] + [k];
      ShapeAtSnoc(s.kids[p[0]], p[1..], k);
    }
  }

  // ---------------------------------------------------------------- changing one map

  /** s with the kids of map w exchanged for kids', wherever w stands. */
  ghost function Everywhere(s: Shape, w: MapObj, kids': map<string, Shape>): Shape {
    match s
    case SLeaf(_) => s
    case SArr(es) => SArr(seq(|es|, i requires 0 <= i < |es| => Everywhere(es[i], w, kids')))
    case SMap(at, kids) =>
      if at == w then SMap(at, kids') else SMap(at, map k | k in kids :: Everywhere(kids[k], w, kids'))
  }

  /** What a change of w alone does to a described value. */
  lemma {:induction false} EverywhereRepresents(H: Store, H': Store, v: Value, s: Shape, w: MapObj,
                                                kids': map<string, Shape>)
    requires Represents(H, v, s) && Represents(H', Obj(w), SMap(w, kids'))
    requires forall r :: r in H && r != w ==> r in H' && H'[r] == H[r]
    ensures Represents(H', v, Everywhere(s, w, kids'))
    decreases s
  {
    match s
    case SLeaf(_) =>
    case SArr(es) =>
      forall i | 0 <= i < |es| ensures Represents(H', v.elems[i], Everywhere(es[i], w, kids')) {
        EverywhereRepresents(H, H', v.elems[i], es[i], w, kids');
      }
    case SMap(at, kids) =>
      if at != w {
        forall k | k in kids ensures Represents(H', H[at][k], Everywhere(kids[k], w, kids')) {
          EverywhereRepresents(H, H', H[at][k], kids[k], w, kids');
        }
      }
  }

  lemma {:induction false} NowhereUnchanged(s: Shape, w: MapObj, kids': map<string, Shape>)
    requires w !in Refs(s)
    ensures Everywhere(s, w, kids') == s
  {
    match s
    case SLeaf(_) =>
    case SArr(es) =>
      forall i | 0 <= i < |es| ensures Everywhere(es[i], w, kids') == es[i] {
        NowhereUnchanged(es[i], w, kids');
      }
      assert Everywhere(s, w, kids').elems == es;
    case SMap(at, kids) =>
      forall k | k in kids ensures Everywhere(kids[k], w, kids') == kids[k] {
        NowhereUnchanged(kids[k], w, kids');
      }
      assert Everywhere(s, w, kids').kids == kids;
  }

  /** The changed value reads as before exactly when w is not in it or w itself reads as before. */
  lemma {:induction false} VisibleIff(H: Store, v: Value, s: Shape, w: Shape, kids': map<string, Shape>)
    requires Represents(H, v, s) && w.SMap? && Represents(H, Obj(w.at), w)
    ensures Erase(Everywhere(s, w.at, kids')) == Erase(s)
       <==> w.at !in Refs(s) || Erase(SMap(w.at, kids')) == Erase(w)
    decreases s
  {
    var s' := Everywhere(s, w.at, kids');
    match s
    case SLeaf(_) =>
    case SArr(es) =>
      forall i | 0 <= i < |es|
        ensures Erase(s'.elems[i]) == Erase(es[i]) <==> w.at !in Refs(es[i]) || Erase(SMap(w.at, kids')) == Erase(w)
      {
        VisibleIff(H, v.elems[i], es[i], w, kids');
      }
      ElemsErase(s, s');
    case SMap(at, kids) =>
      if at == w.at {
        ShapeUnique(H, v, s, w);
      } else {
        forall k | k in kids
          ensures Erase(s'.kids[k]) == Erase(kids[k])
             <==> w.at !in Refs(kids[k]) || Erase(SMap(w.at, kids')) == Erase(w)
        {
          VisibleIff(H, H[at][k], kids[k], w, kids');
        }
        KidsErase(s, s');
      }
  }

  lemma ElemsErase(s: Shape, t: Shape)
    requires s.SArr? && t.SArr? && |s.elems| == |t.elems|
    ensures Erase(s) == Erase(t) <==> forall i :: 0 <= i < |s.elems| ==> Erase(s.elems[i]) == Erase(t.elems[i])
  {
    if Erase(s) == Erase(t) {
      forall i | 0 <= i < |s.elems| ensures Erase(s.elems[i]) == Erase(t.elems[i]) {
        assert Erase(s).elems[i] == Erase(t).elems[i];
      }
    } else {
      assert Erase(s).elems != Erase(t).elems;
    }
  }

  lemma KidsErase(s: Shape, t: Shape)
    requires s.SMap? && t.SMap? && s.kids.Keys == t.kids.Keys
    ensures Erase(s) == Erase(t) <==> forall k :: k in s.kids ==> Erase(s.kids[k]) == Erase(t.kids[k])
  {
    if Erase(s) == Erase(t) {
      forall k | k in s.kids ensures Erase(s.kids[k]) == Erase(t.kids[k]) {
        assert Erase(s).kids[k] == Erase(t).kids[k];
      }
    } else {
      assert Erase(s).kids != Erase(t).kids;
    }
  }

  /** Changing the map found at p is the tree write at p exactly when it stands nowhere else or shows no change. */
  lemma {:induction false} EverywhereIsWriteIff(H: Store, v: Value, s: Shape, p: Path, kids': map<string, Shape>)
    requires Represents(H, v, s) && ShapeAt(s, p).SMap?
    ensures var w := ShapeAt(s, p);
            Erase(Everywhere(s, w.at, kids')) == SetAt(Erase(s), p, Erase(SMap(w.at, kids')))
            <==> Alone(s, p) || Erase(SMap(w.at, kids')) == Erase(w)
    decreases p
  {
    hide SetAt, Lookup;
    var w := ShapeAt(s, p);
    var x := Erase(SMap(w.at, kids'));
    if p == [] {
      SetAtTurn(Erase(s), p, x);
    } else {
      NotOnTheWay(H, v, s, p);
      var k := p[0];
      var s' := Everywhere(s, w.at, kids');
      EverywhereIsWriteIff(H, H[s.at][k], s.kids[k], p[1..], kids');
      WalkFindsShape(H, v, s, p);
      forall l | l in s.kids
        ensures Erase(s'.kids[l]) == Erase(s.kids[l]) <==> w.at !in Refs(s.kids[l]) || x == Erase(w)
      {
        VisibleIff(H, H[s.at][l], s.kids[l], w, kids');
      }
      SetAtTurn(Erase(s), p, x);
      WriteMatches(s, s', k, SetAt(Erase(s.kids[k]), p[1..], x));
    }
  }

  lemma SetAtTurn(t: Tree, p: Path, x: Tree)
    ensures SetAt(t, p, x) == if p == [] then x else TMap(KidsOf(t)[p[0] := SetAt(Below(t, p[0]), p[1..], x)])
  {}

  lemma WriteMatches(s: Shape, t: Shape, k: string, x: Tree)
    requires s.SMap? && t.SMap? && s.kids.Keys == t.kids.Keys && k in s.kids
    ensures Erase(t) == TMap(Erase(s).kids[k := x])
       <==> Erase(t.kids[k]) == x && forall l :: l in s.kids && l != k ==> Erase(t.kids[l]) == Erase(s.kids[l])
  {
    var e := Erase(s).kids[k := x];
    if Erase(t) == TMap(e) {
      forall l | l in s.kids ensures Erase(t.kids[l]) == e[l] {
        assert Erase(t).kids[l] == e[l];
      }
    } else {
      assert Erase(t).kids != e;
    }
  }

  // ---------------------------------------------------------------- one key of one map

  function WithKey(s: Shape, k: string, tx: Shape): Shape
    requires s.SMap?
  {
    SMap(s.at, s.kids[k := tx])
  }

  function WithoutKey(s: Shape, k: string): Shape
    requires s.SMap?
  {
    SMap(s.at, s.kids - {k})
  }

  /** A change to w leaves every kid of w as it was. */
  lemma KidsKeep(H: Store, H': Store, w: Shape)
    requires w.SMap? && Represents(H, Obj(w.at), w)
    requires forall r :: r in H && r != w.at ==> r in H' && H'[r] == H[r]
    ensures forall k :: k in w.kids ==> Represents(H', H[w.at][k], w.kids[k])
  {
    forall k | k in w.kids ensures Represents(H', H[w.at][k], w.kids[k]) {
      NoCycle(H, w, k);
      Frame(H, H', H[w.at][k], w.kids[k]);
    }
  }

  /** What a write of w's key k leads to, seen from the value v it was reached from along p. */
  ghost predicate KeyWrite(H: Store, H': Store, s: Shape, p: Path, k: string, x: Value)
    requires ShapeAt(s, p).SMap?
  {
    var w := ShapeAt(s, p).at;
    && w in H && w in H' && H'[w] == H[w][k := x]
    && forall r :: r in H && r != w ==> r in H' && H'[r] == H[r]
  }

  /** m[k] = x on the map m found at p. The heap stays described, and the root's tree takes the write at
      p + [k] exactly when m stands nowhere else or nothing changes. */
  lemma KeyWritten(H: Store, H': Store, v: Value, s: Shape, p: Path, k: string, x: Value, tx: Shape)
    returns (s': Shape)
    requires Represents(H, v, s) && ShapeAt(s, p).SMap? && KeyWrite(H, H', s, p, k, x)
    requires Represents(H', x, tx)
    ensures Represents(H', v, s')
    ensures var t := SetAt(Erase(s), p + [k], Erase(tx)); Erase(s') == t <==> Alone(s, p) || t == Erase(s)
    ensures Tidy(s) && Tidy(tx) && Refs(s) !! Refs(tx) ==> Tidy(s')
  {
    var w' := WithKey(ShapeAt(s, p), k, tx);
    s' := Everywhere(s, w'.at, w'.kids);
    KeyDescribed(H, H', v, s, p, k, x, tx);
    hide Represents, Tidy, SetAt, Alone, Everywhere, ShapeAt, Refs;
    EverywhereIsWriteIff(H, v, s, p, w'.kids);
    KeyWriteErases(s, p, k, tx);
    if Tidy(s) && Tidy(tx) && Refs(s) !! Refs(tx) {
      WithKeyTidy(s, p, k, tx);
      EverywhereTidy(H, v, s, p, w'.kids);
    }
  }

  lemma KeyDescribed(H: Store, H': Store, v: Value, s: Shape, p: Path, k: string, x: Value, tx: Shape)
    requires Represents(H, v, s) && ShapeAt(s, p).SMap? && KeyWrite(H, H', s, p, k, x)
    requires Represents(H', x, tx)
    ensures var w' := WithKey(ShapeAt(s, p), k, tx); Represents(H', v, Everywhere(s, w'.at, w'.kids))
  {
    var w := ShapeAt(s, p);
    var kids' := WithKey(w, k, tx).kids;
    WalkFindsShape(H, v, s, p);
    KidsKeep(H, H', w);
    assert Represents(H', Obj(w.at), SMap(w.at, kids'));
    EverywhereRepresents(H, H', v, s, w.at, kids');
  }

  lemma WithKeyTidy(s: Shape, p: Path, k: string, tx: Shape)
    requires Tidy(s) && ShapeAt(s, p).SMap? && Tidy(tx) && Refs(s) !! Refs(tx)
    ensures var w' := WithKey(ShapeAt(s, p), k, tx); Tidy(w') && Refs(w') * Refs(s) <= Refs(ShapeAt(s, p))
  {
    TidyAt(s, p);
    ShapeRefsBelow(s, p);
    OneKeyTidy(ShapeAt(s, p), k, tx);
  }

  lemma OneKeyTidy(w: Shape, k: string, tx: Shape)
    requires w.SMap? && Tidy(w) && Tidy(tx) && Refs(w) !! Refs(tx)
    ensures Tidy(WithKey(w, k, tx)) && Refs(WithKey(w, k, tx)) <= Refs(w) + Refs(tx)
  {
    assert forall l :: l in w.kids ==> Refs(w.kids[l]) <= Refs(w);
  }

  lemma KeyWriteErases(s: Shape, p: Path, k: string, tx: Shape)
    requires ShapeAt(s, p).SMap?
    ensures var w' := WithKey(ShapeAt(s, p), k, tx);
            && SetAt(Erase(s), p, Erase(w')) == SetAt(Erase(s), p + [k], Erase(tx))
            && (Erase(w') == Erase(ShapeAt(s, p)) <==> SetAt(Erase(s), p + [k], Erase(tx)) == Erase(s))
  {
    hide SetAt, ShapeAt, Lookup;
    var w := ShapeAt(s, p);
    EraseReads(s, p);
    SetKeyIsSetAt(Erase(s), p, k, Erase(tx));
    assert Erase(WithKey(w, k, tx)).kids == Erase(w).kids[k := Erase(tx)];
    SameWriteIff(Erase(s), p, Erase(WithKey(w, k, tx)));
  }

  /** delete(m, k) on the map m found at p, likewise. */
  lemma KeyDeleted(H: Store, H': Store, v: Value, s: Shape, p: Path, k: string) returns (s': Shape)
    requires Represents(H, v, s) && ShapeAt(s, p).SMap? && ShapeAt(s, p).at in H
    requires H' == var w := ShapeAt(s, p).at; H[w := H[w] - {k}]
    ensures Represents(H', v, s')
    ensures var t := DelAt(Erase(s), p + [k]); Erase(s') == t <==> Alone(s, p) || t == Erase(s)
    ensures Tidy(s) ==> Tidy(s')
  {
    var w' := WithoutKey(ShapeAt(s, p), k);
    s' := Everywhere(s, w'.at, w'.kids);
    RestDescribed(H, H', v, s, p, k);
    hide Represents, Tidy, DelAt, Alone, Everywhere, ShapeAt, Refs;
    EverywhereIsWriteIff(H, v, s, p, w'.kids);
    KeyDeleteErases(s, p, k);
    if Tidy(s) {
      WithoutKeyTidy(s, p, k);
      EverywhereTidy(H, v, s, p, w'.kids);
    }
  }

  lemma RestDescribed(H: Store, H': Store, v: Value, s: Shape, p: Path, k: string)
    requires Represents(H, v, s) && ShapeAt(s, p).SMap? && ShapeAt(s, p).at in H
    requires H' == var w := ShapeAt(s, p).at; H[w := H[w] - {k}]
    ensures var w' := WithoutKey(ShapeAt(s, p), k); Represents(H', v, Everywhere(s, w'.at, w'.kids))
  {
    var w := ShapeAt(s, p);
    var kids' := WithoutKey(w, k).kids;
    WalkFindsShape(H, v, s, p);
    KidsKeep(H, H', w);
    assert Represents(H', Obj(w.at), SMap(w.at, kids'));
    EverywhereRepresents(H, H', v, s, w.at, kids');
  }

  lemma WithoutKeyTidy(s: Shape, p: Path, k: string)
    requires Tidy(s) && ShapeAt(s, p).SMap?
    ensures var w' := WithoutKey(ShapeAt(s, p), k); Tidy(w') && Refs(w') <= Refs(ShapeAt(s, p))
  {
    TidyAt(s, p);
  }

  lemma KeyDeleteErases(s: Shape, p: Path, k: string)
    requires ShapeAt(s, p).SMap?
    ensures var w' := WithoutKey(ShapeAt(s, p), k);
            && SetAt(Erase(s), p, Erase(w')) == DelAt(Erase(s), p + [k])
            && (Erase(w') == Erase(ShapeAt(s, p)) <==> DelAt(Erase(s), p + [k]) == Erase(s))
  {
    hide SetAt, DelAt, ShapeAt, Lookup;
    var w := ShapeAt(s, p);
    EraseReads(s, p);
    DeleteKeyIsDelAt(Erase(s), p, k);
    assert Erase(WithoutKey(w, k)).kids == Erase(w).kids - {k};
    SameWriteIff(Erase(s), p, Erase(WithoutKey(w, k)));
  }

  lemma {:induction false} EverywhereRefs(s: Shape, w: MapObj, kids': map<string, Shape>)
    ensures Refs(Everywhere(s, w, kids')) <= Refs(s) + Refs(SMap(w, kids'))
  {
    match s
    case SLeaf(_) =>
    case SArr(es) =>
      forall i | 0 <= i < |es| { EverywhereRefs(es[i], w, kids'); }
    case SMap(at, kids) =>
      forall k | k in kids { EverywhereRefs(kids[k], w, kids'); }
  }

  /** A tidy value stays tidy when the map found at p takes kids that are tidy and new to the rest. */
  lemma {:induction false} EverywhereTidy(H: Store, v: Value, s: Shape, p: Path, kids': map<string, Shape>)
    requires Represents(H, v, s) && Tidy(s) && ShapeAt(s, p).SMap?
    requires var w := ShapeAt(s, p);
             Tidy(SMap(w.at, kids')) && Refs(SMap(w.at, kids')) * Refs(s) <= Refs(w)
    ensures Tidy(Everywhere(s, ShapeAt(s, p).at, kids'))
    decreases p
  {
    if p != [] {
      hide Everywhere, Refs, Tidy, Represents;
      var w, k, kids := ShapeAt(s, p), p[0], s.kids;
      NotOnTheWay(H, v, s, p);
      AtIsBelow(s, p);
      KidFacts(H, v, s, k);
      ShapeRefsBelow(kids[k], p[1..]);
      EverywhereTidy(H, H[s.at][k], kids[k], p[1..], kids');
      EverywhereRefs(kids[k], w.at, kids');
      ExchangeKid(s, k, Everywhere(kids[k], w.at, kids'));
      UnderOneKid(s, k, w.at, kids');
    }
  }

  /** A change of a map that stands under one kid only. */
  lemma UnderOneKid(s: Shape, k: string, w: MapObj, kids': map<string, Shape>)
    requires s.SMap? && k in s.kids && s.at != w && forall l :: l in s.kids && l != k ==> w !in Refs(s.kids[l])
    ensures Everywhere(s, w, kids') == SMap(s.at, s.kids[k := Everywhere(s.kids[k], w, kids')])
  {
    hide Refs;
    forall l | l in s.kids && l != k ensures Everywhere(s.kids[l], w, kids') == s.kids[l] {
      NowhereUnchanged(s.kids[l], w, kids');
    }
    assert Everywhere(s, w, kids').kids == s.kids[k := Everywhere(s.kids[k], w, kids')];
  }

  lemma KidFacts(H: Store, v: Value, s: Shape, k: string)
    requires Represents(H, v, s) && Tidy(s) && s.SMap? && k in s.kids
    ensures s.at in H && k in H[s.at] && Represents(H, H[s.at][k], s.kids[k]) && Tidy(s.kids[k])
    ensures s.at in Refs(s) && forall l :: l in s.kids ==> Refs(s.kids[l]) <= Refs(s) && s.at !in Refs(s.kids[l])
    ensures forall l :: l in s.kids && l != k ==> Refs(s.kids[l]) !! Refs(s.kids[k])
  {}

  /** One kid of a tidy map exchanged for a tidy one that shares nothing with the rest. */
  lemma ExchangeKid(s: Shape, k: string, t: Shape)
    requires s.SMap? && k in s.kids && Tidy(s) && Tidy(t) && s.at !in Refs(t)
    requires forall l :: l in s.kids && l != k ==> Refs(s.kids[l]) !! Refs(t)
    ensures Tidy(SMap(s.at, s.kids[k := t]))
  {}

  // ---------------------------------------------------------------- values that lead back to the written map

  /** A value that led to w before writes to w and to other unmentioned maps still leads to w. */
  lemma {:induction false} StillLeadsTo(H: Store, H': Store, x: Value, s: Shape, s': Shape, w: MapObj)
    requires Represents(H, x, s) && w in Refs(s) && Represents(H', x, s')
    requires forall m :: m in Refs(s) && m in H && m != w ==> m in H' && H'[m] == H[m]
    ensures w in Refs(s')
    decreases s
  {
    match s
    case SLeaf(_) =>
    case SArr(es) =>
      var i :| 0 <= i < |es| && w in Refs(es[i]);
      StillLeadsTo(H, H', x.elems[i], es[i], s'.elems[i], w);
    case SMap(at, kids) =>
      if w != at {
        var k :| k in kids && w in Refs(kids[k]);
        StillLeadsTo(H, H', H[at][k], kids[k], s'.kids[k], w);
      }
  }

  lemma {:induction false} WalkThrough(H: Store, v: Value, p: Path, q: Path)
    ensures Walk(H, v, p + q) == Walk(H, Walk(H, v, p), q)
    decreases p
  {
    if p == [] {
      assert p + q == q;
    } else {
      assert (p + q)[0] == p[0] && (p + q)[1..] == p[1..] + q;
      if v.Obj? && v.m in H && p[0] in H[v.m] {
        WalkThrough(H, H[v.m][p[0]], p[1..], q);
      } else {
        WalkNull(H, q);
      }
    }
  }

  lemma WalkNull(H: Store, p: Path)
    ensures Walk(H, Leaf(Null), p) == Leaf(Null) && Reaches(H, Leaf(Null), p)
  {}

  /** A write at the map found at p leaves the way to it as it was. */
  lemma {:induction false} WalkUnmoved(H: Store, H': Store, v: Value, s: Shape, p: Path)
    requires Represents(H, v, s) && ShapeAt(s, p).SMap?
    requires forall r :: r in H && r != ShapeAt(s, p).at ==> r in H' && H'[r] == H[r]
    ensures Walk(H', v, p) == Obj(ShapeAt(s, p).at)
    decreases p
  {
    if p != [] {
      NotOnTheWay(H, v, s, p);
      WalkUnmoved(H, H', H[s.at][p[0]], s.kids[p[0]], p[1..]);
    }
  }

  /** The written value itself, not a copy, is found where it was written. */
  lemma WrittenIsFound(H: Store, H': Store, v: Value, s: Shape, p: Path, k: string, x: Value)
    requires Represents(H, v, s) && ShapeAt(s, p).SMap? && KeyWrite(H, H', s, p, k, x)
    ensures Walk(H', v, p) == Obj(ShapeAt(s, p).at) && Walk(H', v, p + [k]) == x
  {
    WalkUnmoved(H, H', v, s, p);
    WalkThrough(H', v, p, [k]);
    assert [k][1..] == [];
    assert Walk(H', x, []) == x;
  }

  /** No tree describes a heap in which a value found below a map leads back to that map. */
  lemma LeadingBackIsCyclic(H: Store, H': Store, v: Value, z: Shape, p: Path, q: Path, w: MapObj, x: Value, sx: Shape)
    requires q != [] && Walk(H', v, p) == Obj(w) && Walk(H', v, p + q) == x
    requires Represents(H, x, sx) && w in Refs(sx)
    requires forall m :: m in Refs(sx) && m in H && m != w ==> m in H' && H'[m] == H[m]
    ensures !Represents(H', v, z)
  {
    if Represents(H', v, z) {
      WalkFindsShape(H', v, z, p);
      var sub := ShapeAt(z, p);
      WalkThrough(H', v, p, q);
      WalkFindsShape(H', Obj(w), sub, q);
      StillLeadsTo(H, H', x, sx, ShapeAt(sub, q), w);
      ShapeRefsUnderKid(sub, q);
      NoCycle(H', sub, q[0]);
    }
  }

  lemma ShapeRefsUnderKid(s: Shape, q: Path)
    requires s.SMap? && q != []
    ensures q[0] in s.kids ==> Refs(ShapeAt(s, q)) <= Refs(s.kids[q[0]])
    ensures q[0] !in s.kids ==> Refs(ShapeAt(s, q)) == {}
  {
    if q[0] in s.kids {
      ShapeRefsBelow(s.kids[q[0]], q[1..]);
    }
  }

  // ---------------------------------------------------------------- freshly built chains

  /** The value that leads into a chain of maps ending in x. */
  function Head(ns: seq<MapObj>, x: Value): Value {
    if ns == [] then x else Obj(ns[0])
  }

  /** The maps ns hang under one another by keys, with x under the last key. */
  ghost predicate Linked(H: Store, ns: seq<MapObj>, keys: Path, x: Value) {
    && |ns| == |keys|
    && (ns != [] ==> ns[0] in H && H[ns[0]] == map[keys[0] := Head(ns[1..], x)] && Linked(H, ns[1..], keys[1..], x))
  }

  lemma {:induction false} LinkedKeeps(H: Store, H': Store, ns: seq<MapObj>, keys: Path, x: Value)
    requires Linked(H, ns, keys, x)
    requires forall j :: 0 <= j < |ns| && ns[j] in H ==> ns[j] in H' && H'[ns[j]] == H[ns[j]]
    ensures Linked(H', ns, keys, x)
    decreases |ns|
  {
    if ns != [] {
      assert forall j :: 0 <= j < |ns[1..]| ==> ns[1..][j] == ns[j + 1];
      LinkedKeeps(H, H', ns[1..], keys[1..], x);
    }
  }

  /** A map hung under the end of a chain lengthens it. */
  lemma {:induction false} LinkedGrows(H: Store, ns: seq<MapObj>, keys: Path, n: MapObj, k: string, x: Value)
    requires Linked(H, ns, keys, Obj(n)) && n in H && H[n] == map[k := x]
    ensures Linked(H, ns + [n], keys + [k], x)
    decreases |ns|
  {
    if ns == [] {
      assert ns + [n] == [n] && keys + [k] == [k] && [n][1..] == [] && [k][1..] == [];
    } else {
      assert (ns + [n])[1..] == ns[1..] + [n] && (keys + [k])[1..] == keys[1..] + [k];
      LinkedGrows(H, ns[1..], keys[1..], n, k, x);
    }
  }

  ghost function Nested(ns: seq<MapObj>, keys: Path, sx: Shape): Shape
    requires |ns| == |keys|
  {
    if ns == [] then sx else SMap(ns[0], map[keys[0] := Nested(ns[1..], keys[1..], sx)])
  }

  ghost predicate NoneTwice(ns: seq<MapObj>) {
    forall i, j :: 0 <= i < j < |ns| ==> ns[i] != ns[j]
  }

  /** A chain is a write into an empty map. */
  lemma {:induction false} ChainDescribed(H: Store, ns: seq<MapObj>, keys: Path, x: Value, sx: Shape)
    requires Linked(H, ns, keys, x) && Represents(H, x, sx)
    ensures Represents(H, Head(ns, x), Nested(ns, keys, sx))
    ensures Erase(Nested(ns, keys, sx)) == SetAt(TMap(map[]), keys, Erase(sx))
    decreases |ns|
  {
    if ns != [] {
      var t := Nested(ns[1..], keys[1..], sx);
      ChainDescribed(H, ns[1..], keys[1..], x, sx);
      assert Below(TMap(map[]), keys[0]) == TMap(map[]);
      assert Erase(Nested(ns, keys, sx)).kids == map[keys[0] := Erase(t)];
    }
  }

  lemma {:induction false} ChainWalks(H: Store, ns: seq<MapObj>, keys: Path, x: Value)
    requires Linked(H, ns, keys, x)
    ensures |ns| == |keys| && Walk(H, Head(ns, x), keys) == x
    decreases |ns|
  {
    if ns != [] {
      ChainWalks(H, ns[1..], keys[1..], x);
    }
  }

  lemma {:induction false} ChainTidy(ns: seq<MapObj>, keys: Path, sx: Shape)
    requires |ns| == |keys| && NoneTwice(ns) && Tidy(sx) && forall j :: 0 <= j < |ns| ==> ns[j] !in Refs(sx)
    ensures Tidy(Nested(ns, keys, sx))
    ensures forall m :: m in Refs(Nested(ns, keys, sx)) ==> m in ns || m in Refs(sx)
    decreases |ns|
  {
    if ns != [] {
      var rest := ns[1..];
      assert forall j :: 0 <= j < |rest| ==> rest[j] == ns[j + 1];
      ChainTidy(rest, keys[1..], sx);
      assert ns[0] !in rest;
    }
  }
}
