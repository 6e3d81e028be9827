/** A clone and everything reachable from it without crossing a pin is new memory
    that can itself be cloned, and no write outside that memory can be seen
    through it. */
module Separation {
  import opened Values
  import opened Cloning
  import opened Reproduction

  ghost function NewAddrs(n: nat, m: nat): (addrs: set<Addr>)
    ensures forall a: Addr :: a in addrs <==> n <= a < m
    decreases m
  {
    if m <= n then {} else NewAddrs(n, m - 1) + {m - 1}
  }

  // ---------- the clone keeps types ----------

  lemma {:induction false} RenamedKeepsType(origin: Origins, pins: Pins, v: Value, w: Value)
    requires Renamed(origin, pins, v, w)
    ensures TypeOf(w) == TypeOf(v)
    ensures WellTyped(v) ==> WellTyped(w)
    ensures Comparable(v) ==> Comparable(w)
  {
    match v
    case Struct(_, fs) =>
      forall i | 0 <= i < |fs|
        ensures TypeOf(w.fields[i]) == TypeOf(fs[i])
        ensures WellTyped(fs[i]) ==> WellTyped(w.fields[i])
        ensures Comparable(fs[i]) ==> Comparable(w.fields[i])
      {
        RenamedKeepsType(origin, pins, fs[i], w.fields[i]);
      }
      assert TypeOf(w).fields == TypeOf(v).fields;
    case Array(_, es) =>
      forall i | 0 <= i < |es|
        ensures TypeOf(w.elems[i]) == TypeOf(es[i])
        ensures WellTyped(es[i]) ==> WellTyped(w.elems[i])
        ensures Comparable(es[i]) ==> Comparable(w.elems[i])
      {
        RenamedKeepsType(origin, pins, es[i], w.elems[i]);
      }
    case Iface(d) => RenamedKeepsType(origin, pins, d, w.dyn);
    case _ =>
  }

  /** The reference through which a clone reaches the new object o made for x. */
  function RefTo(x: Value, o: Addr): Value {
    match x
    case Ptr(t, _) => Ptr(t, o)
    case Slice(t, _, _, len, _) => Slice(t, o, 0, len, len)
    case Map(t, _) => Map(t, o)
    case _ => x
  }

  /** All references of a copied graph to its new objects. */
  ghost function NewRefs(origin: Origins): (refs: set<Value>) {
    set o | o in origin :: RefTo(origin[o], o)
  }

  lemma NewRefsAreNew(src: seq<Object>, dst: seq<Object>, origin: Origins, pins: Pins)
    requires CopiedGraph(src, dst, origin, pins)
    ensures forall x :: x in NewRefs(origin) ==> IsRef(x) && |src| <= x.a < |dst|
  {
    forall x | x in NewRefs(origin) ensures IsRef(x) && |src| <= x.a < |dst| {
      var o :| o in origin && x == RefTo(origin[o], o);
      assert Finished(src, dst, origin, pins, o);
    }
  }

  lemma RenamedIsHeld(
    src: seq<Object>, dst: seq<Object>, origin: Origins, pins: Pins, region: set<Value>, v: Value, w: Value)
    requires Mirrors(src, dst, origin, pins, v, w) && HeldIn(src, pins, region, v)
    ensures HeldIn(dst, pins, NewRefs(origin), w)
  {
    forall y | y in Refs(w)
      ensures y.a < |dst|
      ensures !Pinned(pins, y) ==> y in NewRefs(origin) && Resolves(dst, y)
    {
      RenamedRefs(origin, pins, v, w, y);
      if StandsFor(origin, pins, v, y) {
        assert Finished(src, dst, origin, pins, y.a);
        assert y == RefTo(origin[y.a], y.a);
      }
    }
  }

  /** What a new object holds is a renaming of what its origin shows. */
  lemma HeldHasSource(
    src: seq<Object>, dst: seq<Object>, origin: Origins, pins: Pins, o: Addr, w: Value) returns (v: Value)
    requires Finished(src, dst, origin, pins, o) && Holds(dst[o], w)
    ensures Shows(src, origin[o], v) && Renamed(origin, pins, v, w)
  {
    var x := origin[o];
    match x
    case Ptr(_, a) => v := src[a].v;
    case Slice(_, a, off, len, _) =>
      var i :| 0 <= i < len && dst[o].elems[i] == w;
      v := src[a].elems[off + i];
      assert src[a].elems[off..off + len][i] == v;
    case Map(_, a) =>
      var i :| 0 <= i < |dst[o].entries| && (w == dst[o].entries[i].key || w == dst[o].entries[i].val);
      v := if w == dst[o].entries[i].key then src[a].entries[i].key else src[a].entries[i].val;
  }

  lemma KeysStayProper(
    src: seq<Object>, dst: seq<Object>, origin: Origins, pins: Pins, region: set<Value>, o: Addr)
    requires CopiedGraph(src, dst, origin, pins) && Region(src, pins, region)
    requires o in origin && origin[o] in region && o < |dst|
    ensures ProperKeys(dst[o])
  {
    assert Finished(src, dst, origin, pins, o);
    if dst[o].Table? {
      var es, out := src[origin[o].a].entries, dst[o].entries;
      forall i | 0 <= i < |out| ensures Comparable(out[i].key) {
        RenamedKeepsType(origin, pins, es[i].key, out[i].key);
      }
      forall i, j | 0 <= i < j < |out| ensures out[i].key != out[j].key {
        if out[i].key == out[j].key {
          assert Shows(src, origin[o], es[i].key) && Shows(src, origin[o], es[j].key);
          RenamingKeepsKeysApart(origin, pins, |src|, es[i].key, es[j].key, out[i].key);
        }
      }
    }
  }

  lemma NewObjectIsHeld(
    src: seq<Object>, dst: seq<Object>, origin: Origins, pins: Pins, region: set<Value>, o: Addr)
    requires CopiedGraph(src, dst, origin, pins) && Region(src, pins, region) && OriginsIn(origin, pins, region)
    requires o in origin
    ensures o < |dst| && IsRef(RefTo(origin[o], o)) && Resolves(dst, RefTo(origin[o], o)) && ProperKeys(dst[o])
    ensures forall w :: Holds(dst[o], w) ==> WellTyped(w) && HeldIn(dst, pins, NewRefs(origin), w)
  {
    assert Finished(src, dst, origin, pins, o);
    forall w | Holds(dst[o], w) ensures WellTyped(w) && HeldIn(dst, pins, NewRefs(origin), w) {
      var v := HeldHasSource(src, dst, origin, pins, o, w);
      RenamedKeepsType(origin, pins, v, w);
      RenamedIsHeld(src, dst, origin, pins, region, v, w);
    }
    KeysStayProper(src, dst, origin, pins, region, o);
  }

  lemma ShownIsHeld(h: seq<Object>, x: Value, v: Value)
    requires Shows(h, x, v)
    ensures Holds(h[x.a], v)
  {
  }

  lemma NewRanks(src: seq<Object>, dst: seq<Object>, origin: Origins, pins: Pins, region: set<Value>)
    requires CopiedGraph(src, dst, origin, pins) && Region(src, pins, region) && OriginsIn(origin, pins, region)
    requires PointerFreeAcyclic(src, region)
    ensures PointerFreeAcyclic(dst, NewRefs(origin))
  {
    var rank: Value -> nat :| Ranked(src, region, rank);
    var rank': Value -> nat := y => if IsRef(y) && y.a in origin then rank(origin[y.a]) else 0;
    forall y, w | y in NewRefs(origin) && !y.Ptr? && Shows(dst, y, w) ensures Below(rank', w, rank'(y)) {
      var o :| o in origin && y == RefTo(origin[o], o);
      assert Finished(src, dst, origin, pins, o);
      ShownIsHeld(dst, y, w);
      var v := HeldHasSource(src, dst, origin, pins, o, w);
      assert Below(rank, v, rank(origin[o]));
      forall z | z in Refs(w) && !z.Ptr? ensures rank'(z) < rank'(y) {
        RenamedRefs(origin, pins, v, w, z);
      }
    }
    assert Ranked(dst, NewRefs(origin), rank');
  }

  lemma NewRegion(src: seq<Object>, dst: seq<Object>, origin: Origins, pins: Pins, region: set<Value>)
    requires CopiedGraph(src, dst, origin, pins) && Region(src, pins, region) && OriginsIn(origin, pins, region)
    ensures Region(dst, pins, NewRefs(origin))
  {
    forall y | y in NewRefs(origin)
      ensures IsRef(y) && Resolves(dst, y) && ProperKeys(dst[y.a])
      ensures forall w :: Shows(dst, y, w) ==> WellTyped(w) && HeldIn(dst, pins, NewRefs(origin), w)
    {
      var o :| o in origin && y == RefTo(origin[o], o);
      NewObjectIsHeld(src, dst, origin, pins, region, o);
      forall w | Shows(dst, y, w) ensures WellTyped(w) && HeldIn(dst, pins, NewRefs(origin), w) {
        ShownIsHeld(dst, y, w);
      }
    }
  }

  /** The clone's memory is new, closed under unpinned references, and fit to be cloned again. */
  lemma CloneIsCloneable(
    src: seq<Object>, dst: seq<Object>, origin: Origins, pins: Pins, region: set<Value>, v: Value, w: Value)
    requires Cloneable(src, pins, region, v) && Mirrors(src, dst, origin, pins, v, w) && OriginsIn(origin, pins, region)
    ensures Cloneable(dst, pins, NewRefs(origin), w)
    ensures TypeOf(w) == TypeOf(v)
  {
    RenamedKeepsType(origin, pins, v, w);
    RenamedIsHeld(src, dst, origin, pins, region, v, w);
    NewRanks(src, dst, origin, pins, region);
    NewRegion(src, dst, origin, pins, region);
  }

  // ---------- writes outside a region are invisible from inside ----------

  ghost predicate AgreeOn(region: set<Value>, h: seq<Object>, h': seq<Object>) {
    forall x :: x in region && IsRef(x) && x.a < |h| ==> x.a < |h'| && h'[x.a] == h[x.a]
  }

  lemma {:induction false} WalkUnchanged(
    h: seq<Object>, h': seq<Object>, pins: Pins, region: set<Value>, v: Value, p: Path)
    requires Region(h, pins, region) && HeldIn(h, pins, region, v) && AgreeOn(region, h, h')
    ensures Walk(h', pins, v, p) == Walk(h, pins, v, p)
    ensures Walk(h, pins, v, p).Some? ==> HeldIn(h, pins, region, Walk(h, pins, v, p).value)
    decreases p
  {
    if p == [] {
    } else {
      if IsRef(v) { assert v in Refs(v); }
      var x := Take(h, pins, v, p[0]);
      assert Take(h', pins, v, p[0]) == x;
      if x.Some? {
        StepStaysHeld(h, pins, region, v, p[0]);
        WalkUnchanged(h, h', pins, region, x.value, p[1..]);
      }
    }
  }

  lemma StepStaysHeld(h: seq<Object>, pins: Pins, region: set<Value>, v: Value, s: Step)
    requires Region(h, pins, region) && HeldIn(h, pins, region, v) && Take(h, pins, v, s).Some?
    ensures HeldIn(h, pins, region, Take(h, pins, v, s).value)
  {
    var x := Take(h, pins, v, s).value;
    if IsRef(v) {
      assert v in Refs(v);
      assert Shows(h, v, x);
    } else {
      assert Refs(x) <= Refs(v);
    }
  }

  /** A region-closed value looks the same in any heap that agrees on the region. */
  lemma RegionUnchanged(h: seq<Object>, h': seq<Object>, pins: Pins, region: set<Value>, v: Value)
    requires Region(h, pins, region) && HeldIn(h, pins, region, v) && AgreeOn(region, h, h')
    ensures SameShape(h, pins, v, h', pins, v)
  {
    forall p ensures Observe(h, pins, v, p) == Observe(h', pins, v, p) {
      WalkUnchanged(h, h', pins, region, v, p);
      var x := Walk(h, pins, v, p);
      if x.Some? && x.value.Map? { assert x.value in Refs(x.value); }
    }
    forall p, q ensures Aliased(h, pins, v, p, q) <==> Aliased(h', pins, v, p, q) {
      WalkUnchanged(h, h', pins, region, v, p);
      WalkUnchanged(h, h', pins, region, v, q);
    }
  }

  lemma RegionStable(h: seq<Object>, h': seq<Object>, pins: Pins, region: set<Value>)
    requires Region(h, pins, region) && AgreeOn(region, h, h') && |h| <= |h'|
    ensures Region(h', pins, region)
    ensures PointerFreeAcyclic(h, region) ==> PointerFreeAcyclic(h', region)
  {
    forall x, v | x in region && Shows(h', x, v) ensures Shows(h, x, v) && HeldIn(h', pins, region, v) {
      HeldStable(h, h', pins, region, v);
    }
    if PointerFreeAcyclic(h, region) {
      var rank: Value -> nat :| Ranked(h, region, rank);
      assert Ranked(h', region, rank);
    }
  }

  lemma HeldStable(h: seq<Object>, h': seq<Object>, pins: Pins, region: set<Value>, v: Value)
    requires HeldIn(h, pins, region, v) && AgreeOn(region, h, h') && |h| <= |h'|
    ensures HeldIn(h', pins, region, v)
  {
  }

  /** A copy that lives in a closed region is one in any heap that agrees on the region. */
  lemma CopyUnchanged(
    h: seq<Object>, pins: Pins, v: Value, h1: seq<Object>, h2: seq<Object>, pins': Pins, region: set<Value>, w: Value)
    requires Reproduces(h, pins, v, h1, pins', w)
    requires Region(h1, pins', region) && HeldIn(h1, pins', region, w) && AgreeOn(region, h1, h2)
    ensures Reproduces(h, pins, v, h2, pins', w)
  {
    RegionUnchanged(h1, h2, pins', region, w);
    forall p ensures Walk(h2, pins', w, p) == Walk(h1, pins', w, p) {
      WalkUnchanged(h1, h2, pins', region, w, p);
    }
    CopyStays(h, pins, v, h1, h2, pins', w);
  }

  /** Whatever is later written to memory that existed before the clone, the
      clone still is to its source what it was when it was taken. */
  lemma CloneSurvivesMutation(
    src: seq<Object>, dst: seq<Object>, origin: Origins, pins: Pins, region: set<Value>, v: Value, w: Value,
    later: seq<Object>)
    requires Safe(src, pins, region, v) && IsClone(src, dst, origin, pins, v, w) && OriginsIn(origin, pins, region)
    requires AgreeOn(NewRefs(origin), dst, later)
    ensures Reproduces(src, pins, v, later, pins, w)
  {
    CloneReproduces(src, dst, origin, pins, region, v, w);
    RenamedIsHeld(src, dst, origin, pins, region, v, w);
    NewRegion(src, dst, origin, pins, region);
    CopyUnchanged(src, pins, v, dst, later, pins, NewRefs(origin), w);
  }
}
