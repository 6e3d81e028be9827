/** What it means for one value to be a clone of another, and what a reader can
    conclude from it. Nothing here knows how the cloner works. */
module Cloning {
  import opened Options
  import opened Values
  import opened Ownership

  /** Pointers kept by identity: those whose address is a registered double and
      those of a pinned pointer type (`*Spy`, `PinnedReference`s). */
  datatype Pins = Pins(doubles: set<Addr>, types: set<TypeId>)

  const NO_PINS := Pins({}, {})

  predicate Pinned(pins: Pins, x: Value) {
    x.Ptr? && (x.a in pins.doubles || x.t in pins.types)
  }

  /** Where each new object comes from: the source reference it replaces. */
  type Origins = map<Addr, Value>

  ghost predicate Extends(small: Origins, big: Origins) {
    forall o :: o in small ==> o in big && big[o] == small[o]
  }

  /** w is v with every unpinned reference replaced by one to a new object that
      originates from it. A slice is cut to its visible part. */
  ghost predicate Renamed(origin: Origins, pins: Pins, v: Value, w: Value) {
    match v
    case Ptr(t, a) =>
      if Pinned(pins, v) then w == v
      else w.Ptr? && w.t == t && w.a in origin && origin[w.a] == v
    case Slice(t, a, off, len, cap) =>
      w.Slice? && w == Slice(t, w.a, 0, len, len) && w.a in origin && origin[w.a] == v
    case Map(t, a) => w.Map? && w.t == t && w.a in origin && origin[w.a] == v
    case Struct(t, fs) =>
      w.Struct? && w.t == t && |w.fields| == |fs| &&
      forall i :: 0 <= i < |fs| ==> Renamed(origin, pins, fs[i], w.fields[i])
    case Array(elem, es) =>
      w.Array? && w.elem == elem && |w.elems| == |es| &&
      forall i :: 0 <= i < |es| ==> Renamed(origin, pins, es[i], w.elems[i])
    case Iface(d) => w.Iface? && Renamed(origin, pins, d, w.dyn)
    case _ => w == v
  }

  ghost predicate Resolves(h: seq<Object>, x: Value)
    requires IsRef(x)
  {
    && x.a < |h|
    && match x
       case Ptr(_, a) => h[a].Cell?
       case Slice(_, a, off, len, cap) => h[a].Backing? && len <= cap && off + cap <= |h[a].elems|
       case Map(_, a) => h[a].Table?
       case _ => false
  }

  ghost predicate EntriesRenamed(origin: Origins, pins: Pins, es: seq<Entry>, out: seq<Entry>) {
    && |out| == |es|
    && forall k :: 0 <= k < |es| ==>
         Renamed(origin, pins, es[k].key, out[k].key) && Renamed(origin, pins, es[k].val, out[k].val)
  }

  /** The object holds what source reference x leads to, renamed. */
  ghost predicate CopyOf(src: seq<Object>, origin: Origins, pins: Pins, x: Value, copy: Object)
    requires IsRef(x) && Resolves(src, x)
  {
    match x
    case Ptr(_, a) => copy.Cell? && Renamed(origin, pins, src[a].v, copy.v)
    case Slice(_, a, off, len, _) =>
      copy.Backing? && |copy.elems| == len &&
      forall i :: 0 <= i < len ==> Renamed(origin, pins, src[a].elems[off + i], copy.elems[i])
    case Map(_, a) => copy.Table? && EntriesRenamed(origin, pins, src[a].entries, copy.entries)
  }

  /** New object o is a complete copy of its origin. */
  ghost predicate Finished(src: seq<Object>, dst: seq<Object>, origin: Origins, pins: Pins, o: Addr) {
    && o in origin && o < |dst| && IsRef(origin[o]) && Resolves(src, origin[o])
    && CopyOf(src, origin, pins, origin[o], dst[o])
  }

  /** One clone per (address, pointer type) pair. */
  ghost predicate PointersShared(origin: Origins) {
    forall o, o' :: o in origin && o' in origin && origin[o].Ptr? && origin[o] == origin[o'] ==> o == o'
  }

  /** Origins of new objects are references the cloner may follow. */
  ghost predicate OriginsIn(origin: Origins, pins: Pins, region: set<Value>) {
    forall o :: o in origin ==> IsRef(origin[o]) && origin[o] in region && !Pinned(pins, origin[o])
  }

  ghost predicate PinsWithin(pins: Pins, n: nat) {
    forall a :: a in pins.doubles ==> a < n
  }

  /** The heap grew from src to dst, no source object was written, and every new
      object is a finished copy of its origin. */
  ghost predicate CopiedGraph(src: seq<Object>, dst: seq<Object>, origin: Origins, pins: Pins) {
    && src <= dst
    && PinsWithin(pins, |src|)
    && (forall o :: o in origin <==> |src| <= o < |dst|)
    && (forall o :: o in origin ==> Finished(src, dst, origin, pins, o))
    && PointersShared(origin)
  }

  /** w, or a part of it, corresponds to v in a copied graph. */
  ghost predicate Mirrors(src: seq<Object>, dst: seq<Object>, origin: Origins, pins: Pins, v: Value, w: Value) {
    CopiedGraph(src, dst, origin, pins) && Renamed(origin, pins, v, w)
  }

  /** w is a whole clone of v: besides, no new backing array and no new map is held
      in two places. */
  ghost predicate IsClone(src: seq<Object>, dst: seq<Object>, origin: Origins, pins: Pins, v: Value, w: Value) {
    Mirrors(src, dst, origin, pins, v, w) && Exclusive(dst, |src|, w)
  }

  // ---------- what the cloner may enter ----------

  /** What a reference shows: its cell's value, the visible elements of a slice, the
      keys and values of a map. */
  ghost predicate Shows(h: seq<Object>, x: Value, v: Value) {
    && IsRef(x) && x.a < |h|
    && match x
       case Ptr(_, a) => h[a].Cell? && v == h[a].v
       case Slice(_, a, off, len, _) =>
         h[a].Backing? && off + len <= |h[a].elems| && v in h[a].elems[off..off + len]
       case Map(_, a) => h[a].Table? && Holds(h[a], v)
       case _ => false
  }

  /** v's references are in bounds and the unpinned ones belong to the region. */
  ghost predicate HeldIn(h: seq<Object>, pins: Pins, region: set<Value>, v: Value) {
    forall x :: x in Refs(v) ==> x.a < |h| && (!Pinned(pins, x) ==> x in region && Resolves(h, x))
  }

  /** A set of references, closed under what they show. Two slices over one array
      are two references. */
  ghost predicate Region(h: seq<Object>, pins: Pins, region: set<Value>) {
    forall x :: x in region ==>
      && IsRef(x) && Resolves(h, x) && ProperKeys(h[x.a])
      && forall v :: Shows(h, x, v) ==> WellTyped(v) && HeldIn(h, pins, region, v)
  }

  ghost predicate Below(rank: Value -> nat, v: Value, r: nat) {
    forall x :: x in Refs(v) && !x.Ptr? ==> rank(x) < r
  }

  /** Following only slices and maps goes down in rank. */
  ghost predicate Ranked(h: seq<Object>, region: set<Value>, rank: Value -> nat) {
    forall x, v :: x in region && !x.Ptr? && Shows(h, x, v) ==> Below(rank, v, rank(x))
  }

  ghost predicate PointerFreeAcyclic(h: seq<Object>, region: set<Value>) {
    exists rank: Value -> nat :: Ranked(h, region, rank)
  }

  /** v and all that can be reached from it without crossing a pin is in order. */
  ghost predicate Safe(h: seq<Object>, pins: Pins, region: set<Value>, v: Value) {
    WellTyped(v) && HeldIn(h, pins, region, v) && Region(h, pins, region) && PinsWithin(pins, |h|)
  }

  /** The cloner may be used on v. */
  ghost predicate Cloneable(h: seq<Object>, pins: Pins, region: set<Value>, v: Value) {
    Safe(h, pins, region, v) && PointerFreeAcyclic(h, region)
  }

  // ---------- laws of renaming ----------

  lemma {:induction false} RenamedExtends(small: Origins, big: Origins, pins: Pins, v: Value, w: Value)
    requires Extends(small, big) && Renamed(small, pins, v, w)
    ensures Renamed(big, pins, v, w)
  {
    match v
    case Struct(_, fs) =>
      forall i | 0 <= i < |fs| ensures Renamed(big, pins, fs[i], w.fields[i]) {
        RenamedExtends(small, big, pins, fs[i], w.fields[i]);
      }
    case Array(_, es) =>
      forall i | 0 <= i < |es| ensures Renamed(big, pins, es[i], w.elems[i]) {
        RenamedExtends(small, big, pins, es[i], w.elems[i]);
      }
    case Iface(d) => RenamedExtends(small, big, pins, d, w.dyn);
    case _ =>
  }

  lemma EntriesExtend(small: Origins, big: Origins, pins: Pins, es: seq<Entry>, out: seq<Entry>)
    requires Extends(small, big) && EntriesRenamed(small, pins, es, out)
    ensures EntriesRenamed(big, pins, es, out)
  {
    forall k | 0 <= k < |es|
      ensures Renamed(big, pins, es[k].key, out[k].key) && Renamed(big, pins, es[k].val, out[k].val)
    {
      RenamedExtends(small, big, pins, es[k].key, out[k].key);
      RenamedExtends(small, big, pins, es[k].val, out[k].val);
    }
  }

  lemma CopyExtends(src: seq<Object>, small: Origins, big: Origins, pins: Pins, x: Value, copy: Object)
    requires IsRef(x) && Resolves(src, x) && Extends(small, big) && CopyOf(src, small, pins, x, copy)
    ensures CopyOf(src, big, pins, x, copy)
  {
    match x
    case Ptr(_, a) => RenamedExtends(small, big, pins, src[a].v, copy.v);
    case Slice(_, a, off, len, _) =>
      forall i | 0 <= i < len ensures Renamed(big, pins, src[a].elems[off + i], copy.elems[i]) {
        RenamedExtends(small, big, pins, src[a].elems[off + i], copy.elems[i]);
      }
    case Map(_, a) => EntriesExtend(small, big, pins, src[a].entries, copy.entries);
  }

  lemma {:induction false} PlainRenamesToItself(origin: Origins, pins: Pins, v: Value)
    requires Refs(v) == {}
    ensures Renamed(origin, pins, v, v)
  {
    match v
    case Struct(_, fs) =>
      forall i | 0 <= i < |fs| ensures Renamed(origin, pins, fs[i], fs[i]) {
        assert forall x :: x in Refs(fs[i]) ==> x in Refs(v);
        PlainRenamesToItself(origin, pins, fs[i]);
      }
    case Array(_, es) =>
      forall i | 0 <= i < |es| ensures Renamed(origin, pins, es[i], es[i]) {
        assert forall x :: x in Refs(es[i]) ==> x in Refs(v);
        PlainRenamesToItself(origin, pins, es[i]);
      }
    case Iface(d) => PlainRenamesToItself(origin, pins, d);
    case _ =>
  }

  /** Renaming never makes two different map keys equal. */
  lemma {:induction false} RenamingKeepsKeysApart(origin: Origins, pins: Pins, n: nat, k: Value, k': Value, w: Value)
    requires forall o :: o in origin ==> n <= o
    requires Comparable(k) && Comparable(k')
    requires forall x :: x in Refs(k) + Refs(k') ==> x.a < n
    requires Renamed(origin, pins, k, w) && Renamed(origin, pins, k', w)
    ensures k == k'
  {
    match k
    case Ptr(_, _) =>
      assert k in Refs(k);
      if k'.Ptr? { assert k' in Refs(k'); }
    case Struct(_, fs) =>
      forall i | 0 <= i < |fs| ensures fs[i] == k'.fields[i] {
        assert forall x :: x in Refs(fs[i]) ==> x in Refs(k);
        assert forall x :: x in Refs(k'.fields[i]) ==> x in Refs(k');
        RenamingKeepsKeysApart(origin, pins, n, fs[i], k'.fields[i], w.fields[i]);
      }
    case Array(_, es) =>
      forall i | 0 <= i < |es| ensures es[i] == k'.elems[i] {
        assert forall x :: x in Refs(es[i]) ==> x in Refs(k);
        assert forall x :: x in Refs(k'.elems[i]) ==> x in Refs(k');
        RenamingKeepsKeysApart(origin, pins, n, es[i], k'.elems[i], w.elems[i]);
      }
    case Iface(d) => RenamingKeepsKeysApart(origin, pins, n, d, k'.dyn, w.dyn);
    case _ =>
  }

  ghost predicate StandsFor(origin: Origins, pins: Pins, v: Value, y: Value)
    requires IsRef(y)
  {
    && y.a in origin && origin[y.a] in Refs(v) && !Pinned(pins, origin[y.a])
    && match origin[y.a]
       case Ptr(t, _) => y == Ptr(t, y.a)
       case Slice(t, _, _, len, _) => y == Slice(t, y.a, 0, len, len)
       case Map(t, _) => y == Map(t, y.a)
       case _ => false
  }

  /** The references of a clone are pinned ones it shares with its source and new
      ones that originate from one of the source's. */
  lemma {:induction false} RenamedRefs(origin: Origins, pins: Pins, v: Value, w: Value, y: Value)
    requires Renamed(origin, pins, v, w) && y in Refs(w)
    ensures (Pinned(pins, y) && y in Refs(v)) || StandsFor(origin, pins, v, y)
  {
    match v
    case Ptr(_, _) => assert v in Refs(v);
    case Slice(_, _, _, _, _) => assert v in Refs(v);
    case Map(_, _) => assert v in Refs(v);
    case Struct(_, fs) =>
      var i :| 0 <= i < |fs| && y in Refs(w.fields[i]);
      RenamedRefs(origin, pins, fs[i], w.fields[i], y);
      assert forall x :: x in Refs(fs[i]) ==> x in Refs(v);
    case Array(_, es) =>
      var i :| 0 <= i < |es| && y in Refs(w.elems[i]);
      RenamedRefs(origin, pins, es[i], w.elems[i], y);
      assert forall x :: x in Refs(es[i]) ==> x in Refs(v);
    case Iface(d) => RenamedRefs(origin, pins, d, w.dyn, y);
    case _ =>
  }

  // ---------- access paths ----------

  datatype Step =
    | Deref
    | Field(i: nat)
    | Elem(i: nat)
    | Index(i: nat)
    | EntryKey(i: nat)
    | EntryValue(i: nat)
    | Unwrap

  type Path = seq<Step>

  /** One step of an access path. Pinned pointers are a boundary: no step crosses them. */
  function Take(h: seq<Object>, pins: Pins, v: Value, s: Step): Option<Value> {
    match (v, s)
    case (Ptr(_, a), Deref) => if !Pinned(pins, v) && a < |h| && h[a].Cell? then Some(h[a].v) else None
    case (Struct(_, fs), Field(i)) => if i < |fs| then Some(fs[i]) else None
    case (Array(_, es), Elem(i)) => if i < |es| then Some(es[i]) else None
    case (Slice(_, a, off, len, _), Index(i)) =>
      if i < len && a < |h| && h[a].Backing? && off + len <= |h[a].elems| then Some(h[a].elems[off + i]) else None
    case (Map(_, a), EntryKey(i)) =>
      if a < |h| && h[a].Table? && i < |h[a].entries| then Some(h[a].entries[i].key) else None
    case (Map(_, a), EntryValue(i)) =>
      if a < |h| && h[a].Table? && i < |h[a].entries| then Some(h[a].entries[i].val) else None
    case (Iface(d), Unwrap) => Some(d)
    case _ => None
  }

  function Walk(h: seq<Object>, pins: Pins, v: Value, p: Path): Option<Value>
    decreases p
  {
    if p == [] then Some(v)
    else match Take(h, pins, v, p[0])
      case None => None
      case Some(x) => Walk(h, pins, x, p[1..])
  }

  lemma {:induction false} WalkAppend(h: seq<Object>, pins: Pins, v: Value, p: Path, q: Path)
    ensures Walk(h, pins, v, p + q) ==
      if Walk(h, pins, v, p).Some? then Walk(h, pins, Walk(h, pins, v, p).value, q) else None
    decreases p
  {
    if p == [] {
      assert p + q == q;
    } else {
      assert (p + q)[1..] == p[1..] + q;
      if Take(h, pins, v, p[0]).Some? { WalkAppend(h, pins, Take(h, pins, v, p[0]).value, p[1..], q); }
    }
  }

  /** What a program can tell about the value at the end of a path without
      comparing addresses of unpinned references; a slice's capacity is left out. */
  datatype Sight =
    | Nowhere
    | Plain(v: Value)
    | PinnedAt(p: Value)
    | PointerOf(t: TypeId)
    | SliceOf(t: TypeId, len: nat)
    | MapOf(t: TypeId, size: nat)
    | StructOf(t: TypeId, arity: nat)
    | ArrayOf(elem: Ty, len: nat)
    | Wrapped

  function Look(h: seq<Object>, pins: Pins, v: Value): Sight {
    match v
    case Ptr(t, _) => if Pinned(pins, v) then PinnedAt(v) else PointerOf(t)
    case Slice(t, _, _, len, _) => SliceOf(t, len)
    case Map(t, a) => MapOf(t, if a < |h| && h[a].Table? then |h[a].entries| else 0)
    case Struct(t, fs) => StructOf(t, |fs|)
    case Array(elem, es) => ArrayOf(elem, |es|)
    case Iface(_) => Wrapped
    case _ => Plain(v)
  }

  function Observe(h: seq<Object>, pins: Pins, v: Value, p: Path): Sight {
    match Walk(h, pins, v, p)
    case None => Nowhere
    case Some(x) => Look(h, pins, x)
  }

  /** Both paths end in the same unpinned pointer. */
  ghost predicate Aliased(h: seq<Object>, pins: Pins, v: Value, p: Path, q: Path) {
    var x, y := Walk(h, pins, v, p), Walk(h, pins, v, q);
    x.Some? && x.value.Ptr? && !Pinned(pins, x.value) && x == y
  }

  /** The two values look the same along every path and share pointers the same way. */
  ghost predicate SameShape(h: seq<Object>, pins: Pins, v: Value, h': seq<Object>, pins': Pins, w: Value) {
    && (forall p :: Observe(h, pins, v, p) == Observe(h', pins', w, p))
    && (forall p, q :: Aliased(h, pins, v, p, q) <==> Aliased(h', pins', w, p, q))
  }

  // ---------- consequences of being a clone ----------

  /** A step through a reference, taken on both sides. */
  lemma FollowTogether(
    src: seq<Object>, dst: seq<Object>, origin: Origins, pins: Pins, region: set<Value>, v: Value, w: Value, s: Step)
    requires Mirrors(src, dst, origin, pins, v, w) && IsRef(v)
    requires Region(src, pins, region) && HeldIn(src, pins, region, v)
    ensures Take(src, pins, v, s).Some? <==> Take(dst, pins, w, s).Some?
    ensures Take(src, pins, v, s).Some? ==>
      HeldIn(src, pins, region, Take(src, pins, v, s).value) &&
      Renamed(origin, pins, Take(src, pins, v, s).value, Take(dst, pins, w, s).value)
  {
    assert v in Refs(v);
    if !Pinned(pins, v) {
      assert Finished(src, dst, origin, pins, w.a);
      var x := Take(src, pins, v, s);
      assert x.Some? ==> Shows(src, v, x.value);
    }
  }

  /** A step from inside the region, taken on both sides, ends in renamed values. */
  lemma TakeTogether(
    src: seq<Object>, dst: seq<Object>, origin: Origins, pins: Pins, region: set<Value>, v: Value, w: Value, s: Step)
    requires Mirrors(src, dst, origin, pins, v, w)
    requires Region(src, pins, region) && HeldIn(src, pins, region, v)
    ensures Take(src, pins, v, s).Some? <==> Take(dst, pins, w, s).Some?
    ensures Take(src, pins, v, s).Some? ==>
      HeldIn(src, pins, region, Take(src, pins, v, s).value) &&
      Renamed(origin, pins, Take(src, pins, v, s).value, Take(dst, pins, w, s).value)
  {
    if IsRef(v) {
      FollowTogether(src, dst, origin, pins, region, v, w, s);
    } else if Take(src, pins, v, s).Some? {
      assert Refs(Take(src, pins, v, s).value) <= Refs(v);
    }
  }

  lemma {:induction false} WalkTogether(
    src: seq<Object>, dst: seq<Object>, origin: Origins, pins: Pins, region: set<Value>, v: Value, w: Value, p: Path)
    requires Mirrors(src, dst, origin, pins, v, w)
    requires Region(src, pins, region) && HeldIn(src, pins, region, v)
    decreases p
    ensures Walk(src, pins, v, p).Some? <==> Walk(dst, pins, w, p).Some?
    ensures Walk(src, pins, v, p).Some? ==>
      HeldIn(src, pins, region, Walk(src, pins, v, p).value) &&
      Renamed(origin, pins, Walk(src, pins, v, p).value, Walk(dst, pins, w, p).value)
  {
    if p == [] {
    } else {
      TakeTogether(src, dst, origin, pins, region, v, w, p[0]);
      if Take(src, pins, v, p[0]).Some? {
        var x, y := Take(src, pins, v, p[0]).value, Take(dst, pins, w, p[0]).value;
        WalkTogether(src, dst, origin, pins, region, x, y, p[1..]);
      }
    }
  }

  /** A clone cannot be told from its source by looking, and shares pointers,
      cycles included, exactly as its source does. */
  lemma CloneHasSameShape(
    src: seq<Object>, dst: seq<Object>, origin: Origins, pins: Pins, region: set<Value>, v: Value, w: Value)
    requires Mirrors(src, dst, origin, pins, v, w)
    requires Region(src, pins, region) && HeldIn(src, pins, region, v)
    ensures SameShape(src, pins, v, dst, pins, w)
  {
    forall p ensures Observe(src, pins, v, p) == Observe(dst, pins, w, p) {
      WalkTogether(src, dst, origin, pins, region, v, w, p);
      var x := Walk(src, pins, v, p);
      if x.Some? && x.value.Map? {
        assert x.value in Refs(x.value);
        assert Finished(src, dst, origin, pins, Walk(dst, pins, w, p).value.a);
      }
    }
    forall p, q ensures Aliased(src, pins, v, p, q) <==> Aliased(dst, pins, w, p, q) {
      WalkTogether(src, dst, origin, pins, region, v, w, p);
      WalkTogether(src, dst, origin, pins, region, v, w, q);
    }
  }

  /** A clone's references are new, except the pinned ones, which are its source's. */
  lemma CloneIsDetached(src: seq<Object>, dst: seq<Object>, origin: Origins, pins: Pins, v: Value, w: Value)
    requires Mirrors(src, dst, origin, pins, v, w)
    requires forall x :: x in Refs(v) && Pinned(pins, x) ==> x.a < |src|
    ensures forall y :: y in Refs(w) ==> if Pinned(pins, y) then y in Refs(v) else |src| <= y.a < |dst|
  {
    forall y | y in Refs(w)
      ensures if Pinned(pins, y) then y in Refs(v) else |src| <= y.a < |dst|
    {
      RenamedRefs(origin, pins, v, w, y);
    }
  }
}
