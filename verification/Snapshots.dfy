/** The cyclic graph copier of internal/core/snapshots.go. */
module Snapshots {
  import opened Values
  import opened Ownership
  import opened Cloning
  import opened Reproduction
  import opened Separation
  import opened CloneProgress
  import opened Loops
  import opened LoopFree

  /** One call of `cloneValuePinned` with its visited table. Ghost state fixes
      the source heap and what bounds the recursion. */
  class Cloner {
    const mem: Memory
    const pins: Pins
    var visited: map<VisitKey, Addr>

    ghost var origin: Origins
    ghost var holder: map<Addr, Addr>
    ghost const src: seq<Object>
    ghost const region: set<Value>
    ghost const rank: Value -> nat
    ghost const bound: nat

    constructor (mem: Memory, pins: Pins, ghost region: set<Value>, ghost rank: Value -> nat, ghost bound: nat)
      requires Region(mem.objs, pins, region) && Ranked(mem.objs, region, rank) && PinsWithin(pins, |mem.objs|)
      requires forall x :: x in region ==> rank(x) < bound
      ensures this.mem == mem && this.pins == pins && src == mem.objs && this.region == region
      ensures this.rank == rank && this.bound == bound
      ensures Now() == Progress(mem.objs, map[], map[], map[])
      ensures Valid({})
    {
      this.mem := mem;
      this.pins := pins;
      this.visited := map[];
      this.origin := map[];
      this.holder := map[];
      this.src := mem.objs;
      this.region := region;
      this.rank := rank;
      this.bound := bound;
    }

    ghost function Now(): Progress
      reads this, mem
    {
      Progress(mem.objs, visited, origin, holder)
    }

    /** What the cloner was given. */
    ghost predicate Setting() {
      && Region(src, pins, region) && Ranked(src, region, rank) && PinsWithin(pins, |src|)
      && (forall x :: x in region ==> rank(x) < bound)
    }

    /** The pointers still to be visited, at most. */
    ghost function Unvisited(): set<VisitKey>
      reads this
    {
      KeysOf(region) - visited.Keys
    }

    /** Every new object but the clones of `grey` pointers is finished. */
    ghost predicate Valid(grey: set<VisitKey>)
      reads this, mem
    {
      Setting() && Sound(src, pins, region, Now(), grey)
    }

    ghost predicate Enterable(v: Value, r: nat) {
      WellTyped(v) && HeldIn(src, pins, region, v) && Below(rank, v, r)
    }

    lemma EnterShown(x: Value, v: Value)
      requires Setting() && x in region && Shows(src, x, v)
      ensures Enterable(v, if x.Ptr? then bound else rank(x))
    {
    }

    method FixIndirections(v: Value, ghost grey: set<VisitKey>, ghost r: nat) returns (w: Value)
      requires Valid(grey) && Enterable(v, r)
      modifies this, mem
      ensures Valid(grey) && Grows(old(Now()), Now())
      ensures Fixed(pins, Now(), v, w, |old(mem.objs)|)
      decreases Unvisited(), r, v, 2
    {
      match v {
        case Ptr(_, _) =>
          w := FixPointer(v, grey, r);
        case Slice(_, _, _, _, _) =>
          w := FixSlice(v, grey, r);
        case Map(_, _) =>
          w := FixMap(v, grey, r);
        case Struct(t, fs) =>
          var fields := FixFields(fs, grey, r);
          FixedStruct(pins, Now(), t, fs, fields, |old(mem.objs)|);
          w := Struct(t, fields);
        case Array(elem, es) =>
          var elems := FixEach(es, grey, r);
          FixedArray(pins, Now(), elem, es, elems, |old(mem.objs)|);
          w := Array(elem, elems);
        case Iface(d) =>
          var x := FixIndirections(d, grey, r);
          assert Storage(Iface(x)) == Storage(x);
          w := Iface(x);
        case _ =>
          PlainIsFixed(pins, Now(), v, |old(mem.objs)|);
          w := v;
      }
    }

    method FixPointer(v: Value, ghost grey: set<VisitKey>, ghost r: nat) returns (w: Value)
      requires v.Ptr? && Valid(grey) && Enterable(v, r)
      modifies this, mem
      ensures Valid(grey) && Grows(old(Now()), Now())
      ensures Fixed(pins, Now(), v, w, |old(mem.objs)|)
      decreases Unvisited(), r, v, 1
    {
      assert forall t, a :: Storage(Ptr(t, a)) == {};
      if Pinned(pins, v) { return v; }
      assert v in Refs(v);
      var key := VisitKey(v.a, v.t);
      if key in visited { return Ptr(v.t, visited[key]); }
      w := ClonePointee(v, key, grey, r);
    }

    /** First visit: the entry goes into the visited table before the descent. */
    method ClonePointee(v: Value, key: VisitKey, ghost grey: set<VisitKey>, ghost r: nat) returns (w: Value)
      requires v.Ptr? && Valid(grey) && v in region && Resolves(src, v) && !Pinned(pins, v)
      requires key == KeyFor(v) && key !in visited
      modifies this, mem
      ensures Valid(grey) && Grows(old(Now()), Now())
      ensures Fixed(pins, Now(), v, w, |old(mem.objs)|)
      decreases Unvisited(), r, v, 0
    {
      EnterShown(v, src[v.a].v);
      Shrinks(KeysOf(region), visited.Keys, key);
      ghost var before := Now();
      var out := Reserve(v, key, grey);
      ghost var reserved := Now();
      var x := FixIndirections(mem.objs[out].v, grey + {key}, bound);
      FilledGrows(before, reserved, Now(), pins, src[v.a], v, key, x);
      Fill(v, key, grey, out, x, |reserved.dst|);
      w := Ptr(v.t, out);
    }

    /** Allocates the clone's cell with a shallow copy and remembers it. */
    method Reserve(v: Value, key: VisitKey, ghost grey: set<VisitKey>) returns (out: Addr)
      requires v.Ptr? && Valid(grey) && v in region && Resolves(src, v) && !Pinned(pins, v)
      requires key == KeyFor(v) && key !in visited
      modifies this, mem
      ensures Valid(grey + {key})
      ensures out == |old(mem.objs)| && mem.objs == old(mem.objs) + [src[v.a]]
      ensures visited == old(visited)[key := out] && origin == old(origin)[out := v] && holder == old(holder)
    {
      Reserved(src, pins, region, Now(), grey, v, src[v.a]);
      out := mem.Alloc(mem.objs[v.a]);
      visited := visited[key := out];
      origin := origin[out := v];
    }

    /** Stores the fixed value in the reserved cell. */
    method Fill(v: Value, key: VisitKey, ghost grey: set<VisitKey>, out: Addr, x: Value, ghost lo: nat)
      requires v.Ptr? && key == KeyFor(v) && Valid(grey + {key}) && v in region && Resolves(src, v)
      requires out in origin && origin[out] == v && Fixed(pins, Now(), src[v.a].v, x, lo)
      modifies this`holder, mem
      ensures Valid(grey) && mem.objs == old(mem.objs)[out := Cell(x)]
      ensures holder == Holding(old(holder), Storage(x), out)
    {
      Filled(src, pins, region, Now(), grey, out, x, lo);
      mem.Store(out, Cell(x));
      holder := Holding(holder, Storage(x), out);
    }

    /** Allocates the copied backing array or map. */
    method Publish(v: Value, o: Object, ghost grey: set<VisitKey>, ghost lo: nat) returns (out: Addr)
      requires Valid(grey) && IsRef(v) && !v.Ptr? && v in region && Resolves(src, v)
      requires CopyOf(src, origin, pins, v, o) && LooseParts(Parts(o), lo, Now())
      modifies this, mem
      ensures Valid(grey)
      ensures out == |old(mem.objs)| && mem.objs == old(mem.objs) + [o] && visited == old(visited)
      ensures origin == old(origin)[out := v] && holder == Holding(old(holder), ObjectStorage(o), out)
    {
      Published(src, pins, region, Now(), grey, v, o, lo);
      out := mem.Alloc(o);
      origin := origin[out := v];
      holder := Holding(holder, ObjectStorage(o), out);
    }

    method FixSlice(v: Value, ghost grey: set<VisitKey>, ghost r: nat) returns (w: Value)
      requires v.Slice? && Valid(grey) && Enterable(v, r)
      modifies this, mem
      ensures Valid(grey) && Grows(old(Now()), Now())
      ensures Fixed(pins, Now(), v, w, |old(mem.objs)|)
      decreases Unvisited(), r, v, 0
    {
      ghost var before := Now();
      assert v in Refs(v);
      var shown := mem.objs[v.a].elems[v.off..v.off + v.len];
      forall i | 0 <= i < |shown| ensures Enterable(shown[i], rank(v)) { EnterShown(v, shown[i]); }
      var elems := FixEach(shown, grey, rank(v));
      BackingLoose(pins, Now(), shown, elems, |before.dst|);
      BackingCopied(src, Now(), pins, v, shown, elems, |before.dst|);
      PublishedGrows(before, Now(), pins, Backing(elems), v, Slice(v.t, |mem.objs|, 0, v.len, v.len));
      var out := Publish(v, Backing(elems), grey, |before.dst|);
      w := Slice(v.t, out, 0, v.len, v.len);
    }

    method FixMap(v: Value, ghost grey: set<VisitKey>, ghost r: nat) returns (w: Value)
      requires v.Map? && Valid(grey) && Enterable(v, r)
      modifies this, mem
      ensures Valid(grey) && Grows(old(Now()), Now())
      ensures Fixed(pins, Now(), v, w, |old(mem.objs)|)
      decreases Unvisited(), r, v, 0
    {
      ghost var before := Now();
      assert v in Refs(v);
      forall i | 0 <= i < |src[v.a].entries|
        ensures Enterable(src[v.a].entries[i].key, rank(v)) && Enterable(src[v.a].entries[i].val, rank(v))
      {
        EnterShown(v, src[v.a].entries[i].key);
        EnterShown(v, src[v.a].entries[i].val);
      }
      var entries := FixEntries(mem.objs[v.a].entries, grey, rank(v));
      TableLoose(pins, Now(), src[v.a].entries, entries, |before.dst|);
      PublishedGrows(before, Now(), pins, Table(entries), v, Map(v.t, |mem.objs|));
      var out := Publish(v, Table(entries), grey, |before.dst|);
      w := Map(v.t, out);
    }

    /** The loop over a slice's copied elements, or over an array's. */
    method FixEach(vs: seq<Value>, ghost grey: set<VisitKey>, ghost r: nat) returns (ws: seq<Value>)
      requires Valid(grey) && forall i :: 0 <= i < |vs| ==> Enterable(vs[i], r)
      modifies this, mem
      ensures Valid(grey) && Grows(old(Now()), Now())
      ensures FixedUpTo(pins, Now(), vs, ws, |vs|, |old(mem.objs)|)
      decreases Unvisited(), r, vs, 0
    {
      ws := vs;
      for i := 0 to |vs|
        invariant Valid(grey) && Grows(old(Now()), Now())
        invariant FixedUpTo(pins, Now(), vs, ws, i, |old(mem.objs)|)
      {
        ghost var before := Now();
        assert Enterable(vs[i], r);
        assert ws[i] == ws[i..][0] == vs[i];
        var w := FixIndirections(ws[i], grey, r);
        OneMoreFixed(pins, before, Now(), vs, ws, i, |old(mem.objs)|, w);
        ws := ws[i := w];
      }
    }

    /** A struct's field, skipped when its type holds no indirection. */
    method FixField(v: Value, ghost grey: set<VisitKey>, ghost r: nat) returns (w: Value)
      requires Valid(grey) && Enterable(v, r)
      modifies this, mem
      ensures Valid(grey) && Grows(old(Now()), Now())
      ensures Fixed(pins, Now(), v, w, |old(mem.objs)|)
      decreases Unvisited(), r, v, 3
    {
      if !NeedsSnapshot(TypeOf(v)) {
        RejectedTypesHoldNoReference(v);
        PlainIsFixed(pins, Now(), v, |mem.objs|);
        return v;
      }
      w := FixIndirections(v, grey, r);
    }

    /** The loop over a struct's fields. */
    method FixFields(vs: seq<Value>, ghost grey: set<VisitKey>, ghost r: nat) returns (ws: seq<Value>)
      requires Valid(grey) && forall i :: 0 <= i < |vs| ==> Enterable(vs[i], r)
      modifies this, mem
      ensures Valid(grey) && Grows(old(Now()), Now())
      ensures FixedUpTo(pins, Now(), vs, ws, |vs|, |old(mem.objs)|)
      decreases Unvisited(), r, vs, 0
    {
      ws := vs;
      for i := 0 to |vs|
        invariant Valid(grey) && Grows(old(Now()), Now())
        invariant FixedUpTo(pins, Now(), vs, ws, i, |old(mem.objs)|)
      {
        ghost var before := Now();
        assert Enterable(vs[i], r);
        assert ws[i] == ws[i..][0] == vs[i];
        var w := FixField(ws[i], grey, r);
        OneMoreFixed(pins, before, Now(), vs, ws, i, |old(mem.objs)|, w);
        ws := ws[i := w];
      }
    }

    /** A map entry: `cloneValuePinned` on its key, then on its value. */
    method FixEntry(e: Entry, ghost grey: set<VisitKey>, ghost r: nat) returns (key: Value, val: Value)
      requires Valid(grey) && Enterable(e.key, r) && Enterable(e.val, r)
      modifies this, mem
      ensures Valid(grey) && Grows(old(Now()), Now())
      ensures Renamed(origin, pins, e.key, key) && Fixed(pins, Now(), e.val, val, |old(mem.objs)|)
      decreases Unvisited(), r, e
    {
      key := FixIndirections(e.key, grey, r);
      ghost var before := Now();
      val := FixIndirections(e.val, grey, r);
      FixedStays(pins, before, Now(), e.key, key, |old(mem.objs)|);
    }

    /** The loop over a map's entries: keys and values are cloned into a new map. */
    method FixEntries(es: seq<Entry>, ghost grey: set<VisitKey>, ghost r: nat) returns (out: seq<Entry>)
      requires Valid(grey) && DistinctKeys(es)
      requires forall i :: 0 <= i < |es| ==>
        Comparable(es[i].key) && Enterable(es[i].key, r) && Enterable(es[i].val, r)
      modifies this, mem
      ensures Valid(grey) && Grows(old(Now()), Now())
      ensures EntriesFixed(pins, Now(), es, out, |old(mem.objs)|)
      decreases Unvisited(), r
    {
      out := [];
      assert MapKeys(es, |src|);
      for i := 0 to |es|
        invariant Valid(grey) && Grows(old(Now()), Now())
        invariant EntriesFixed(pins, Now(), es[..i], out, |old(mem.objs)|)
      {
        ghost var before := Now();
        var key, val := FixEntry(es[i], grey, r);
        OneMoreEntry(pins, before, Now(), |src|, es, i, out, key, val, |old(mem.objs)|);
        out := SetMapIndex(out, key, val);
      }
      assert es[..|es|] == es;
    }
  }

  // ---------- entry points ----------

  /** `cloneValuePinned` with an empty visited table. */
  method CloneValuePinned(mem: Memory, pins: Pins, v: Value, ghost region: set<Value>)
    returns (w: Value, ghost origin: Origins)
    requires Safe(mem.objs, pins, region, v) && !HasLoop(mem.objs, pins, v)
    modifies mem
    ensures IsClone(old(mem.objs), mem.objs, origin, pins, v, w)
    ensures OriginsIn(origin, pins, region)
  {
    ghost var reached := ReachedRefs(mem.objs, pins, region, v);
    NoLoopIsCloneable(mem.objs, pins, region, v);
    ghost var rank: Value -> nat :| Ranked(mem.objs, reached, rank);
    ghost var bound := RankBound(reached, rank);
    var c := new Cloner(mem, pins, reached, rank, bound);
    w := c.FixIndirections(v, {}, bound);
    origin := c.origin;
    AllHoused(c.src, pins, reached, c.Now(), w);
  }

  /** `snapshotParam`: the parameter is an interface value, possibly nil. */
  method SnapshotParam(mem: Memory, p: Value, ghost region: set<Value>) returns (snapshot: Value)
    requires Safe(mem.objs, NO_PINS, region, p) && !HasLoop(mem.objs, NO_PINS, p)
    requires p == Nil(IfaceTy) || p.Iface?
    modifies mem
    ensures old(mem.objs) <= mem.objs
    ensures Frozen(old(mem.objs), p, mem.objs, snapshot)
  {
    if p == Nil(IfaceTy) || !NeedsSnapshot(TypeOf(p.dyn)) {
      PlainIsFrozen(mem.objs, p);
      return p;
    }
    assert Safe(mem.objs, NO_PINS, region, p.dyn);
    UnwrappedHasNoLoop(mem.objs, NO_PINS, p.dyn);
    ghost var src := mem.objs;
    var w, origin := CloneValuePinned(mem, NO_PINS, p.dyn, region);
    snapshot := Iface(w);
    forall later | AgreeFrom(|src|, mem.objs, later) ensures Reproduces(src, NO_PINS, p, later, NO_PINS, snapshot) {
      CloneSurvivesMutation(src, mem.objs, origin, NO_PINS, region, p, snapshot, later);
    }
  }

  ghost predicate AgreeFrom(n: nat, h: seq<Object>, h': seq<Object>) {
    |h| <= |h'| && forall i :: n <= i < |h| ==> h'[i] == h[i]
  }

  /** Nothing written to memory older than the snapshot shows through it. */
  ghost predicate Frozen(src: seq<Object>, v: Value, dst: seq<Object>, w: Value) {
    forall later :: AgreeFrom(|src|, dst, later) ==> Reproduces(src, NO_PINS, v, later, NO_PINS, w)
  }

  lemma PlainIsFrozen(h: seq<Object>, p: Value)
    requires WellTyped(p) && (p == Nil(IfaceTy) || (p.Iface? && !NeedsSnapshot(TypeOf(p.dyn))))
    ensures Frozen(h, p, h, p)
  {
    if p.Iface? { RejectedTypesHoldNoReference(p.dyn); }
    PlainRenamesToItself(map[], NO_PINS, p);
    PlainIsUnshared(p);
    CloneReproduces(h, h, map[], NO_PINS, {}, p, p);
    forall later | AgreeFrom(|h|, h, later) ensures Reproduces(h, NO_PINS, p, later, NO_PINS, p) {
      CopyUnchanged(h, NO_PINS, p, h, later, NO_PINS, {}, p);
    }
  }

  /** `snapshotParams`: the arguments of one recorded call. */
  method SnapshotParams(mem: Memory, params: seq<Value>, ghost region: set<Value>) returns (snapshots: seq<Value>)
    requires forall i :: 0 <= i < |params| ==>
      && Safe(mem.objs, NO_PINS, region, params[i]) && !HasLoop(mem.objs, NO_PINS, params[i])
      && (params[i] == Nil(IfaceTy) || params[i].Iface?)
    modifies mem
    ensures old(mem.objs) <= mem.objs && |snapshots| == |params|
    ensures forall i :: 0 <= i < |params| ==> Frozen(old(mem.objs), params[i], mem.objs, snapshots[i])
  {
    snapshots := [];
    ghost var src := mem.objs;
    for i := 0 to |params|
      invariant src <= mem.objs && |snapshots| == i
      invariant forall k :: 0 <= k < i ==> Frozen(src, params[k], mem.objs, snapshots[k])
    {
      ghost var before := mem.objs;
      assert Safe(src, NO_PINS, region, params[i]) && !HasLoop(src, NO_PINS, params[i]);
      RegionStable(src, before, NO_PINS, region);
      HeldStable(src, before, NO_PINS, region, params[i]);
      NoLoopStays(src, before, NO_PINS, region, params[i]);
      var s := SnapshotParam(mem, params[i], region);
      forall k | 0 <= k < i ensures Frozen(src, params[k], mem.objs, snapshots[k]) {
        StaysFrozen(src, params[k], before, snapshots[k], mem.objs);
      }
      FrozenSince(src, before, region, params[i], mem.objs, s);
      snapshots := snapshots + [s];
    }
  }

  lemma StaysFrozen(src: seq<Object>, v: Value, dst: seq<Object>, w: Value, dst': seq<Object>)
    requires Frozen(src, v, dst, w) && dst <= dst'
    ensures Frozen(src, v, dst', w)
  {
    forall later | AgreeFrom(|src|, dst', later) ensures Reproduces(src, NO_PINS, v, later, NO_PINS, w) {
      assert AgreeFrom(|src|, dst, later);
    }
  }

  /** A snapshot taken after the heap grew still shows the earlier state. */
  lemma FrozenSince(src: seq<Object>, grown: seq<Object>, region: set<Value>, v: Value, dst: seq<Object>, w: Value)
    requires Safe(src, NO_PINS, region, v) && src <= grown <= dst && Frozen(grown, v, dst, w)
    ensures Frozen(src, v, dst, w)
  {
    RegionUnchanged(src, grown, NO_PINS, region, v);
    forall later | AgreeFrom(|src|, dst, later) ensures Reproduces(src, NO_PINS, v, later, NO_PINS, w) {
      assert AgreeFrom(|grown|, dst, later);
      CopyOfSameShape(src, NO_PINS, v, grown, NO_PINS, v, later, NO_PINS, w);
    }
  }
}
