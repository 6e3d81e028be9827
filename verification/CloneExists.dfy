/** Exactly the values without loops have a clone. The existence proof follows the
    cloner on values of its progress. */
module CloneExists {
  import opened Values
  import opened Ownership
  import opened Cloning
  import opened CloneProgress
  import opened Loops
  import opened LoopFree

  /** What there is to clone, and what bounds the recursion. */
  datatype Task = Task(src: seq<Object>, pins: Pins, region: set<Value>, rank: Value -> nat, bound: nat)

  ghost predicate Bounded(t: Task) {
    && Region(t.src, t.pins, t.region) && Ranked(t.src, t.region, t.rank) && PinsWithin(t.pins, |t.src|)
    && forall x :: x in t.region ==> t.rank(x) < t.bound
  }

  ghost predicate CanEnter(t: Task, v: Value, r: nat) {
    WellTyped(v) && HeldIn(t.src, t.pins, t.region, v) && Below(t.rank, v, r)
  }

  ghost predicate Ready(t: Task, s: Progress, grey: set<VisitKey>) {
    Bounded(t) && Sound(t.src, t.pins, t.region, s, grey)
  }

  ghost function Unvisited(t: Task, s: Progress): set<VisitKey> {
    KeysOf(t.region) - s.visited.Keys
  }

  lemma EnterShown(t: Task, x: Value, v: Value)
    requires Bounded(t) && x in t.region && Shows(t.src, x, v)
    ensures CanEnter(t, v, if x.Ptr? then t.bound else t.rank(x))
  {
  }

  lemma {:induction false} ValueExists(t: Task, s: Progress, grey: set<VisitKey>, v: Value, r: nat)
    returns (s': Progress, w: Value)
    requires Ready(t, s, grey) && CanEnter(t, v, r)
    ensures Ready(t, s', grey) && Grows(s, s') && Fixed(t.pins, s', v, w, |s.dst|)
    decreases Unvisited(t, s), r, v, 2
  {
    match v
    case Ptr(_, _) => s', w := PointerExists(t, s, grey, v, r);
    case Slice(_, _, _, _, _) => s', w := SliceExists(t, s, grey, v, r);
    case Map(_, _) => s', w := MapExists(t, s, grey, v, r);
    case Struct(id, fs) =>
      var ws: seq<Value>;
      s', ws := EachExists(t, s, grey, fs, r);
      w := Struct(id, ws);
      FixedStruct(t.pins, s', id, fs, ws, |s.dst|);
    case Array(elem, es) =>
      var ws: seq<Value>;
      s', ws := EachExists(t, s, grey, es, r);
      w := Array(elem, ws);
      FixedArray(t.pins, s', elem, es, ws, |s.dst|);
    case Iface(d) =>
      var x: Value;
      s', x := ValueExists(t, s, grey, d, r);
      w := Iface(x);
      assert Storage(w) == Storage(x);
    case _ =>
      s', w := s, v;
      PlainIsFixed(t.pins, s, v, |s.dst|);
  }

  lemma {:induction false} PointerExists(t: Task, s: Progress, grey: set<VisitKey>, v: Value, r: nat)
    returns (s': Progress, w: Value)
    requires v.Ptr? && Ready(t, s, grey) && CanEnter(t, v, r)
    ensures Ready(t, s', grey) && Grows(s, s') && Fixed(t.pins, s', v, w, |s.dst|)
    decreases Unvisited(t, s), r, v, 1
  {
    assert v in Refs(v);
    if Pinned(t.pins, v) {
      s', w := s, v;
      assert Storage(w) == {};
    } else if KeyFor(v) in s.visited {
      s', w := s, Ptr(v.t, s.visited[KeyFor(v)]);
      assert Storage(w) == {};
    } else {
      s', w := PointeeExists(t, s, grey, v, r);
    }
  }

  lemma {:induction false} PointeeExists(t: Task, s: Progress, grey: set<VisitKey>, v: Value, r: nat)
    returns (s': Progress, w: Value)
    requires v.Ptr? && Ready(t, s, grey) && v in t.region && Resolves(t.src, v) && !Pinned(t.pins, v)
    requires KeyFor(v) !in s.visited
    ensures Ready(t, s', grey) && Grows(s, s') && Fixed(t.pins, s', v, w, |s.dst|)
    decreases Unvisited(t, s), r, v, 0
  {
    var n, key, o := |s.dst|, KeyFor(v), t.src[v.a];
    EnterShown(t, v, o.v);
    Shrinks(KeysOf(t.region), s.visited.Keys, key);
    Reserved(t.src, t.pins, t.region, s, grey, v, o);
    var reserved := Progress(s.dst + [o], s.visited[key := n], s.origin[n := v], s.holder);
    var now, x := ValueExists(t, reserved, grey + {key}, o.v, t.bound);
    FilledGrows(s, reserved, now, t.pins, o, v, key, x);
    Filled(t.src, t.pins, t.region, now, grey, n, x, |reserved.dst|);
    s' := Progress(now.dst[n := Cell(x)], now.visited, now.origin, Holding(now.holder, Storage(x), n));
    w := Ptr(v.t, n);
  }

  /** Publishing what was made for v. */
  lemma PublishedExists(t: Task, s0: Progress, s: Progress, grey: set<VisitKey>, v: Value, o: Object, w: Value)
    returns (s': Progress)
    requires Ready(t, s, grey) && Grows(s0, s) && LooseParts(Parts(o), |s0.dst|, s)
    requires IsRef(v) && v in t.region && Resolves(t.src, v) && CopyOf(t.src, s.origin, t.pins, v, o)
    requires match v
      case Slice(id, _, _, len, _) => w == Slice(id, |s.dst|, 0, len, len)
      case Map(id, _) => w == Map(id, |s.dst|)
      case _ => false
    ensures Ready(t, s', grey) && Grows(s0, s') && Fixed(t.pins, s', v, w, |s0.dst|)
  {
    var n := |s.dst|;
    Published(t.src, t.pins, t.region, s, grey, v, o, |s0.dst|);
    PublishedGrows(s0, s, t.pins, o, v, w);
    s' := Progress(s.dst + [o], s.visited, s.origin[n := v], Holding(s.holder, ObjectStorage(o), n));
  }

  lemma {:induction false} SliceExists(t: Task, s: Progress, grey: set<VisitKey>, v: Value, r: nat)
    returns (s': Progress, w: Value)
    requires v.Slice? && Ready(t, s, grey) && CanEnter(t, v, r)
    ensures Ready(t, s', grey) && Grows(s, s') && Fixed(t.pins, s', v, w, |s.dst|)
    decreases Unvisited(t, s), r, v, 0
  {
    assert v in Refs(v);
    var shown := t.src[v.a].elems[v.off..v.off + v.len];
    forall i | 0 <= i < |shown| ensures CanEnter(t, shown[i], t.rank(v)) { EnterShown(t, v, shown[i]); }
    var now, ws := EachExists(t, s, grey, shown, t.rank(v));
    BackingLoose(t.pins, now, shown, ws, |s.dst|);
    BackingCopied(t.src, now, t.pins, v, shown, ws, |s.dst|);
    w := Slice(v.t, |now.dst|, 0, v.len, v.len);
    s' := PublishedExists(t, s, now, grey, v, Backing(ws), w);
  }

  lemma {:induction false} MapExists(t: Task, s: Progress, grey: set<VisitKey>, v: Value, r: nat)
    returns (s': Progress, w: Value)
    requires v.Map? && Ready(t, s, grey) && CanEnter(t, v, r)
    ensures Ready(t, s', grey) && Grows(s, s') && Fixed(t.pins, s', v, w, |s.dst|)
    decreases Unvisited(t, s), r, v, 0
  {
    assert v in Refs(v);
    var es := t.src[v.a].entries;
    forall i | 0 <= i < |es| ensures CanEnter(t, es[i].key, t.rank(v)) && CanEnter(t, es[i].val, t.rank(v)) {
      EnterShown(t, v, es[i].key);
      EnterShown(t, v, es[i].val);
    }
    var now, out := EntriesExist(t, s, grey, es, t.rank(v));
    TableLoose(t.pins, now, es, out, |s.dst|);
    w := Map(v.t, |now.dst|);
    s' := PublishedExists(t, s, now, grey, v, Table(out), w);
  }

  lemma {:induction false} EachExists(t: Task, s: Progress, grey: set<VisitKey>, vs: seq<Value>, r: nat)
    returns (s': Progress, ws: seq<Value>)
    requires Ready(t, s, grey) && forall i :: 0 <= i < |vs| ==> CanEnter(t, vs[i], r)
    ensures Ready(t, s', grey) && Grows(s, s') && FixedUpTo(t.pins, s', vs, ws, |vs|, |s.dst|)
    decreases Unvisited(t, s), r, vs, 0
  {
    s', ws := s, vs;
    for i := 0 to |vs|
      invariant Ready(t, s', grey) && Grows(s, s') && FixedUpTo(t.pins, s', vs, ws, i, |s.dst|)
    {
      assert CanEnter(t, vs[i], r);
      assert ws[i] == ws[i..][0] == vs[i];
      var now, w := ValueExists(t, s', grey, vs[i], r);
      OneMoreFixed(t.pins, s', now, vs, ws, i, |s.dst|, w);
      s', ws := now, ws[i := w];
    }
  }

  lemma {:induction false} EntriesExist(t: Task, s: Progress, grey: set<VisitKey>, es: seq<Entry>, r: nat)
    returns (s': Progress, out: seq<Entry>)
    requires Ready(t, s, grey) && DistinctKeys(es)
    requires forall i :: 0 <= i < |es| ==>
      Comparable(es[i].key) && CanEnter(t, es[i].key, r) && CanEnter(t, es[i].val, r)
    ensures Ready(t, s', grey) && Grows(s, s') && EntriesFixed(t.pins, s', es, out, |s.dst|)
    decreases Unvisited(t, s), r
  {
    s', out := s, [];
    assert MapKeys(es, |t.src|);
    for i := 0 to |es|
      invariant Ready(t, s', grey) && Grows(s, s') && EntriesFixed(t.pins, s', es[..i], out, |s.dst|)
    {
      var keyed, key := ValueExists(t, s', grey, es[i].key, r);
      var now, val := ValueExists(t, keyed, grey, es[i].val, r);
      FixedStays(t.pins, keyed, now, es[i].key, key, |s'.dst|);
      assert Fixed(t.pins, now, es[i].val, val, |s'.dst|);
      OneMoreEntry(t.pins, s', now, |t.src|, es, i, out, key, val, |s.dst|);
      s', out := now, SetMapIndex(out, key, val);
    }
    assert es[..|es|] == es;
  }

  /** Whatever the cloner may be used on has a clone. */
  lemma CloneableHasClone(h: seq<Object>, pins: Pins, region: set<Value>, v: Value)
    returns (dst: seq<Object>, origin: Origins, w: Value)
    requires Cloneable(h, pins, region, v)
    ensures IsClone(h, dst, origin, pins, v, w) && OriginsIn(origin, pins, region)
  {
    var rank: Value -> nat :| Ranked(h, region, rank);
    var bound := RankBound(region, rank);
    var t := Task(h, pins, region, rank, bound);
    var s;
    s, w := ValueExists(t, Progress(h, map[], map[], map[]), {}, v, bound);
    AllHoused(h, pins, region, s, w);
    dst, origin := s.dst, s.origin;
  }

  ghost predicate HasClone(h: seq<Object>, pins: Pins, v: Value) {
    exists dst, origin, w :: IsClone(h, dst, origin, pins, v, w)
  }

  lemma CloneableHasNoLoop(h: seq<Object>, pins: Pins, region: set<Value>, v: Value)
    requires Cloneable(h, pins, region, v)
    ensures !HasLoop(h, pins, v)
  {
    var dst, origin, w := CloneableHasClone(h, pins, region, v);
    CloneHasNoLoop(h, dst, origin, pins, region, v, w);
  }

  /** A value in order has a clone exactly when no loop of slices and maps can be
      walked from it without following a pointer. */
  lemma CloneExistsExactly(h: seq<Object>, pins: Pins, region: set<Value>, v: Value)
    requires Safe(h, pins, region, v)
    ensures HasClone(h, pins, v) <==> !HasLoop(h, pins, v)
  {
    if HasClone(h, pins, v) {
      var dst, origin, w :| IsClone(h, dst, origin, pins, v, w);
      CloneHasNoLoop(h, dst, origin, pins, region, v, w);
    }
    if !HasLoop(h, pins, v) {
      NoLoopIsCloneable(h, pins, region, v);
      var dst, origin, w := CloneableHasClone(h, pins, ReachedRefs(h, pins, region, v), v);
    }
  }
}
