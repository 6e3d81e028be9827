/** Two values whose sharing the cloner does not reproduce. */
module SharingLost {
  import opened Values
  import opened Ownership
  import opened Cloning
  import opened Separation
  import opened CloneExists
  import opened Snapshots

  const PAIR: TypeId := 9

  lemma OneObjectCloneable(o: Object, region: set<Value>, v: Value)
    requires WellTyped(v) && ProperKeys(o) && forall x :: Holds(o, x) ==> WellTyped(x) && Refs(x) == {}
    requires forall x :: x in region ==> IsRef(x) && x.a == 0 && Resolves([o], x)
    requires Refs(v) <= region
    ensures Cloneable([o], NO_PINS, region, v)
  {
    forall x, w | x in region && Shows([o], x, w) ensures Holds(o, w) {
      ShownIsHeld([o], x, w);
    }
    assert Ranked([o], region, (_: Value) => 0);
  }

  lemma PairRefs(v: Value, x: Value)
    requires v.Struct? && |v.fields| == 2 && x in Refs(v) && IsRef(v.fields[0]) && IsRef(v.fields[1])
    ensures x == v.fields[0] || x == v.fields[1]
  {
  }

  lemma PairRenamed(src: seq<Object>, dst: seq<Object>, origin: Origins, x: Value, y: Value, w: Value)
    requires IsClone(src, dst, origin, NO_PINS, Struct(PAIR, [x, y]), w)
    ensures w.Struct? && |w.fields| == 2
    ensures Renamed(origin, NO_PINS, x, w.fields[0]) && Renamed(origin, NO_PINS, y, w.fields[1])
    ensures Storage(w.fields[0]) !! Storage(w.fields[1])
  {
    var v := Struct(PAIR, [x, y]);
    assert Renamed(origin, NO_PINS, v.fields[0], w.fields[0]) && Renamed(origin, NO_PINS, v.fields[1], w.fields[1]);
    assert Unshared(w);
  }

  /** Every clone of a pair that holds one map twice holds two maps. */
  lemma MapSplits(src: seq<Object>, dst: seq<Object>, origin: Origins, t: TypeId, a: Addr, w: Value)
    requires IsClone(src, dst, origin, NO_PINS, Struct(PAIR, [Map(t, a), Map(t, a)]), w)
    ensures w.Struct? && |w.fields| == 2 && w.fields[0].Map? && w.fields[1].Map? && w.fields[0] != w.fields[1]
  {
    PairRenamed(src, dst, origin, Map(t, a), Map(t, a), w);
    assert w.fields[0] in Refs(w.fields[0]);
    assert w.fields[0].a in Storage(w.fields[0]);
  }

  /** Every clone of a pair of pointers of two types to one cell points to two cells. */
  lemma CellSplits(src: seq<Object>, dst: seq<Object>, origin: Origins, t: TypeId, t': TypeId, a: Addr, w: Value)
    requires t != t' && IsClone(src, dst, origin, NO_PINS, Struct(PAIR, [Ptr(t, a), Ptr(t', a)]), w)
    ensures w.Struct? && |w.fields| == 2 && w.fields[0].Ptr? && w.fields[1].Ptr? && w.fields[0].a != w.fields[1].a
  {
    PairRenamed(src, dst, origin, Ptr(t, a), Ptr(t', a), w);
  }

  /** A map held by two fields becomes two maps. */
  method MapHeldTwice() returns (v: Value, w: Value)
    ensures v == Struct(PAIR, [Map(1, 0), Map(1, 0)])
    ensures w.Struct? && |w.fields| == 2 && w.fields[0].Map? && w.fields[1].Map? && w.fields[0] != w.fields[1]
  {
    var mem := new Memory();
    var a := mem.Alloc(Table([]));
    v := Struct(PAIR, [Map(1, a), Map(1, a)]);
    assert forall x :: x in Refs(v) ==> x == Map(1, 0) by {
      forall x | x in Refs(v) ensures x == Map(1, 0) { PairRefs(v, x); }
    }
    OneObjectCloneable(Table([]), {Map(1, 0)}, v);
    CloneableHasNoLoop([Table([])], NO_PINS, {Map(1, 0)}, v);
    assert mem.objs == [Table([])];
    ghost var origin;
    w, origin := CloneValuePinned(mem, NO_PINS, v, {Map(1, 0)});
    MapSplits([Table([])], mem.objs, origin, 1, 0, w);
  }

  /** A cell reached by pointers of two types becomes two cells. */
  method CellOfTwoTypes() returns (v: Value, w: Value)
    ensures v == Struct(PAIR, [Ptr(1, 0), Ptr(2, 0)])
    ensures w.Struct? && |w.fields| == 2 && w.fields[0].Ptr? && w.fields[1].Ptr? && w.fields[0].a != w.fields[1].a
  {
    var mem := new Memory();
    var a := mem.Alloc(Cell(Scalar(5)));
    v := Struct(PAIR, [Ptr(1, a), Ptr(2, a)]);
    assert forall x :: x in Refs(v) ==> x == Ptr(1, 0) || x == Ptr(2, 0) by {
      forall x | x in Refs(v) ensures x == Ptr(1, 0) || x == Ptr(2, 0) { PairRefs(v, x); }
    }
    assert mem.objs == [Cell(Scalar(5))];
    OneObjectCloneable(Cell(Scalar(5)), {Ptr(1, 0), Ptr(2, 0)}, v);
    CloneableHasNoLoop([Cell(Scalar(5))], NO_PINS, {Ptr(1, 0), Ptr(2, 0)}, v);
    ghost var origin;
    w, origin := CloneValuePinned(mem, NO_PINS, v, {Ptr(1, 0), Ptr(2, 0)});
    CellSplits([Cell(Scalar(5))], mem.objs, origin, 1, 2, 0, w);
  }
}
