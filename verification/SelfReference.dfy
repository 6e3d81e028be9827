/** Values that refer to themselves without a pointer: one that cannot be cloned, and
    two that only seem to. */
module SelfReference {
  import opened Options
  import opened Values
  import opened Cloning
  import opened Loops
  import opened CloneExists
  import opened Snapshots

  const MAP: TypeId := 1
  const LIST: TypeId := 2

  // ---------- a map that holds itself ----------

  /** A map from strings to anything that holds itself under one key. */
  const SELF_MAP := Table([Entry(Scalar(0), Iface(Map(MAP, 0)))])

  lemma SelfMapSafe(region: set<Value>)
    requires region == {Map(MAP, 0)}
    ensures Safe([SELF_MAP], NO_PINS, region, Map(MAP, 0))
  {
    var h, m := [SELF_MAP], Map(MAP, 0);
    forall u | Shows(h, m, u) ensures WellTyped(u) && HeldIn(h, NO_PINS, region, u) {
      assert u == Scalar(0) || u == Iface(m);
      assert Refs(Iface(m)) == Refs(m) == {m};
    }
  }

  /** It loops, so it has no clone: the cloner never comes to an end on it. */
  lemma SelfMapHasNoClone()
    ensures HasLoop([SELF_MAP], NO_PINS, Map(MAP, 0)) && !HasClone([SELF_MAP], NO_PINS, Map(MAP, 0))
  {
    var h, m := [SELF_MAP], Map(MAP, 0);
    var q := [EntryValue(0), Unwrap];
    assert q[1..] == [Unwrap] && q[1..][1..] == [];
    assert Walk(h, NO_PINS, m, q) == Some(m) by {
      assert Take(h, NO_PINS, m, EntryValue(0)) == Some(Iface(m));
      assert Walk(h, NO_PINS, Iface(m), [Unwrap]) == Some(m);
    }
    assert Derefs([Unwrap]) == 0;
    assert [] + q == q;
    assert LoopAt(h, NO_PINS, m, [], q);
    SelfMapSafe({m});
    CloneExistsExactly(h, NO_PINS, {m}, m);
  }

  // ---------- arrays that hold slices of themselves ----------

  /** An array whose first element is a slice of its second, which is a number. */
  const WINDOWS := Backing([Slice(LIST, 0, 1, 1, 1), Scalar(5)])

  lemma WindowsCloneable(h: seq<Object>, whole: Value, second: Value)
    requires h == [WINDOWS] && whole == Slice(LIST, 0, 0, 2, 2) && second == Slice(LIST, 0, 1, 1, 1)
    ensures Cloneable(h, NO_PINS, {whole, second}, whole)
  {
    var region := {whole, second};
    assert h[0].elems[0..2] == [second, Scalar(5)] && h[0].elems[1..2] == [Scalar(5)];
    assert Refs(whole) == {whole} && Refs(second) == {second} && Refs(Scalar(5)) == {};
    assert forall u :: Shows(h, second, u) ==> u == Scalar(5);
    assert forall u :: Shows(h, whole, u) ==> u == second || u == Scalar(5);
    assert HeldIn(h, NO_PINS, region, second) && HeldIn(h, NO_PINS, region, Scalar(5));
    var rank := x => if x == whole then 1 else 0;
    forall x, u | x in region && Shows(h, x, u) ensures Below(rank, u, rank(x)) {
      assert x == second ==> u == Scalar(5);
    }
    assert Ranked(h, region, rank);
  }

  lemma WindowsWalk(h: seq<Object>, whole: Value, second: Value)
    requires h == [WINDOWS] && whole == Slice(LIST, 0, 0, 2, 2) && second == Slice(LIST, 0, 1, 1, 1)
    ensures Walk(h, NO_PINS, whole, [Index(0), Index(0)]) == Some(Scalar(5))
  {
    assert [Index(0), Index(0)][1..] == [Index(0)];
    assert Take(h, NO_PINS, whole, Index(0)) == Some(second) && Take(h, NO_PINS, second, Index(0)) == Some(Scalar(5));
    assert Walk(h, NO_PINS, second, [Index(0)]) == Some(Scalar(5));
  }

  /** The whole array can be cloned: the slice inside it shows the second element only. */
  method CloneOfWindows() returns (h: seq<Object>, w: Value)
    ensures w.Slice? && w.len == 2 && w.cap == 2
    ensures Walk(h, NO_PINS, w, [Index(0), Index(0)]) == Some(Scalar(5))
  {
    var mem := new Memory();
    var a := mem.Alloc(WINDOWS);
    var whole, second := Slice(LIST, a, 0, 2, 2), Slice(LIST, a, 1, 1, 1);
    ghost var src := mem.objs;
    assert src == [WINDOWS];
    WindowsCloneable(src, whole, second);
    WindowsWalk(src, whole, second);
    CloneableHasNoLoop(src, NO_PINS, {whole, second}, whole);
    ghost var origin;
    w, origin := CloneValuePinned(mem, NO_PINS, whole, {whole, second});
    WalkTogether(src, mem.objs, origin, NO_PINS, {whole, second}, whole, w, [Index(0), Index(0)]);
    return mem.objs, w;
  }

  /** So can an empty slice of an array that holds the slice of its whole self. */
  lemma EmptySliceHasClone(h: seq<Object>, v: Value)
    requires h == [Backing([Slice(LIST, 0, 0, 1, 1)])] && v == Slice(LIST, 0, 0, 0, 1)
    ensures HasClone(h, NO_PINS, v)
  {
    assert h[0].elems[0..0] == [];
    assert Refs(v) == {v};
    assert Ranked(h, {v}, (_: Value) => 0);
    var dst, origin, w := CloneableHasClone(h, NO_PINS, {v}, v);
  }
}
