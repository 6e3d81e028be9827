/** Where inside a value, or among the parts of an object, a backing array or a map
    is held. */
module Positions {
  import opened Options
  import opened Values
  import opened Ownership
  import opened Cloning

  predicate IsStorage(x: Value) {
    x.Slice? || x.Map?
  }

  /** The part of a value at the end of a path that follows no reference. */
  function Part(v: Value, p: Path): Option<Value> {
    Walk([], NO_PINS, v, p)
  }

  lemma {:induction false} PartInStorage(v: Value, p: Path)
    requires Part(v, p).Some? && IsStorage(Part(v, p).value)
    ensures Part(v, p).value.a in Storage(v)
    decreases p
  {
    var x := Part(v, p).value;
    if p == [] {
      assert x in Refs(v);
    } else {
      var f := Take([], NO_PINS, v, p[0]).value;
      PartInStorage(f, p[1..]);
      assert Refs(f) <= Refs(v);
    }
  }

  /** In a value without sharing, a backing array or map stands at one position. */
  lemma {:induction false} OnePosition(v: Value, p: Path, q: Path)
    requires Unshared(v) && Part(v, p).Some? && Part(v, q).Some?
    requires IsStorage(Part(v, p).value) && IsStorage(Part(v, q).value) && Part(v, p).value.a == Part(v, q).value.a
    ensures p == q
    decreases |p|
  {
    if p == [] || q == [] {
    } else {
      var f, g := Take([], NO_PINS, v, p[0]).value, Take([], NO_PINS, v, q[0]).value;
      PartInStorage(f, p[1..]);
      PartInStorage(g, q[1..]);
      assert p[0] == q[0];
      OnePosition(f, p[1..], q[1..]);
      assert p == [p[0]] + p[1..] && q == [q[0]] + q[1..];
    }
  }

  /** The parts at r of x and at r' of y are slices or maps of one address. */
  ghost predicate SameEnd(x: Value, r: Path, y: Value, r': Path) {
    && Part(x, r).Some? && IsStorage(Part(x, r).value)
    && Part(y, r').Some? && IsStorage(Part(y, r').value)
    && Part(x, r).value.a == Part(y, r').value.a
  }
}
