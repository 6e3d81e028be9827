/** A value without loops can be cloned: ranking slices and maps by how many others
    lie below them. */
module LoopFree {
  import opened Options
  import opened FiniteSets
  import opened Values
  import opened Cloning
  import opened Positions
  import opened Loops

  /** x leads to y without following a pointer. */
  ghost predicate Leads(h: seq<Object>, pins: Pins, x: Value, y: Value) {
    exists q :: q != [] && Derefs(q) == 0 && Walk(h, pins, x, q) == Some(y)
  }

  ghost predicate Reachable(h: seq<Object>, pins: Pins, v: Value, x: Value) {
    exists p :: Walk(h, pins, v, p) == Some(x)
  }

  lemma LeadsOn(h: seq<Object>, pins: Pins, x: Value, y: Value, z: Value)
    requires Leads(h, pins, x, y) && Leads(h, pins, y, z)
    ensures Leads(h, pins, x, z)
  {
    var p :| p != [] && Derefs(p) == 0 && Walk(h, pins, x, p) == Some(y);
    var q :| q != [] && Derefs(q) == 0 && Walk(h, pins, y, q) == Some(z);
    WalkAppend(h, pins, x, p, q);
    DerefsAppend(p, q);
  }

  /** A reference a value holds is a part of it. */
  lemma {:induction false} RefIsPart(h: seq<Object>, pins: Pins, u: Value, y: Value) returns (q: Path)
    requires y in Refs(u)
    ensures Derefs(q) == 0 && Walk(h, pins, u, q) == Some(y)
  {
    match u
    case Struct(_, fs) =>
      var i :| 0 <= i < |fs| && y in Refs(fs[i]);
      var r := RefIsPart(h, pins, fs[i], y);
      q := [Field(i)] + r;
      assert q[1..] == r;
    case Array(_, es) =>
      var i :| 0 <= i < |es| && y in Refs(es[i]);
      var r := RefIsPart(h, pins, es[i], y);
      q := [Elem(i)] + r;
      assert q[1..] == r;
    case Iface(d) =>
      var r := RefIsPart(h, pins, d, y);
      q := [Unwrap] + r;
      assert q[1..] == r;
    case _ =>
      q := [];
  }

  /** What a reference shows is one step from it. */
  lemma ShownIsTaken(h: seq<Object>, pins: Pins, x: Value, u: Value) returns (s: Step)
    requires IsRef(x) && Resolves(h, x) && !Pinned(pins, x) && Shows(h, x, u)
    ensures Take(h, pins, x, s) == Some(u) && (s == Deref <==> x.Ptr?)
  {
    match x
    case Ptr(_, _) =>
      s := Deref;
    case Slice(_, a, off, len, _) =>
      var i :| 0 <= i < len && h[a].elems[off..off + len][i] == u;
      s := Index(i);
    case Map(_, a) =>
      var es := h[a].entries;
      var i :| 0 <= i < |es| && (u == es[i].key || u == es[i].val);
      s := if u == es[i].key then EntryKey(i) else EntryValue(i);
  }

  lemma ShownRefs(h: seq<Object>, pins: Pins, x: Value, u: Value, y: Value) returns (q: Path)
    requires IsRef(x) && Resolves(h, x) && !Pinned(pins, x) && Shows(h, x, u) && y in Refs(u)
    ensures q != [] && Walk(h, pins, x, q) == Some(y) && (x.Ptr? || Derefs(q) == 0)
  {
    var s := ShownIsTaken(h, pins, x, u);
    var r := RefIsPart(h, pins, u, y);
    q := [s] + r;
    assert q[1..] == r;
  }

  // ---------- the references that are reached ----------

  ghost function ReachedRefs(h: seq<Object>, pins: Pins, region: set<Value>, v: Value): set<Value> {
    set x | x in region && !Pinned(pins, x) && Reachable(h, pins, v, x)
  }

  lemma ReachedOn(h: seq<Object>, pins: Pins, v: Value, x: Value, q: Path, y: Value)
    requires Reachable(h, pins, v, x) && Walk(h, pins, x, q) == Some(y)
    ensures Reachable(h, pins, v, y)
  {
    var p :| Walk(h, pins, v, p) == Some(x);
    WalkAppend(h, pins, v, p, q);
  }

  lemma ReachedIsSafe(h: seq<Object>, pins: Pins, region: set<Value>, v: Value)
    requires Safe(h, pins, region, v)
    ensures Safe(h, pins, ReachedRefs(h, pins, region, v), v)
  {
    var reached := ReachedRefs(h, pins, region, v);
    forall x | x in Refs(v) && !Pinned(pins, x) ensures x in reached {
      var q := RefIsPart(h, pins, v, x);
    }
    forall x, u | x in reached && Shows(h, x, u) ensures WellTyped(u) && HeldIn(h, pins, reached, u) {
      forall y | y in Refs(u) && !Pinned(pins, y) ensures y in reached {
        var q := ShownRefs(h, pins, x, u, y);
        ReachedOn(h, pins, v, x, q, y);
      }
    }
  }

  // ---------- the rank ----------

  ghost function BelowIn(h: seq<Object>, pins: Pins, refs: set<Value>, x: Value): set<Value> {
    set y | y in refs && Leads(h, pins, x, y)
  }

  lemma NoLoopNoReturn(h: seq<Object>, pins: Pins, v: Value, x: Value)
    requires !HasLoop(h, pins, v) && Reachable(h, pins, v, x) && IsStorage(x)
    ensures !Leads(h, pins, x, x)
  {
    if Leads(h, pins, x, x) {
      var p :| Walk(h, pins, v, p) == Some(x);
      var q :| q != [] && Derefs(q) == 0 && Walk(h, pins, x, q) == Some(x);
      WalkAppend(h, pins, v, p, q);
      assert LoopAt(h, pins, v, p, q);
    }
  }

  lemma BelowShrinks(h: seq<Object>, pins: Pins, refs: set<Value>, v: Value, x: Value, y: Value)
    requires !HasLoop(h, pins, v) && Reachable(h, pins, v, y) && IsStorage(y)
    requires y in refs && Leads(h, pins, x, y)
    ensures |BelowIn(h, pins, refs, y)| < |BelowIn(h, pins, refs, x)|
  {
    NoLoopNoReturn(h, pins, v, y);
    var lower, upper := BelowIn(h, pins, refs, y), BelowIn(h, pins, refs, x);
    forall z | z in lower ensures z in upper { LeadsOn(h, pins, x, y, z); }
    assert y in upper && y !in lower;
    SubsetSize(lower, upper);
  }

  /** If no loop can be walked from v, the cloner may be used on it. */
  lemma NoLoopIsCloneable(h: seq<Object>, pins: Pins, region: set<Value>, v: Value)
    requires Safe(h, pins, region, v) && !HasLoop(h, pins, v)
    ensures Cloneable(h, pins, ReachedRefs(h, pins, region, v), v)
  {
    var reached := ReachedRefs(h, pins, region, v);
    ReachedIsSafe(h, pins, region, v);
    var rank: Value -> nat := RankIn(h, pins, reached);
    forall x, u | x in reached && !x.Ptr? && Shows(h, x, u) ensures Below(rank, u, rank(x)) {
      forall y | y in Refs(u) && !y.Ptr? ensures rank(y) < rank(x) {
        var q := ShownRefs(h, pins, x, u, y);
        assert y in reached;
        BelowShrinks(h, pins, reached, v, x, y);
      }
    }
    assert Ranked(h, reached, rank);
  }

  ghost function RankIn(h: seq<Object>, pins: Pins, refs: set<Value>): Value -> nat {
    x => |BelowIn(h, pins, refs, x)|
  }
}
