/** Which parts of a clone are one and the same memory. Pointers of one type are
    shared as in the source; backing arrays and maps are shared only by going
    through a shared pointer, whatever the source shared. */
module Sharing {
  import opened Options
  import opened Values
  import opened Cloning
  import opened Positions
  import opened ClonePlaces

  // ---------- sharing, as walks see it ----------

  /** Both paths end in unpinned pointers to one cell, of whatever types. */
  ghost predicate SameCell(h: seq<Object>, pins: Pins, v: Value, p: Path, q: Path) {
    var x, y := Walk(h, pins, v, p), Walk(h, pins, v, q);
    && x.Some? && x.value.Ptr? && !Pinned(pins, x.value)
    && y.Some? && y.value.Ptr? && !Pinned(pins, y.value) && x.value.a == y.value.a
  }

  ghost predicate EndsInStorage(h: seq<Object>, pins: Pins, v: Value, p: Path) {
    Walk(h, pins, v, p).Some? && IsStorage(Walk(h, pins, v, p).value)
  }

  /** Both paths end in slices over one backing array, or in one map. */
  ghost predicate SameStorage(h: seq<Object>, pins: Pins, v: Value, p: Path, q: Path) {
    && EndsInStorage(h, pins, v, p) && EndsInStorage(h, pins, v, q)
    && Walk(h, pins, v, p).value.a == Walk(h, pins, v, q).value.a
  }

  /** After i and j steps the paths are at one pointer, and go on together. */
  ghost predicate MeetAt(h: seq<Object>, pins: Pins, v: Value, p: Path, q: Path, i: nat, j: nat) {
    i < |p| && j < |q| && p[i..] == q[j..] && Aliased(h, pins, v, p[..i], q[..j])
  }

  ghost predicate ThroughOnePointer(h: seq<Object>, pins: Pins, v: Value, p: Path, q: Path) {
    exists i: nat, j: nat :: MeetAt(h, pins, v, p, q, i, j)
  }

  ghost predicate OnePlace(h: seq<Object>, pins: Pins, v: Value, p: Path, q: Path) {
    p == q || ThroughOnePointer(h, pins, v, p, q)
  }

  lemma OnePlaceExtends(h: seq<Object>, pins: Pins, v: Value, p: Path, q: Path, r: Path)
    requires OnePlace(h, pins, v, p, q)
    ensures OnePlace(h, pins, v, p + r, q + r)
  {
    if p != q {
      var i: nat, j: nat :| MeetAt(h, pins, v, p, q, i, j);
      assert (p + r)[..i] == p[..i] && (q + r)[..j] == q[..j];
      assert (p + r)[i..] == p[i..] + r == (q + r)[j..];
      assert MeetAt(h, pins, v, p + r, q + r, i, j);
    }
  }

  lemma OnePlaceRegrouped(h: seq<Object>, pins: Pins, v: Value, p: Path, q: Path, s: Step, r: Path)
    requires OnePlace(h, pins, v, p + ([s] + r), q + ([s] + r))
    ensures OnePlace(h, pins, v, (p + [s]) + r, (q + [s]) + r)
  {
    assert (p + [s]) + r == p + ([s] + r) && (q + [s]) + r == q + ([s] + r);
  }

  lemma OnePlaceIsShared(h: seq<Object>, pins: Pins, v: Value, p: Path, q: Path)
    requires EndsInStorage(h, pins, v, p) && OnePlace(h, pins, v, p, q)
    ensures SameStorage(h, pins, v, p, q)
  {
    if p != q {
      var i: nat, j: nat :| MeetAt(h, pins, v, p, q, i, j);
      assert p == p[..i] + p[i..] && q == q[..j] + q[j..];
      WalkAppend(h, pins, v, p[..i], p[i..]);
      WalkAppend(h, pins, v, q[..j], q[j..]);
    }
  }

  lemma SamePlaces(
    h1: seq<Object>, p1: Pins, v1: Value, h2: seq<Object>, p2: Pins, v2: Value, p: Path, q: Path)
    requires SameShape(h1, p1, v1, h2, p2, v2)
    ensures ThroughOnePointer(h1, p1, v1, p, q) <==> ThroughOnePointer(h2, p2, v2, p, q)
  {
    forall i: nat, j: nat ensures MeetAt(h1, p1, v1, p, q, i, j) <==> MeetAt(h2, p2, v2, p, q, i, j) {
      if i < |p| && j < |q| {
        assert Aliased(h1, p1, v1, p[..i], q[..j]) <==> Aliased(h2, p2, v2, p[..i], q[..j]);
      }
    }
  }

  // ---------- paths through a clone that end together ----------

  lemma PointersAlias(c: Copy, p: Path, q: Path)
    requires IsCopy(c) && SameCell(c.dst, c.pins, c.w, p, q)
    ensures Aliased(c.src, c.pins, c.v, p, q)
  {
    EndIsNew(c, p);
    EndIsNew(c, q);
    CloneHasSameShape(c.src, c.dst, c.origin, c.pins, c.region, c.v, c.w);
    assert Aliased(c.dst, c.pins, c.w, p, q);
  }

  lemma AliasedMeet(h: seq<Object>, pins: Pins, v: Value, p: Path, q: Path, r: Path)
    requires Aliased(h, pins, v, p, q) && r != []
    ensures ThroughOnePointer(h, pins, v, p + r, q + r)
  {
    assert (p + r)[..|p|] == p && (q + r)[..|q|] == q && (p + r)[|p|..] == r == (q + r)[|q|..];
    assert MeetAt(h, pins, v, p + r, q + r, |p|, |q|);
  }

  lemma MeetInPointer(c: Copy, p: Path, q: Path, s: Step, r: Path)
    requires IsCopy(c) && Hops(c, p, s) && Hops(c, q, s)
    requires End(c, p).value.Ptr? && End(c, q).value.Ptr? && End(c, p).value.a == End(c, q).value.a
    ensures ThroughOnePointer(c.src, c.pins, c.v, p + ([s] + r), q + ([s] + r))
  {
    PointersAlias(c, p, q);
    AliasedMeet(c.src, c.pins, c.v, p, q, [s] + r);
  }

  lemma LastStep(c: Copy, p: Path, s: Step)
    requires End(c, p + [s]).Some?
    ensures End(c, p).Some? && End(c, p + [s]) == Take(c.dst, c.pins, End(c, p).value, s)
  {
    WalkAppend(c.dst, c.pins, c.w, p, [s]);
  }

  /** A step that follows no reference is moved from the path to the part. */
  lemma PartPrepends(c: Copy, p: Path, s: Step, r: Path)
    requires End(c, p).Some? && !IsRef(End(c, p).value) && Take(c.dst, c.pins, End(c, p).value, s).Some?
    ensures Part(End(c, p).value, [s] + r) == Part(Take(c.dst, c.pins, End(c, p).value, s).value, r)
    ensures p + ([s] + r) == (p + [s]) + r
  {
    assert ([s] + r)[1..] == r;
  }

  /** Paths through a clone that end in one backing array or map are the same, or
      meet in a pointer of the source and are the same from there on. */
  lemma {:induction false} EndsShared(c: Copy, p: Path, q: Path, r: Path, r': Path)
    requires IsCopy(c) && End(c, p).Some? && End(c, q).Some? && SameEnd(End(c, p).value, r, End(c, q).value, r')
    ensures OnePlace(c.src, c.pins, c.v, p + r, q + r')
    decreases |p| + |q|, 3
  {
    if p == [] {
      EndsAtRoot(c, q, r, r');
    } else {
      var p1, s := p[..|p| - 1], p[|p| - 1];
      assert p == p1 + [s];
      LastStep(c, p1, s);
      if !IsRef(End(c, p1).value) {
        PartPrepends(c, p1, s, r);
        EndsShared(c, p1, q, [s] + r, r');
      } else {
        EndsInObject(c, p1, s, q, r, r');
      }
    }
  }

  lemma {:induction false} EndsAtRoot(c: Copy, q: Path, r: Path, r': Path)
    requires IsCopy(c) && End(c, q).Some? && SameEnd(c.w, r, End(c, q).value, r')
    ensures r == q + r'
    decreases |q|, 0
  {
    if q == [] {
      OnePosition(c.w, r, r');
    } else {
      var q1, s := q[..|q| - 1], q[|q| - 1];
      assert q == q1 + [s];
      LastStep(c, q1, s);
      if !IsRef(End(c, q1).value) {
        PartPrepends(c, q1, s, r');
        EndsAtRoot(c, q1, r, [s] + r');
      } else {
        RootOrObject(c, r, q1, s, r');
      }
    }
  }

  lemma {:induction false} EndsInObject(c: Copy, p: Path, s: Step, q: Path, r: Path, r': Path)
    requires IsCopy(c) && Hops(c, p, s) && End(c, q).Some? && SameEnd(Next(c, p, s), r, End(c, q).value, r')
    ensures OnePlace(c.src, c.pins, c.v, (p + [s]) + r, q + r')
    decreases |p| + 1 + |q|, 2
  {
    if q == [] {
      RootOrObject(c, r', p, s, r);
    } else {
      var q1, s' := q[..|q| - 1], q[|q| - 1];
      assert q == q1 + [s'];
      LastStep(c, q1, s');
      if !IsRef(End(c, q1).value) {
        PartPrepends(c, q1, s', r');
        EndsInObject(c, p, s, q1, r, [s'] + r');
      } else {
        LastHopsTogether(c, p, s, q1, s', r, r');
      }
    }
  }

  lemma {:induction false} LastHopsTogether(
    c: Copy, p: Path, s: Step, q: Path, s': Step, r: Path, r': Path)
    requires IsCopy(c) && Hops(c, p, s) && Hops(c, q, s') && SameEnd(Next(c, p, s), r, Next(c, q, s'), r')
    ensures OnePlace(c.src, c.pins, c.v, (p + [s]) + r, (q + [s']) + r')
    decreases |p| + |q| + 2, 1
  {
    LastHopsAgree(c, p, s, q, s', r, r');
    EndsHopTogether(c, p, q, s, r);
    OnePlaceRegrouped(c.src, c.pins, c.v, p, q, s, r);
  }

  lemma {:induction false} EndsHopTogether(c: Copy, p: Path, q: Path, s: Step, r: Path)
    requires IsCopy(c) && Hops(c, p, s) && Hops(c, q, s) && End(c, p).value.a == End(c, q).value.a
    ensures OnePlace(c.src, c.pins, c.v, p + ([s] + r), q + ([s] + r))
    decreases |p| + |q| + 2, 0
  {
    var x, y := End(c, p).value, End(c, q).value;
    assert x.Ptr? == y.Ptr? by {
      EndIsNew(c, p);
      EndIsNew(c, q);
    }
    if x.Ptr? {
      MeetInPointer(c, p, q, s, r);
    } else {
      assert Part(x, []) == Some(x) && Part(y, []) == Some(y);
      EndsShared(c, p, q, [], []);
      assert p + [] == p && q + [] == q;
      OnePlaceExtends(c.src, c.pins, c.v, p, q, [s] + r);
    }
  }

  // ---------- which ends of a clone are shared ----------

  lemma SharedEnds(c: Copy, p: Path, q: Path)
    requires IsCopy(c)
    ensures SameStorage(c.dst, c.pins, c.w, p, q) <==>
      EndsInStorage(c.src, c.pins, c.v, p) && OnePlace(c.src, c.pins, c.v, p, q)
  {
    CloneHasSameShape(c.src, c.dst, c.origin, c.pins, c.region, c.v, c.w);
    if SameStorage(c.dst, c.pins, c.w, p, q) { SharedStorageIsOnePlace(c, p, q); }
    PlacesShared(c.src, c.pins, c.v, c.dst, c.pins, c.w, p, q);
  }

  lemma SharedStorageIsOnePlace(c: Copy, p: Path, q: Path)
    requires IsCopy(c) && SameStorage(c.dst, c.pins, c.w, p, q)
    ensures OnePlace(c.src, c.pins, c.v, p, q)
  {
    EndsShared(c, p, q, [], []);
    assert p + [] == p && q + [] == q;
  }

  lemma PlacesShared(
    h1: seq<Object>, p1: Pins, v1: Value, h2: seq<Object>, p2: Pins, v2: Value, p: Path, q: Path)
    requires SameShape(h1, p1, v1, h2, p2, v2)
    ensures EndsInStorage(h1, p1, v1, p) <==> EndsInStorage(h2, p2, v2, p)
    ensures EndsInStorage(h1, p1, v1, p) && OnePlace(h1, p1, v1, p, q) ==> SameStorage(h2, p2, v2, p, q)
  {
    assert Observe(h1, p1, v1, p) == Observe(h2, p2, v2, p);
    SamePlaces(h1, p1, v1, h2, p2, v2, p, q);
    if EndsInStorage(h2, p2, v2, p) && OnePlace(h2, p2, v2, p, q) { OnePlaceIsShared(h2, p2, v2, p, q); }
  }

  lemma SharedCells(c: Copy, p: Path, q: Path)
    requires IsCopy(c)
    ensures SameCell(c.dst, c.pins, c.w, p, q) <==> Aliased(c.src, c.pins, c.v, p, q)
  {
    if SameCell(c.dst, c.pins, c.w, p, q) { PointersAlias(c, p, q); }
    if Aliased(c.src, c.pins, c.v, p, q) {
      CloneHasSameShape(c.src, c.dst, c.origin, c.pins, c.region, c.v, c.w);
      assert Aliased(c.dst, c.pins, c.w, p, q);
    }
  }
}
