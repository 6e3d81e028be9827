/** The values that can be cloned: those from which no loop of slices and maps can
    be walked without following a pointer. */
module Loops {
  import opened FiniteSets
  import opened Values
  import opened Cloning
  import opened Positions
  import opened ClonePlaces
  import opened Sharing
  import opened Separation

  // ---------- loops ----------

  function Derefs(p: Path): nat {
    if p == [] then 0 else (if p[0] == Deref then 1 else 0) + Derefs(p[1..])
  }

  lemma {:induction false} DerefsAppend(p: Path, q: Path)
    ensures Derefs(p + q) == Derefs(p) + Derefs(q)
  {
    if p == [] {
      assert p + q == q;
    } else {
      DerefsAppend(p[1..], q);
      assert (p + q)[1..] == p[1..] + q;
    }
  }

  lemma {:induction false} DerefCounts(p: Path, i: nat)
    requires i < |p| && p[i] == Deref
    ensures Derefs(p) > 0
  {
    if i == 0 {
    } else {
      DerefCounts(p[1..], i - 1);
    }
  }

  /** p leads to a slice or map, and q from there back to it without following a pointer. */
  ghost predicate LoopAt(h: seq<Object>, pins: Pins, v: Value, p: Path, q: Path) {
    && q != [] && Derefs(q) == 0
    && EndsInStorage(h, pins, v, p) && Walk(h, pins, v, p + q) == Walk(h, pins, v, p)
  }

  ghost predicate HasLoop(h: seq<Object>, pins: Pins, v: Value) {
    exists p, q :: LoopAt(h, pins, v, p, q)
  }

  lemma UnwrappedHasNoLoop(h: seq<Object>, pins: Pins, d: Value)
    requires !HasLoop(h, pins, Iface(d))
    ensures !HasLoop(h, pins, d)
  {
    if HasLoop(h, pins, d) {
      var p, q :| LoopAt(h, pins, d, p, q);
      var p' := [Unwrap] + p;
      assert p'[1..] == p && p' + q == [Unwrap] + (p + q) && (p' + q)[1..] == p + q;
      assert LoopAt(h, pins, Iface(d), p', q);
    }
  }

  /** Whether a value loops shows in its region only. */
  lemma NoLoopStays(h: seq<Object>, h': seq<Object>, pins: Pins, region: set<Value>, v: Value)
    requires Region(h, pins, region) && HeldIn(h, pins, region, v) && AgreeOn(region, h, h')
    requires !HasLoop(h, pins, v)
    ensures !HasLoop(h', pins, v)
  {
    if HasLoop(h', pins, v) {
      var p, q :| LoopAt(h', pins, v, p, q);
      WalkUnchanged(h, h', pins, region, v, p);
      WalkUnchanged(h, h', pins, region, v, p + q);
      assert LoopAt(h, pins, v, p, q);
    }
  }

  // ---------- a loop has no clone ----------

  /** p, then k times q. */
  function Rounds(p: Path, q: Path, k: nat): Path {
    if k == 0 then p else Rounds(p, q, k - 1) + q
  }

  lemma {:induction false} RoundsEnd(h: seq<Object>, pins: Pins, v: Value, p: Path, q: Path, k: nat)
    requires LoopAt(h, pins, v, p, q)
    ensures Walk(h, pins, v, Rounds(p, q, k)) == Walk(h, pins, v, p)
  {
    if k == 0 {
    } else {
      RoundsEnd(h, pins, v, p, q, k - 1);
      WalkAppend(h, pins, v, Rounds(p, q, k - 1), q);
      WalkAppend(h, pins, v, p, q);
    }
  }

  lemma {:induction false} RoundsShape(p: Path, q: Path, k: nat)
    requires Derefs(q) == 0
    ensures p <= Rounds(p, q, k) && Derefs(Rounds(p, q, k)[|p|..]) == 0 && Derefs(Rounds(p, q, k)) == Derefs(p)
  {
    if k == 0 {
    } else {
      RoundsShape(p, q, k - 1);
      var r := Rounds(p, q, k - 1);
      assert (r + q)[|p|..] == r[|p|..] + q;
      DerefsAppend(r[|p|..], q);
      DerefsAppend(r, q);
    }
  }

  lemma {:induction false} RoundsGrow(p: Path, q: Path, i: nat, j: nat)
    requires q != [] && i < j
    ensures |Rounds(p, q, i)| < |Rounds(p, q, j)|
    decreases j
  {
    if i == j - 1 {
    } else {
      RoundsGrow(p, q, i, j - 1);
    }
  }

  /** Where a path meets another in a pointer, it goes on with Deref, so before q begins. */
  lemma MeetsEarly(h: seq<Object>, pins: Pins, v: Value, p: Path, q: Path, k: nat, a: nat)
    requires LoopAt(h, pins, v, p, q) && a < |Rounds(p, q, k)|
    requires var x := Walk(h, pins, v, Rounds(p, q, k)[..a]); x.Some? && x.value.Ptr?
    ensures a < |p| && p[a] == Deref && Rounds(p, q, k)[..a] == p[..a]
  {
    var r := Rounds(p, q, k);
    RoundsEnd(h, pins, v, p, q, k);
    RoundsShape(p, q, k);
    WalkAppend(h, pins, v, r[..a], r[a..]);
    assert r == r[..a] + r[a..];
    assert r[a] == Deref;
    if |p| <= a {
      DerefCounts(r[|p|..], a - |p|);
    }
  }

  lemma DerefsBefore(p: Path, a: nat, b: nat)
    requires a < b <= |p| && p[a] == Deref
    ensures Derefs(p[..a]) < Derefs(p[..b])
  {
    assert p[..b] == p[..a] + p[a..b];
    DerefsAppend(p[..a], p[a..b]);
    DerefCounts(p[a..b], 0);
  }

  lemma RoundsMeetNowhere(h: seq<Object>, pins: Pins, v: Value, p: Path, q: Path, i: nat, j: nat, a: nat, b: nat)
    requires LoopAt(h, pins, v, p, q) && i < j
    requires a < |Rounds(p, q, i)| && b < |Rounds(p, q, j)| && Rounds(p, q, i)[a..] == Rounds(p, q, j)[b..]
    ensures !Aliased(h, pins, v, Rounds(p, q, i)[..a], Rounds(p, q, j)[..b])
  {
    var r, s := Rounds(p, q, i), Rounds(p, q, j);
    if Aliased(h, pins, v, r[..a], s[..b]) {
      MeetsEarly(h, pins, v, p, q, i, a);
      MeetsEarly(h, pins, v, p, q, j, b);
      RoundsShape(p, q, i);
      RoundsShape(p, q, j);
      RoundsGrow(p, q, i, j);
      assert r == r[..a] + r[a..] && s == s[..b] + s[b..];
      DerefsAppend(r[..a], r[a..]);
      DerefsAppend(s[..b], s[b..]);
      DerefsBefore(p, a, b);
    }
  }

  /** Two numbers of rounds are never one place. */
  lemma RoundsApart(h: seq<Object>, pins: Pins, v: Value, p: Path, q: Path, i: nat, j: nat)
    requires LoopAt(h, pins, v, p, q) && i < j
    ensures !OnePlace(h, pins, v, Rounds(p, q, i), Rounds(p, q, j))
  {
    var r, s := Rounds(p, q, i), Rounds(p, q, j);
    RoundsGrow(p, q, i, j);
    if ThroughOnePointer(h, pins, v, r, s) {
      var a: nat, b: nat :| MeetAt(h, pins, v, r, s, a, b);
      RoundsMeetNowhere(h, pins, v, p, q, i, j, a, b);
    }
  }

  /** The address at which k rounds through a clone end. */
  ghost function RoundEnd(c: Copy, p: Path, q: Path, k: nat): Addr {
    var x := End(c, Rounds(p, q, k));
    if x.Some? && IsStorage(x.value) then x.value.a else 0
  }

  /** In a clone, every further round would end in another new object. */
  lemma RoundIsNew(c: Copy, p: Path, q: Path, k: nat)
    requires IsCopy(c) && LoopAt(c.src, c.pins, c.v, p, q)
    ensures EndsInStorage(c.dst, c.pins, c.w, Rounds(p, q, k))
    ensures |c.src| <= RoundEnd(c, p, q, k) < |c.dst|
  {
    RoundsEnd(c.src, c.pins, c.v, p, q, k);
    SharedEnds(c, Rounds(p, q, k), Rounds(p, q, k));
    EndIsNew(c, Rounds(p, q, k));
  }

  lemma RoundsEndApart(c: Copy, p: Path, q: Path, i: nat, j: nat)
    requires IsCopy(c) && LoopAt(c.src, c.pins, c.v, p, q) && i < j
    ensures RoundEnd(c, p, q, i) != RoundEnd(c, p, q, j)
  {
    RoundIsNew(c, p, q, i);
    RoundIsNew(c, p, q, j);
    SharedEnds(c, Rounds(p, q, i), Rounds(p, q, j));
    RoundsApart(c.src, c.pins, c.v, p, q, i, j);
  }

  lemma {:induction false} NewAddrsSize(n: nat, m: nat)
    requires n <= m
    ensures |NewAddrs(n, m)| == m - n
    decreases m
  {
    if m == n {
    } else {
      NewAddrsSize(n, m - 1);
    }
  }

  /** A value that has a clone does not loop. */
  lemma CloneHasNoLoop(
    src: seq<Object>, dst: seq<Object>, origin: Origins, pins: Pins, region: set<Value>, v: Value, w: Value)
    requires IsClone(src, dst, origin, pins, v, w)
    requires Region(src, pins, region) && HeldIn(src, pins, region, v)
    ensures !HasLoop(src, pins, v)
  {
    if HasLoop(src, pins, v) {
      var p, q :| LoopAt(src, pins, v, p, q);
      LoopNeedsObjects(Copy(src, dst, origin, pins, region, v, w), p, q);
    }
  }

  lemma LoopNeedsObjects(c: Copy, p: Path, q: Path)
    requires IsCopy(c)
    ensures !LoopAt(c.src, c.pins, c.v, p, q)
  {
    if LoopAt(c.src, c.pins, c.v, p, q) {
      var n, added := |c.dst| - |c.src| + 1, NewAddrs(|c.src|, |c.dst|);
      var f: nat -> Addr := RoundEnds(c, p, q);
      forall i: nat | i < n ensures f(i) in added { RoundIsNew(c, p, q, i); }
      forall i: nat, j: nat | i < j < n ensures f(i) != f(j) { RoundsEndApart(c, p, q, i, j); }
      NewAddrsSize(|c.src|, |c.dst|);
      InjectionFits(f, n, added);
    }
  }

  ghost function RoundEnds(c: Copy, p: Path, q: Path): nat -> Addr {
    k => RoundEnd(c, p, q, k)
  }
}
