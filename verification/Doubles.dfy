/** internal/core/doubles.go: registering doubles and resetting them. Each method
    is proved to take one step of the state machine in DoubleRuns. */
module Doubles {
  import opened Options
  import opened Values
  import opened Cloning
  import opened Separation
  import opened Loops
  import opened LoopFree
  import opened CloneExists
  import opened Snapshots
  import opened DoubleRuns
  import opened DoubleRestore

  const MUTEX: TypeId := 5

  /** `clearSpies` after the first n fields. */
  ghost predicate ClearedUpTo(h: seq<Object>, h': seq<Object>, a: Addr, n: nat)
    requires a < |h| && h[a].Cell? && h[a].v.Struct? && n <= |h[a].v.fields|
  {
    var v := h[a].v;
    && |h| <= |h'|
    && (forall i :: 0 <= i < |h| && i != a && i !in TargetsUpTo(v, n) ==> h'[i] == h[i])
    && (forall i :: i in TargetsUpTo(v, n) && i < |h| ==> ClearedCell(h, h', i))
    && (forall i, x :: |h| <= i < |h'| && Holds(h'[i], x) ==> Refs(x) == {})
    && h'[a].Cell? && FieldsClearedUpTo(v, h'[a].v, n, |h|, |h'|)
  }

  ghost predicate ClearedCell(h: seq<Object>, h': seq<Object>, i: Addr)
    requires i < |h| <= |h'|
  {
    h[i].Cell? && h'[i].Cell? && SpyCleared(h'[i].v) && ClearedRefs(h[i].v, h'[i].v, |h|, |h'|)
  }

  ghost predicate FieldsClearedUpTo(v: Value, v': Value, n: nat, lo: nat, hi: nat)
    requires v.Struct? && n <= |v.fields|
  {
    && v'.Struct? && v'.t == v.t && |v'.fields| == |v.fields|
    && (forall i :: n <= i < |v.fields| ==> v'.fields[i] == v.fields[i])
    && (forall i :: 0 <= i < n ==> FieldCleared(v.fields[i], v'.fields[i], lo, hi))
  }

  ghost predicate FieldCleared(f: Value, f': Value, lo: nat, hi: nat) {
    if IsSpy(f) then SpyCleared(f') && ClearedRefs(f, f', lo, hi) else f' == f
  }

  ghost function TargetsUpTo(v: Value, n: nat): set<Addr>
    requires v.Struct? && n <= |v.fields|
  {
    set i | 0 <= i < n && IsSpyPtr(v.fields[i]) :: v.fields[i].a
  }

  lemma AllFieldsCleared(h: seq<Object>, h': seq<Object>, a: Addr)
    requires a < |h| && h[a].Cell? && h[a].v.Struct? && ClearedUpTo(h, h', a, |h[a].v.fields|)
    ensures ClearStep(h, h', a)
  {
    var v, v' := h[a].v, h'[a].v;
    assert TargetsUpTo(v, |v.fields|) == SpyTargets(v);
    forall i | i in SpyTargets(v) && i < |h|
      ensures h[i].Cell? && h'[i].Cell? && SpyCleared(h'[i].v) && ClearedRefs(h[i].v, h'[i].v, |h|, |h'|)
    {
      assert ClearedCell(h, h', i);
    }
    forall i | 0 <= i < |v.fields|
      ensures if IsSpy(v.fields[i]) then SpyCleared(v'.fields[i]) else v'.fields[i] == v.fields[i]
    {
      assert FieldCleared(v.fields[i], v'.fields[i], |h|, |h'|);
    }
    forall x | x in Refs(v') ensures x in Refs(v) || (|h| <= x.a < |h'| && !IsSpyPtr(x)) {
      var i :| 0 <= i < |v'.fields| && x in Refs(v'.fields[i]);
      assert FieldCleared(v.fields[i], v'.fields[i], |h|, |h'|);
      assert forall y :: y in Refs(v.fields[i]) ==> y in Refs(v);
    }
  }

  /** Growing the heap by plain objects keeps what was cleared so far. */
  lemma ClearedGrows(h: seq<Object>, h1: seq<Object>, h2: seq<Object>, a: Addr, n: nat)
    requires a < |h| && h[a].Cell? && h[a].v.Struct? && n <= |h[a].v.fields|
    requires ClearedUpTo(h, h1, a, n) && h1 <= h2
    requires forall i, x :: |h1| <= i < |h2| && Holds(h2[i], x) ==> Refs(x) == {}
    ensures ClearedUpTo(h, h2, a, n)
  {
    forall i | i in TargetsUpTo(h[a].v, n) && i < |h| ensures ClearedCell(h, h2, i) {
      assert ClearedCell(h, h1, i);
    }
    forall i | 0 <= i < n ensures FieldCleared(h[a].v.fields[i], h2[a].v.fields[i], |h|, |h2|) {
      assert FieldCleared(h[a].v.fields[i], h1[a].v.fields[i], |h|, |h1|);
    }
  }

  /** Clearing the spy field n points to. */
  lemma PointerCleared(h: seq<Object>, h1: seq<Object>, a: Addr, n: nat, t: Addr, was: Value, now: Value, before: nat)
    requires a < |h| && h[a].Cell? && h[a].v.Struct? && n < |h[a].v.fields|
    requires ClearedUpTo(h, h1, a, n) && IsSpyPtr(h[a].v.fields[n]) && h[a].v.fields[n].a == t && t != a
    requires t < |h| && h[t].Cell? && h1[t] == Cell(was) && SpyCleared(now)
    requires |h| <= before <= |h1| && ClearedRefs(was, now, before, |h1|)
    ensures ClearedUpTo(h, h1[t := Cell(now)], a, n + 1)
  {
    var v := h[a].v;
    var h2 := h1[t := Cell(now)];
    assert TargetsUpTo(v, n + 1) == TargetsUpTo(v, n) + {t};
    assert ClearedRefs(h[t].v, was, |h|, |h1|) by {
      if t in TargetsUpTo(v, n) { assert ClearedCell(h, h1, t); }
    }
    forall i | i in TargetsUpTo(v, n + 1) && i < |h| ensures ClearedCell(h, h2, i) {
      if i != t { assert ClearedCell(h, h1, i); }
    }
    assert FieldCleared(v.fields[n], h2[a].v.fields[n], |h|, |h2|);
  }

  /** Clearing the spy held by value in field n. */
  lemma FieldSpyCleared(h: seq<Object>, h1: seq<Object>, a: Addr, n: nat, now: Value)
    requires a < |h| && h[a].Cell? && h[a].v.Struct? && n < |h[a].v.fields|
    requires ClearedUpTo(h, h1, a, n) && IsSpy(h[a].v.fields[n]) && SpyCleared(now)
    requires ClearedRefs(h[a].v.fields[n], now, |h|, |h1|)
    ensures ClearedUpTo(h, h1[a := Cell(h1[a].v.(fields := h1[a].v.fields[n := now]))], a, n + 1)
  {
    var v := h[a].v;
    var h2 := h1[a := Cell(h1[a].v.(fields := h1[a].v.fields[n := now]))];
    assert TargetsUpTo(v, n + 1) == TargetsUpTo(v, n);
    forall i | i in TargetsUpTo(v, n + 1) && i < |h| ensures ClearedCell(h, h2, i) {
      assert ClearedCell(h, h1, i);
    }
    forall i | 0 <= i < n + 1 ensures FieldCleared(v.fields[i], h2[a].v.fields[i], |h|, |h2|) {
      if i < n { assert FieldCleared(v.fields[i], h1[a].v.fields[i], |h|, |h1|); }
    }
  }

  lemma OtherField(h: seq<Object>, h1: seq<Object>, a: Addr, n: nat)
    requires a < |h| && h[a].Cell? && h[a].v.Struct? && n < |h[a].v.fields|
    requires ClearedUpTo(h, h1, a, n) && !IsSpyPtr(h[a].v.fields[n]) && !IsSpy(h[a].v.fields[n])
    ensures ClearedUpTo(h, h1, a, n + 1)
  {
    var v := h[a].v;
    assert TargetsUpTo(v, n + 1) == TargetsUpTo(v, n);
    assert FieldCleared(v.fields[n], h1[a].v.fields[n], |h|, |h1|);
  }

  /** `Spy.Clear` on a spy's state: an empty call list, no failures, no unexpected
      calls; the mutex stays, or is created. */
  method ClearSpy(mem: Memory, s: Value) returns (w: Value)
    requires IsSpy(s)
    modifies mem
    ensures SpyCleared(w) && old(mem.objs) <= mem.objs
    ensures s.fields[2].Ptr? ==> w.fields[2] == s.fields[2]
    ensures ClearedRefs(s, w, |old(mem.objs)|, |mem.objs|)
    ensures forall i, x :: |old(mem.objs)| <= i < |mem.objs| && Holds(mem.objs[i], x) ==> Refs(x) == {}
  {
    assert TypeOf(s).fields[2] == TypeOf(s.fields[2]);
    var mu := s.fields[2];
    if mu.Nil? {
      var m := mem.Alloc(Cell(Struct(MUTEX, [])));
      mu := Ptr(MUTEX_PTR, m);
    }
    var calls := mem.Alloc(Backing([]));
    w := Struct(SPY, [Slice(CALLS, calls, 0, 0, 0), Nil(SliceTy(FAILURES)), mu, Nil(SliceTy(CALLS))]);
    assert TypeOf(w).fields == SPY_TYPE.fields;
    forall x | x in Refs(w) ensures x in Refs(s) || (|old(mem.objs)| <= x.a < |mem.objs| && !IsSpyPtr(x)) {
      var i :| 0 <= i < |w.fields| && x in Refs(w.fields[i]);
      if i == 2 && mu == s.fields[2] { assert x in Refs(s.fields[2]); }
    }
  }

  /** `clearSpies` on the double at a. */
  method ClearSpies(mem: Memory, a: Addr)
    requires a < |mem.objs| && mem.objs[a].Cell?
    requires forall i :: i in SpyTargets(mem.objs[a].v) ==>
      i < |mem.objs| && i != a && mem.objs[i].Cell? && IsSpy(mem.objs[i].v)
    modifies mem
    ensures ClearStep(old(mem.objs), mem.objs, a)
  {
    var v := mem.objs[a].v;
    if !v.Struct? { return; }
    ghost var h := mem.objs;
    for n := 0 to |v.fields|
      invariant ClearedUpTo(h, mem.objs, a, n)
    {
      var field := mem.objs[a].v.fields[n];
      ghost var before := mem.objs;
      if field.Ptr? && field.t == SPY_PTR {
        assert field.a in SpyTargets(v);
        if field.a in TargetsUpTo(v, n) { assert ClearedCell(h, mem.objs, field.a); }
        var s := mem.objs[field.a].v;
        var w := ClearSpy(mem, s);
        ClearedGrows(h, before, mem.objs, a, n);
        PointerCleared(h, mem.objs, a, n, field.a, s, w, |before|);
        mem.Store(field.a, Cell(w));
      } else if IsSpy(field) {
        var w := ClearSpy(mem, field);
        ClearedGrows(h, before, mem.objs, a, n);
        var double := mem.objs[a].v;
        FieldSpyCleared(h, mem.objs, a, n, w);
        mem.Store(a, Cell(double.(fields := double.fields[n := w])));
      } else {
        OtherField(h, mem.objs, a, n);
      }
    }
    AllFieldsCleared(h, mem.objs, a);
  }

  /** The references of a region that do not lead into hidden memory. */
  ghost function PublicPart(region: set<Value>, hidden: set<Addr>): set<Value> {
    set x | x in region && IsRef(x) && x.a !in hidden
  }

  lemma PublicPartCloneable(s: State, pins: Pins, region: set<Value>, v: Value)
    requires Inv(s) && Cloneable(s.h, pins, region, v) && RefsAvoid(v, s.hidden, |s.h|)
    ensures Cloneable(s.h, pins, PublicPart(region, s.hidden), v)
  {
    var public := PublicPart(region, s.hidden);
    forall x, w | x in public && Shows(s.h, x, w) ensures HeldIn(s.h, pins, public, w) {
      ShownIsHeld(s.h, x, w);
      assert HeldIn(s.h, pins, region, w) && RefsAvoid(w, s.hidden, |s.h|);
    }
    var rank: Value -> nat :| Ranked(s.h, region, rank);
    assert Ranked(s.h, public, rank);
  }

  /** What is reached from v of a region, outside hidden memory. */
  ghost function PublicReached(s: State, pins: Pins, region: set<Value>, v: Value): set<Value> {
    PublicPart(ReachedRefs(s.h, pins, region, v), s.hidden)
  }

  /** A double the program reaches is public, and so is what is cloned of it. */
  lemma DoubleIsPublic(s: State, pins: Pins, region: set<Value>, a: Addr)
    requires Inv(s) && Reaches(s, a) && a < |s.h| && s.h[a].Cell?
    ensures a !in s.hidden
    ensures var v := s.h[a].v;
      Safe(s.h, pins, region, v) && !HasLoop(s.h, pins, v) ==>
        Cloneable(s.h, pins, PublicReached(s, pins, region, v), v)
  {
    var x :| Reached(s, x) && IsRef(x) && x.a == a;
    BaselinesUnreachable(s, x);
    assert Holds(s.h[a], s.h[a].v);
    var v := s.h[a].v;
    if Safe(s.h, pins, region, v) && !HasLoop(s.h, pins, v) {
      NoLoopIsCloneable(s.h, pins, region, v);
      PublicPartCloneable(s, pins, ReachedRefs(s.h, pins, region, v), v);
    }
  }

  lemma OneMoreClosure(s: State, hs: seq<seq<Object>>, h': seq<Object>)
    requires 0 < |hs| <= |s.doubles| && forall k :: 0 <= k < |hs| - 1 ==> ClosureRan(s, hs, k)
    requires RestoreStep(hs[|hs| - 1], h', s.pins, s.links, s.doubles[|hs| - 1])
    ensures forall k :: 0 <= k < |hs| ==> ClosureRan(s, hs + [h'], k)
  {
    forall k | 0 <= k < |hs| ensures ClosureRan(s, hs + [h'], k) {
      if k < |hs| - 1 { assert ClosureRan(s, hs, k); }
    }
  }

  /** `spiesOf` finds spies held by value or by pointer, and nothing else. */
  lemma SpiesFound(v: Value)
    ensures HasSpies(v) <==>
      v.Struct? && exists i: nat ::
        i < |v.fields| &&
        ((v.fields[i].Struct? && TypeOf(v.fields[i]) == SPY_TYPE) || (v.fields[i].Ptr? && v.fields[i].t == SPY_PTR))
  {
  }

  /** `cloneBaseline`, of a double's state and again of its baseline. */
  method CloneBaseline(mem: Memory, pins: Pins, v: Value, ghost region: set<Value>)
    returns (b: Value, ghost origin: Origins)
    requires Cloneable(mem.objs, pins, region, v)
    modifies mem
    ensures Captures(old(mem.objs), mem.objs, pins, region, origin, v, b)
  {
    CloneableHasNoLoop(mem.objs, pins, region, v);
    b, origin := CloneValuePinned(mem, pins, v, region);
  }

  /** The doubles of one test. */
  class DoubleSet {
    const mem: Memory
    var pins: Pins
    var resets: seq<Registration>
    ghost var roots: set<Value>
    ghost var hidden: set<Addr>
    ghost var links: set<Value>
    ghost var taken: seq<Capture>

    ghost function Now(): State
      reads this, mem
    {
      State(mem.objs, roots, pins, resets, hidden, links, taken)
    }

    constructor (mem: Memory, pinnedTypes: set<TypeId>, ghost roots: set<Value>)
      requires Inv(State(mem.objs, roots, Pins({}, pinnedTypes + {SPY_PTR}), [], {}, {}, []))
      ensures this.mem == mem && Inv(Now())
      ensures Now() == State(mem.objs, roots, Pins({}, pinnedTypes + {SPY_PTR}), [], {}, {}, [])
    {
      this.mem := mem;
      pins := Pins({}, pinnedTypes + {SPY_PTR});
      resets := [];
      this.roots := roots;
      hidden, links := {}, {};
      taken := [];
    }

    method NewDouble(double: Addr, isResetter: bool, ghost region: set<Value>) returns (r: Addr)
      requires Inv(Now()) && Reaches(Now(), double) && double < |mem.objs| && mem.objs[double].Cell?
      requires IsSpy(mem.objs[double].v) ==> isResetter
      requires !isResetter || HasSpies(mem.objs[double].v) ==>
        var v := mem.objs[double].v;
        Safe(mem.objs, WithDouble(pins, double, v), region, v) && !HasLoop(mem.objs, WithDouble(pins, double, v), v)
      modifies this, mem
      ensures r == double && roots == old(roots)
      ensures RegisterStep(old(Now()), Now(), double, isResetter) && Inv(Now())
      ensures old(mem.objs) <= mem.objs
      ensures |resets| == |old(resets)| + 1 && old(resets) <= resets && resets[|resets| - 1].addr == double
      ensures resets[|resets| - 1].baseline.Some? <==> !isResetter || var v := old(mem.objs)[double].v;
        v.Struct? && exists i: nat ::
          i < |v.fields| &&
          ((v.fields[i].Struct? && TypeOf(v.fields[i]) == SPY_TYPE) || (v.fields[i].Ptr? && v.fields[i].t == SPY_PTR))
    {
      ghost var s := Now();
      var v := mem.objs[double].v;
      DoubleIsPublic(s, WithDouble(pins, double, v), region, double);
      if !ZeroSize(TypeOf(v)) {
        pins := pins.(doubles := pins.doubles + {double});
      }
      taken := taken + [Capture(mem.objs, pins, v)];
      var external := isResetter && !HasSpies(v);
      SpiesFound(v);
      if external {
        resets := resets + [Registration(double, None)];
      } else {
        ghost var public := PublicReached(s, pins, region, v);
        var baseline := KeepBaseline(s, double, v, public);
      }
      RegisterKeepsInv(s, Now(), double, isResetter);
      return double;
    }

    /** Captures a pinned double, which held v when s was the state. */
    method KeepBaseline(ghost s: State, double: Addr, v: Value, ghost region: set<Value>) returns (b: Value)
      requires double < |mem.objs| && mem.objs[double] == Cell(v) && pins == WithDouble(s.pins, double, v)
      requires Now() == s.(pins := pins, taken := s.taken + [Capture(s.h, pins, v)])
      requires Cloneable(mem.objs, pins, region, v) && RegionAvoids(region, hidden)
      modifies this, mem
      ensures exists origin :: CaptureStep(s, Now(), double, b, region, origin)
    {
      ghost var origin;
      b, origin := CloneBaseline(mem, pins, v, region);
      resets := resets + [Registration(double, Some(b))];
      hidden, links := hidden + NewAddrs(|s.h|, |mem.objs|), links + NewRefs(origin);
      assert CaptureStep(s, Now(), double, b, region, origin);
    }

    /** The closure `NewDouble` adds to the set. */
    method RestoreOne(i: nat)
      requires Inv(Now()) && i < |resets|
      modifies mem
      ensures RestoreStep(old(mem.objs), mem.objs, pins, links, resets[i]) && Inv(Now())
    {
      ghost var s := Now();
      assert Backed(s, resets[i], taken[i]);
      if resets[i].baseline.Some? {
        var a, b := resets[i].addr, resets[i].baseline.value;
        var w, origin := CloneBaseline(mem, pins, b, links);
        FreshCopyIsPublic(s, resets[i], taken[i], mem.objs, origin, w);
        ghost var dst := mem.objs;
        mem.Store(a, Cell(w));
        assert forall k :: k in SpyTargets(w) ==> k != a;
        ClearSpies(mem, a);
        assert Restores(s.h, mem.objs, pins, links, resets[i], dst, origin, w);
      }
      RestoreIsPublicStep(s, mem.objs, i);
      PublicStepKeepsInv(s, Now());
    }

    method Reset()
      requires Inv(Now())
      modifies mem
      ensures ResetStep(old(Now()), Now()) && Inv(Now())
      ensures forall j: nat :: LastRegistration(resets, j) && resets[j].baseline.Some? ==>
        && resets[j].addr < |mem.objs| && mem.objs[resets[j].addr].Cell?
        && RestoredTo(mem.objs, pins, mem.objs[resets[j].addr].v, taken[j], |old(mem.objs)|)
    {
      ghost var s := Now();
      ghost var hs := [mem.objs];
      for i := 0 to |resets|
        invariant Inv(Now()) && Now() == s.(h := mem.objs)
        invariant |hs| == i + 1 && hs[0] == s.h && hs[i] == mem.objs
        invariant forall k :: 0 <= k < i ==> ClosureRan(s, hs, k)
      {
        RestoreOne(i);
        OneMoreClosure(s, hs, mem.objs);
        hs := hs + [mem.objs];
      }
      assert ResetThrough(s, Now(), hs);
      forall j: nat | LastRegistration(resets, j) && resets[j].baseline.Some?
        ensures resets[j].addr < |mem.objs| && mem.objs[resets[j].addr].Cell?
        ensures RestoredTo(mem.objs, pins, mem.objs[resets[j].addr].v, taken[j], |old(mem.objs)|)
      {
        ResetRestores(s, Now(), j);
      }
    }
  }
}
