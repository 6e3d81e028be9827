/** What a reset gives back, over every run of registrations, program writes and resets. */
module DoubleRestore {
  import opened Options
  import opened Values
  import opened Cloning
  import opened Reproduction
  import opened Separation
  import opened DoubleRuns

  /** The path does not enter a spy the double holds by value. */
  predicate OutsideSpies(ty: Ty, p: Path) {
    p != [] && p[0].Field? && ty.StructTy? && p[0].i < |ty.fields| ==> ty.fields[p[0].i] != SPY_TYPE
  }

  ghost predicate SpiesEmpty(h: seq<Object>, v: Value) {
    v.Struct? ==> forall i :: 0 <= i < |v.fields| ==>
      && (TypeOf(v.fields[i]) == SPY_TYPE ==> SpyCleared(v.fields[i]))
      && (v.fields[i].Ptr? && v.fields[i].t == SPY_PTR ==>
            v.fields[i].a < |h| && h[v.fields[i].a].Cell? && SpyCleared(h[v.fields[i].a].v))
  }

  /** Outside its spies the double is to its capture what a copy is (`CopiedAt`), and
      holds no unpinned memory older than n; its spies hold no calls. */
  ghost predicate RestoredTo(h: seq<Object>, pins: Pins, v: Value, c: Capture, n: nat) {
    && TypeOf(v) == TypeOf(c.v)
    && (forall p, q :: OutsideSpies(TypeOf(c.v), p) && OutsideSpies(TypeOf(c.v), q) ==>
          CopiedAt(c.h, c.pins, c.v, h, pins, v, p, q))
    && (forall p :: OutsideSpies(TypeOf(c.v), p) ==> FreshEnd(Walk(h, pins, v, p), pins, n))
    && SpiesEmpty(h, v)
  }

  ghost predicate FreshEnd(x: Option<Value>, pins: Pins, n: nat) {
    x.Some? && IsRef(x.value) && !Pinned(pins, x.value) ==> n <= x.value.a
  }

  // ---------- one reset closure ----------

  /** The double at a holds w with its spies cleared; w lives in region, apart
      from everything older than n. */
  ghost predicate Stands(h: seq<Object>, pins: Pins, a: Addr, w: Value, region: set<Value>, n: nat, c: Capture) {
    && a < |h| && h[a].Cell? && SpyFieldsCleared(w, h[a].v) && SpiesEmpty(h, h[a].v)
    && WellTyped(w) && TypeOf(w) == TypeOf(c.v) && TypeOf(w) != SPY_TYPE
    && Region(h, pins, region) && HeldIn(h, pins, region, w) && (forall x :: x in region && IsRef(x) ==> n <= x.a)
    && Reproduces(c.h, c.pins, c.v, h, pins, w)
  }

  lemma FieldTypes(v: Value, i: nat)
    requires v.Struct? && i < |v.fields|
    ensures TypeOf(v).StructTy? && |TypeOf(v).fields| == |v.fields| && TypeOf(v).fields[i] == TypeOf(v.fields[i])
  {
  }

  /** Clearing spies is invisible outside them. */
  lemma ClearedWalk(h: seq<Object>, pins: Pins, w: Value, v: Value, p: Path)
    requires WellTyped(w) && SpyFieldsCleared(w, v) && OutsideSpies(TypeOf(w), p)
    ensures Observe(h, pins, v, p) == Observe(h, pins, w, p)
    ensures p != [] ==> Walk(h, pins, v, p) == Walk(h, pins, w, p)
  {
    if p != [] && w.Struct? && p[0].Field? && p[0].i < |w.fields| {
      FieldTypes(w, p[0].i);
      assert v.fields[p[0].i] == w.fields[p[0].i];
    }
  }

  lemma StandsIsRestored(h: seq<Object>, pins: Pins, a: Addr, w: Value, region: set<Value>, n: nat, c: Capture)
    requires Stands(h, pins, a, w, region, n, c)
    ensures RestoredTo(h, pins, h[a].v, c, n)
  {
    var v := h[a].v;
    ClearedKeepsType(w, v);
    forall p | OutsideSpies(TypeOf(c.v), p) ensures FreshEnd(Walk(h, pins, v, p), pins, n) {
      ClearedWalk(h, pins, w, v, p);
      WalkUnchanged(h, h, pins, region, w, p);
      var x := Walk(h, pins, w, p);
      if x.Some? && IsRef(x.value) { assert x.value in Refs(x.value); }
    }
    forall p, q | OutsideSpies(TypeOf(c.v), p) && OutsideSpies(TypeOf(c.v), q)
      ensures CopiedAt(c.h, c.pins, c.v, h, pins, v, p, q)
    {
      assert CopiedAt(c.h, c.pins, c.v, h, pins, w, p, q);
      ClearedCopy(c.h, c.pins, c.v, h, pins, w, v, p, q);
    }
  }

  lemma ClearedCopy(
    h0: seq<Object>, pins0: Pins, v0: Value, h: seq<Object>, pins: Pins, w: Value, v: Value, p: Path, q: Path)
    requires CopiedAt(h0, pins0, v0, h, pins, w, p, q)
    requires WellTyped(w) && SpyFieldsCleared(w, v) && OutsideSpies(TypeOf(w), p) && OutsideSpies(TypeOf(w), q)
    ensures CopiedAt(h0, pins0, v0, h, pins, v, p, q)
  {
    ClearedWalk(h, pins, w, v, p);
    ClearedWalk(h, pins, w, v, q);
    if w.Struct? {
      assert p == [] ==> Walk(h, pins, w, p) == Some(w) && Walk(h, pins, v, p) == Some(v);
      assert q == [] ==> Walk(h, pins, w, q) == Some(w) && Walk(h, pins, v, q) == Some(v);
    }
  }

  /** Right after its closure ran, the double stands. */
  lemma RestoreStands(s: State, h': seq<Object>, j: nat, dst: seq<Object>, origin: Origins, w: Value)
    requires Inv(s) && j < |s.doubles| && Restores(s.h, h', s.pins, s.links, s.doubles[j], dst, origin, w)
    ensures Stands(h', s.pins, s.doubles[j].addr, w, NewRefs(origin), |s.h|, s.taken[j])
  {
    var d, c := s.doubles[j], s.taken[j];
    assert Backed(s, d, c);
    var b := d.baseline.value;
    var added := NewRefs(origin);
    var mid := dst[d.addr := Cell(w)];
    FreshCopyIsPublic(s, d, c, dst, origin, w);
    RenamedKeepsType(origin, s.pins, b, w);
    CloneIsCloneable(s.h, dst, origin, s.pins, s.links, b, w);
    CloneReproduces(s.h, dst, origin, s.pins, s.links, b, w);
    NewRefsAreNew(s.h, dst, origin, s.pins);
    ClearLeavesNew(|s.h|, dst, h', d.addr, w, added);
    RegionStable(dst, h', s.pins, added);
    HeldStable(dst, h', s.pins, added, w);
    CopyOfSameShape(c.h, c.pins, c.v, s.h, s.pins, b, dst, s.pins, w);
    CopyUnchanged(c.h, c.pins, c.v, dst, h', s.pins, added, w);
    SpiesEmptied(mid, h', d.addr, w);
  }

  /** Storing and clearing the double leaves memory from n on as it is. */
  lemma ClearLeavesNew(n: nat, dst: seq<Object>, h': seq<Object>, a: Addr, w: Value, region: set<Value>)
    requires a < n <= |dst| && ClearStep(dst[a := Cell(w)], h', a)
    requires forall i :: i in SpyTargets(w) ==> i < n
    requires forall x :: x in region ==> IsRef(x) && n <= x.a < |dst|
    ensures AgreeOn(region, dst, h')
  {
  }

  lemma SpiesEmptied(h: seq<Object>, h': seq<Object>, a: Addr, w: Value)
    requires a < |h| && h[a] == Cell(w) && WellTyped(w) && ClearStep(h, h', a)
    requires forall i :: i in SpyTargets(w) ==> i < |h|
    ensures SpiesEmpty(h', h'[a].v)
  {
    var v := h'[a].v;
    if v.Struct? {
      forall i | 0 <= i < |v.fields|
        ensures TypeOf(v.fields[i]) == SPY_TYPE ==> SpyCleared(v.fields[i])
        ensures IsSpyPtr(v.fields[i]) ==>
          v.fields[i].a < |h'| && h'[v.fields[i].a].Cell? && SpyCleared(h'[v.fields[i].a].v)
      {
        if IsSpyPtr(v.fields[i]) && !IsSpy(w.fields[i]) {
          assert v.fields[i] == w.fields[i];
          assert v.fields[i].a in SpyTargets(w);
        }
      }
    }
  }

  /** A later closure for another double leaves it standing. */
  lemma StandsThrough(
    s: State, h': seq<Object>, k: nat, a: Addr, w: Value, region: set<Value>, n: nat, c: Capture, m: nat)
    requires Inv(s) && k < |s.doubles| && RestoreStep(s.h, h', s.pins, s.links, s.doubles[k])
    requires Stands(s.h, s.pins, a, w, region, n, c) && s.doubles[k].addr != a && a !in s.hidden
    requires m <= n && s.doubles[k].addr < m
    requires s.doubles[k].baseline.Some? ==> forall x :: x in Refs(s.doubles[k].baseline.value) ==> x.a < m
    ensures Stands(h', s.pins, a, w, region, n, c)
  {
    var d := s.doubles[k];
    assert Backed(s, d, s.taken[k]);
    if d.baseline.Some? {
      var dst, origin, w' :| Restores(s.h, h', s.pins, s.links, d, dst, origin, w');
      OtherRestoreKeeps(s, h', k, dst, origin, w', m);
      ClearedKeepsType(w, s.h[a].v);
      assert h'[a] == s.h[a];
      RegionStable(s.h, h', s.pins, region);
      HeldStable(s.h, h', s.pins, region, w);
      CopyUnchanged(c.h, c.pins, c.v, s.h, h', s.pins, region, w);
    }
  }

  /** A closure writes its double, spies, and nothing else older than it. */
  lemma OtherRestoreKeeps(s: State, h': seq<Object>, k: nat, dst: seq<Object>, origin: Origins, w: Value, m: nat)
    requires Inv(s) && k < |s.doubles| && Restores(s.h, h', s.pins, s.links, s.doubles[k], dst, origin, w)
    requires s.doubles[k].addr < m
    requires forall x :: x in Refs(s.doubles[k].baseline.value) ==> x.a < m
    ensures |s.h| <= |h'|
    ensures forall i :: m <= i < |s.h| ==> h'[i] == s.h[i]
    ensures forall i :: 0 <= i < |s.h| && i != s.doubles[k].addr && !(s.h[i].Cell? && IsSpy(s.h[i].v)) ==>
      h'[i] == s.h[i]
    ensures forall i :: 0 <= i < |s.h| && s.h[i].Cell? && SpyCleared(s.h[i].v) ==> h'[i].Cell? && SpyCleared(h'[i].v)
  {
    var d := s.doubles[k];
    assert Backed(s, d, s.taken[k]);
    FreshCopyIsPublic(s, d, s.taken[k], dst, origin, w);
    assert forall i :: i in SpyTargets(w) ==> i < m by {
      CloneIsDetached(s.h, dst, origin, s.pins, d.baseline.value, w);
      SpiesArePinned(s.pins, d.baseline.value, w, m);
    }
  }

  lemma SpiesArePinned(pins: Pins, b: Value, w: Value, m: nat)
    requires SPY_PTR in pins.types && forall x :: x in Refs(b) ==> x.a < m
    requires forall y :: y in Refs(w) && Pinned(pins, y) ==> y in Refs(b)
    ensures forall i :: i in SpyTargets(w) ==> i < m
  {
    forall i | i in SpyTargets(w) ensures i < m {
      var f :| 0 <= f < |w.fields| && IsSpyPtr(w.fields[f]) && w.fields[f].a == i;
      assert w.fields[f] in Refs(w.fields[f]);
      assert w.fields[f] in Refs(w) && Pinned(pins, w.fields[f]);
    }
  }

  // ---------- a whole reset ----------

  ghost predicate LastRegistration(doubles: seq<Registration>, j: nat) {
    j < |doubles| && forall k :: j < k < |doubles| ==> doubles[k].addr != doubles[j].addr
  }

  lemma {:induction false} ResetPrefixKeepsInv(s: State, hs: seq<seq<Object>>, i: nat)
    requires Inv(s) && i <= |s.doubles| && |hs| == |s.doubles| + 1 && hs[0] == s.h
    requires forall k :: 0 <= k < i ==> ClosureRan(s, hs, k)
    ensures Inv(s.(h := hs[i])) && |s.h| <= |hs[i]|
  {
    if i == 0 {
    } else {
      ResetPrefixKeepsInv(s, hs, i - 1);
      assert ClosureRan(s, hs, i - 1);
      var before := s.(h := hs[i - 1]);
      RestoreIsPublicStep(before, hs[i], i - 1);
      PublicStepKeepsInv(before, before.(h := hs[i]));
    }
  }

  lemma ResetKeepsInv(s: State, s': State)
    requires Inv(s) && ResetStep(s, s')
    ensures Inv(s') && |s.h| <= |s'.h|
  {
    var hs :| ResetThrough(s, s', hs);
    ResetPrefixKeepsInv(s, hs, |s.doubles|);
  }

  /** One closure of a reset that started with n objects, after the double's own. */
  lemma StandsOneMore(s: State, h: seq<Object>, h': seq<Object>, j: nat, k: nat, w: Value, region: set<Value>)
    requires Inv(s) && Inv(s.(h := h)) && j < k < |s.doubles| && s.doubles[k].addr != s.doubles[j].addr
    requires RestoreStep(h, h', s.pins, s.links, s.doubles[k])
    requires Stands(h, s.pins, s.doubles[j].addr, w, region, |s.h|, s.taken[j])
    ensures Stands(h', s.pins, s.doubles[j].addr, w, region, |s.h|, s.taken[j])
  {
    assert Backed(s, s.doubles[k], s.taken[k]) && Backed(s, s.doubles[j], s.taken[j]);
    StandsThrough(s.(h := h), h', k, s.doubles[j].addr, w, region, |s.h|, s.taken[j], |s.h|);
  }

  lemma {:induction false} StandsToTheEnd(s: State, hs: seq<seq<Object>>, j: nat, i: nat, w: Value, region: set<Value>)
    requires Inv(s) && |hs| == |s.doubles| + 1 && hs[0] == s.h
    requires forall k :: 0 <= k < |s.doubles| ==> ClosureRan(s, hs, k)
    requires LastRegistration(s.doubles, j) && j < i <= |s.doubles|
    requires Stands(hs[j + 1], s.pins, s.doubles[j].addr, w, region, |s.h|, s.taken[j])
    ensures Stands(hs[i], s.pins, s.doubles[j].addr, w, region, |s.h|, s.taken[j])
  {
    if i == j + 1 {
    } else {
      StandsToTheEnd(s, hs, j, i - 1, w, region);
      ResetPrefixKeepsInv(s, hs, i - 1);
      assert ClosureRan(s, hs, i - 1);
      StandsOneMore(s, hs[i - 1], hs[i], j, i - 1, w, region);
    }
  }

  /** A reset restores every in-memory double to its latest registration. */
  lemma ResetRestores(s: State, s': State, j: nat)
    requires Inv(s) && ResetStep(s, s') && LastRegistration(s.doubles, j) && s.doubles[j].baseline.Some?
    ensures s.doubles[j].addr < |s'.h| && s'.h[s.doubles[j].addr].Cell?
    ensures RestoredTo(s'.h, s'.pins, s'.h[s.doubles[j].addr].v, s.taken[j], |s.h|)
  {
    var hs :| ResetThrough(s, s', hs);
    ResetPrefixKeepsInv(s, hs, j);
    assert ClosureRan(s, hs, j);
    var at := s.(h := hs[j]);
    var dst, origin, w :| Restores(hs[j], hs[j + 1], s.pins, s.links, s.doubles[j], dst, origin, w);
    RestoreStands(at, hs[j + 1], j, dst, origin, w);
    StandsToTheEnd(s, hs, j, |s.doubles|, w, NewRefs(origin));
    StandsIsRestored(s'.h, s'.pins, s.doubles[j].addr, w, NewRefs(origin), |s.h|, s.taken[j]);
  }

  ghost predicate InMemory(doubles: seq<Registration>, a: Addr) {
    exists i :: 0 <= i < |doubles| && doubles[i].addr == a && doubles[i].baseline.Some?
  }

  lemma {:induction false} ResetPrefixWrites(s: State, hs: seq<seq<Object>>, i: nat, a: Addr)
    requires Inv(s) && i <= |s.doubles| && |hs| == |s.doubles| + 1 && hs[0] == s.h
    requires forall k :: 0 <= k < i ==> ClosureRan(s, hs, k)
    requires a < |s.h| && !InMemory(s.doubles, a) && !(s.h[a].Cell? && IsSpy(s.h[a].v))
    ensures a < |hs[i]| && hs[i][a] == s.h[a]
  {
    if i == 0 {
    } else {
      ResetPrefixWrites(s, hs, i - 1, a);
      ResetPrefixKeepsInv(s, hs, i - 1);
      assert ClosureRan(s, hs, i - 1);
      assert s.doubles[i - 1].baseline.Some? ==> s.doubles[i - 1].addr != a;
      ClosureLeavesOthers(s.(h := hs[i - 1]), hs[i], i - 1, a);
    }
  }

  lemma ClosureLeavesOthers(s: State, h': seq<Object>, k: nat, a: Addr)
    requires Inv(s) && k < |s.doubles| && RestoreStep(s.h, h', s.pins, s.links, s.doubles[k])
    requires a < |s.h| && !(s.h[a].Cell? && IsSpy(s.h[a].v))
    requires s.doubles[k].baseline.Some? ==> s.doubles[k].addr != a
    ensures a < |h'| && h'[a] == s.h[a]
  {
    var d := s.doubles[k];
    if d.baseline.Some? {
      var dst, origin, w :| Restores(s.h, h', s.pins, s.links, d, dst, origin, w);
      assert Backed(s, d, s.taken[k]);
      OtherRestoreKeeps(s, h', k, dst, origin, w, |s.h|);
    }
  }

  /** A reset writes nothing but in-memory doubles and spies: external doubles
      and the handles they wrap are left alone. */
  lemma ResetWritesOnlyDoublesAndSpies(s: State, s': State, a: Addr)
    requires Inv(s) && ResetStep(s, s')
    requires a < |s.h| && !InMemory(s.doubles, a) && !(s.h[a].Cell? && IsSpy(s.h[a].v))
    ensures a < |s'.h| && s'.h[a] == s.h[a]
  {
    var hs :| ResetThrough(s, s', hs);
    ResetPrefixWrites(s, hs, |s.doubles|, a);
  }

  // ---------- wiring ----------

  /** A pointer the double held when captured is back after a reset exactly when
      it was pinned at that moment. */
  lemma WiringExact(h: seq<Object>, pins: Pins, v: Value, c: Capture, n: nat, p: Path)
    requires RestoredTo(h, pins, v, c, n) && OutsideSpies(TypeOf(c.v), p)
    requires var x := Walk(c.h, c.pins, c.v, p); x.Some? && x.value.Ptr? && x.value.a < n
    ensures Walk(h, pins, v, p) == Walk(c.h, c.pins, c.v, p) <==> Pinned(c.pins, Walk(c.h, c.pins, c.v, p).value)
  {
    var x, y := Walk(c.h, c.pins, c.v, p), Walk(h, pins, v, p);
    assert CopiedAt(c.h, c.pins, c.v, h, pins, v, p, p);
    assert FreshEnd(y, pins, n);
  }

  // ---------- runs ----------

  ghost predicate Step(s: State, s': State) {
    ProgramStep(s, s') || ResetStep(s, s') || exists a, isResetter :: RegisterStep(s, s', a, isResetter)
  }

  ghost predicate StepAt(r: seq<State>, i: nat) {
    i + 1 < |r| && Step(r[i], r[i + 1])
  }

  ghost predicate IsRun(r: seq<State>) {
    |r| > 0 && forall i :: 0 <= i < |r| - 1 ==> StepAt(r, i)
  }

  lemma StepKeepsInv(s: State, s': State)
    requires Inv(s) && Step(s, s')
    ensures Inv(s') && s.doubles <= s'.doubles && s.taken <= s'.taken && |s.h| <= |s'.h|
  {
    if ProgramStep(s, s') {
      ProgramKeepsInv(s, s');
    } else if ResetStep(s, s') {
      ResetKeepsInv(s, s');
    } else {
      var a, isResetter :| RegisterStep(s, s', a, isResetter);
      RegisterKeepsInv(s, s', a, isResetter);
    }
  }

  /** Every state of a run keeps the invariant, and registrations are never dropped or changed. */
  lemma {:induction false} RunKeepsInv(r: seq<State>, k: nat, m: nat)
    requires IsRun(r) && Inv(r[0]) && k <= m < |r|
    ensures Inv(r[k]) && Inv(r[m]) && r[k].doubles <= r[m].doubles && r[k].taken <= r[m].taken && |r[k].h| <= |r[m].h|
    decreases k + m
  {
    if k < m {
      RunKeepsInv(r, k, m - 1);
      assert StepAt(r, m - 1);
      StepKeepsInv(r[m - 1], r[m]);
    } else if k > 0 {
      RunKeepsInv(r, k - 1, k - 1);
      assert StepAt(r, k - 1);
      StepKeepsInv(r[k - 1], r[k]);
    }
  }

  /** In every run, whatever the program wrote in between: a reset gives back the
      double registered at step k in the state it had then, if it is no Resetter
      or holds a spy, by value or by pointer. */
  lemma RunRestores(r: seq<State>, k: nat, m: nat, a: Addr, isResetter: bool)
    requires IsRun(r) && Inv(r[0]) && k < m < |r| - 1
    requires RegisterStep(r[k], r[k + 1], a, isResetter)
    requires isResetter ==> var v := r[k].h[a].v;
      v.Struct? && exists i: nat ::
        i < |v.fields| &&
        ((v.fields[i].Struct? && TypeOf(v.fields[i]) == SPY_TYPE) || (v.fields[i].Ptr? && v.fields[i].t == SPY_PTR))
    requires ResetStep(r[m], r[m + 1])
    requires forall i :: |r[k].doubles| < i < |r[m].doubles| ==> r[m].doubles[i].addr != a
    ensures a < |r[m + 1].h| && r[m + 1].h[a].Cell?
    ensures var s, c := r[m + 1], Capture(r[k].h, r[k + 1].pins, r[k].h[a].v);
      RestoredTo(s.h, s.pins, s.h[a].v, c, |r[m].h|)
  {
    RunKeepsInv(r, k + 1, m);
    var j := |r[k].doubles|;
    assert r[m].doubles[j] == r[k + 1].doubles[j];
    RunKeepsInv(r, k, k);
    assert r[m].taken[j] == r[k + 1].taken[j];
    ResetRestores(r[m], r[m + 1], j);
  }

  /** In every run, a reference from the double to another is restored to the same
      address exactly when that address was registered by then, or is of a pinned type. */
  lemma RunWiring(r: seq<State>, k: nat, m: nat, a: Addr, isResetter: bool, p: Path)
    requires IsRun(r) && Inv(r[0]) && k < m < |r| - 1
    requires RegisterStep(r[k], r[k + 1], a, isResetter)
    requires isResetter ==> var v := r[k].h[a].v;
      v.Struct? && exists i: nat ::
        i < |v.fields| &&
        ((v.fields[i].Struct? && TypeOf(v.fields[i]) == SPY_TYPE) || (v.fields[i].Ptr? && v.fields[i].t == SPY_PTR))
    requires ResetStep(r[m], r[m + 1])
    requires forall i :: |r[k].doubles| < i < |r[m].doubles| ==> r[m].doubles[i].addr != a
    requires OutsideSpies(TypeOf(r[k].h[a].v), p)
    requires var x := Walk(r[k].h, r[k + 1].pins, r[k].h[a].v, p); x.Some? && x.value.Ptr?
    ensures a < |r[m + 1].h| && r[m + 1].h[a].Cell?
    ensures var x := Walk(r[k].h, r[k + 1].pins, r[k].h[a].v, p);
            Walk(r[m + 1].h, r[m + 1].pins, r[m + 1].h[a].v, p) == x <==>
            x.value.a in r[k + 1].pins.doubles || x.value.t in r[k + 1].pins.types
  {
    RunRestores(r, k, m, a, isResetter);
    RunKeepsInv(r, k, m);
    var pins, v := r[k + 1].pins, r[k].h[a].v;
    var b, region, origin :| CaptureStep(r[k], r[k + 1], a, b, region, origin);
    WalkUnchanged(r[k].h, r[k].h, pins, region, v, p);
    var x := Walk(r[k].h, pins, v, p).value;
    assert x in Refs(x);
    WiringExact(r[m + 1].h, r[m + 1].pins, r[m + 1].h[a].v, Capture(r[k].h, r[k + 1].pins, r[k].h[a].v), |r[m].h|, p);
  }

  lemma StepKeepsTypes(s: State, s': State, a: Addr)
    requires Inv(s) && Step(s, s') && a < |s.h| && s.h[a].Cell?
    ensures a < |s'.h| && s'.h[a].Cell? && TypeOf(s'.h[a].v) == TypeOf(s.h[a].v)
  {
    if ProgramStep(s, s') {
      assert KeepsType(s.h[a], s'.h[a]);
    } else if ResetStep(s, s') {
      var hs :| ResetThrough(s, s', hs);
      ResetPrefixKeepsTypes(s, hs, |s.doubles|, a);
    } else {
      var d, isResetter :| RegisterStep(s, s', d, isResetter);
      assert s.h <= s'.h;
    }
  }

  lemma {:induction false} ResetPrefixKeepsTypes(s: State, hs: seq<seq<Object>>, i: nat, a: Addr)
    requires Inv(s) && i <= |s.doubles| && |hs| == |s.doubles| + 1 && hs[0] == s.h
    requires forall k :: 0 <= k < i ==> ClosureRan(s, hs, k)
    requires a < |s.h| && s.h[a].Cell?
    ensures a < |hs[i]| && hs[i][a].Cell? && TypeOf(hs[i][a].v) == TypeOf(s.h[a].v)
  {
    if i == 0 {
    } else {
      ResetPrefixKeepsTypes(s, hs, i - 1, a);
      ResetPrefixKeepsInv(s, hs, i - 1);
      assert ClosureRan(s, hs, i - 1);
      RestoreIsPublicStep(s.(h := hs[i - 1]), hs[i], i - 1);
      assert KeepsType(hs[i - 1][a], hs[i][a]);
    }
  }

  lemma {:induction false} RunKeepsTypes(r: seq<State>, k: nat, m: nat, a: Addr)
    requires IsRun(r) && Inv(r[0]) && k <= m < |r| && a < |r[k].h| && r[k].h[a].Cell?
    ensures a < |r[m].h| && r[m].h[a].Cell? && TypeOf(r[m].h[a].v) == TypeOf(r[k].h[a].v)
  {
    if k == m {
    } else {
      RunKeepsTypes(r, k, m - 1, a);
      RunKeepsInv(r, k, m - 1);
      assert StepAt(r, m - 1);
      StepKeepsTypes(r[m - 1], r[m], a);
    }
  }

  /** In every run, a Resetter without a spy, by value or by pointer, is its own
      business: no reset writes it. */
  lemma RunLeavesExternal(r: seq<State>, k: nat, m: nat, a: Addr)
    requires IsRun(r) && Inv(r[0]) && k < m < |r| - 1
    requires RegisterStep(r[k], r[k + 1], a, true) && ResetStep(r[m], r[m + 1])
    requires var v := r[k].h[a].v; v.Struct? ==> forall i: nat :: i < |v.fields| ==>
      !(v.fields[i].Struct? && TypeOf(v.fields[i]) == SPY_TYPE) && !(v.fields[i].Ptr? && v.fields[i].t == SPY_PTR)
    requires TypeOf(r[k].h[a].v) != SPY_TYPE
    requires forall i :: 0 <= i < |r[m].doubles| && i != |r[k].doubles| ==> r[m].doubles[i].addr != a
    ensures a < |r[m].h| && a < |r[m + 1].h| && r[m + 1].h[a] == r[m].h[a]
  {
    RunKeepsInv(r, k + 1, m);
    RunKeepsInv(r, k, k);
    RunKeepsTypes(r, k, m, a);
    assert r[m].doubles[|r[k].doubles|] == r[k + 1].doubles[|r[k].doubles|] == Registration(a, None);
    ResetWritesOnlyDoublesAndSpies(r[m], r[m + 1], a);
  }

  /** The memory a value occupies, a scalar counting as one. */
  ghost function Size(ty: Ty): nat
    decreases ty, 1, 0
  {
    match ty
    case StructTy(_, fs) => FieldsSize(ty, |fs|)
    case ArrayTy(n, elem) => n * Size(elem)
    case _ => 1
  }

  ghost function FieldsSize(ty: Ty, n: nat): nat
    requires ty.StructTy? && n <= |ty.fields|
    decreases ty, 0, n
  {
    if n == 0 then 0 else FieldsSize(ty, n - 1) + Size(ty.fields[n - 1])
  }

  lemma {:induction false} ZeroSizeExactly(ty: Ty)
    ensures ZeroSize(ty) <==> Size(ty) == 0
    decreases ty, 1, 0
  {
    match ty
    case StructTy(_, fs) => ZeroFieldsExactly(ty, |fs|);
    case ArrayTy(n, elem) => ZeroSizeExactly(elem);
    case _ =>
  }

  lemma {:induction false} ZeroFieldsExactly(ty: Ty, n: nat)
    requires ty.StructTy? && n <= |ty.fields|
    ensures (forall i :: 0 <= i < n ==> ZeroSize(ty.fields[i])) <==> FieldsSize(ty, n) == 0
    decreases ty, 0, n
  {
    if n == 0 {
    } else {
      ZeroFieldsExactly(ty, n - 1);
      ZeroSizeExactly(ty.fields[n - 1]);
    }
  }

  /** The address belongs to a registered double that occupied memory. */
  ghost predicate Registered(s: State, a: Addr) {
    exists i: nat :: i < |s.doubles| && i < |s.taken| && s.doubles[i].addr == a && Size(TypeOf(s.taken[i].v)) > 0
  }

  ghost predicate PinsAreDoubles(s: State) {
    |s.doubles| == |s.taken| && forall a: Addr :: a in s.pins.doubles <==> Registered(s, a)
  }

  lemma RegisteredStays(s: State, s': State, a: Addr)
    requires s.doubles <= s'.doubles && s.taken <= s'.taken && Registered(s, a)
    ensures Registered(s', a)
  {
    var i: nat :| i < |s.doubles| && i < |s.taken| && s.doubles[i].addr == a && Size(TypeOf(s.taken[i].v)) > 0;
    assert s'.doubles[i] == s.doubles[i] && s'.taken[i] == s.taken[i];
  }

  lemma RegistrationPins(s: State, s': State, d: Addr, isResetter: bool)
    requires PinsAreDoubles(s) && RegisterStep(s, s', d, isResetter)
    ensures PinsAreDoubles(s')
  {
    var n := |s.doubles|;
    ZeroSizeExactly(TypeOf(s.h[d].v));
    assert s'.doubles[n].addr == d && s'.taken[n].v == s.h[d].v;
    forall a: Addr ensures a in s'.pins.doubles <==> Registered(s', a) {
      if Registered(s, a) { RegisteredStays(s, s', a); }
      if Registered(s', a) {
        var i: nat :| i < |s'.doubles| && i < |s'.taken| && s'.doubles[i].addr == a && Size(TypeOf(s'.taken[i].v)) > 0;
        assert i < n ==> s'.doubles[i] == s.doubles[i] && s'.taken[i] == s.taken[i] && Registered(s, a);
      }
    }
  }

  lemma StepPinsAreDoubles(s: State, s': State)
    requires PinsAreDoubles(s) && Step(s, s')
    ensures PinsAreDoubles(s')
  {
    if ProgramStep(s, s') || ResetStep(s, s') {
      forall a: Addr ensures Registered(s, a) <==> Registered(s', a) {
        assert s'.doubles == s.doubles && s'.taken == s.taken;
      }
    } else {
      var d, isResetter :| RegisterStep(s, s', d, isResetter);
      RegistrationPins(s, s', d, isResetter);
    }
  }

  /** In every run the pinned addresses are those of the registered doubles. */
  lemma {:induction false} RunPinsAreDoubles(r: seq<State>, k: nat)
    requires IsRun(r) && k < |r| && PinsAreDoubles(r[0])
    ensures PinsAreDoubles(r[k])
  {
    if k == 0 {
    } else {
      RunPinsAreDoubles(r, k - 1);
      assert StepAt(r, k - 1);
      StepPinsAreDoubles(r[k - 1], r[k]);
    }
  }
}
