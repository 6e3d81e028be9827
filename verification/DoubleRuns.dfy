/** Restore-to-baseline as a state machine: doubles are registered, the program
    under test writes what it can reach, and resets put every double back. */
module DoubleRuns {
  import opened Options
  import opened Values
  import opened Cloning
  import opened Separation

  // ---------- spies ----------

  const SPY: TypeId := 0
  const SPY_PTR: TypeId := 1
  const MUTEX_PTR: TypeId := 2
  const CALLS: TypeId := 3
  const FAILURES: TypeId := 4

  /** `Spy`: calls, failures, mutex, unexpected calls. */
  const SPY_TYPE := StructTy(SPY, [SliceTy(CALLS), SliceTy(FAILURES), PtrTy(MUTEX_PTR), SliceTy(CALLS)])

  predicate IsSpy(v: Value) {
    v.Struct? && TypeOf(v) == SPY_TYPE
  }

  predicate IsSpyPtr(v: Value) {
    v.Ptr? && v.t == SPY_PTR
  }

  /** `spiesOf` finds something: a spy by value or a non-nil `*Spy` among the fields. */
  predicate HasSpies(v: Value) {
    v.Struct? && exists i :: 0 <= i < |v.fields| && (IsSpyPtr(v.fields[i]) || IsSpy(v.fields[i]))
  }

  /** A spy after `Clear`: no calls, no failures, no unexpected calls, a mutex. */
  ghost predicate SpyCleared(v: Value) {
    && IsSpy(v)
    && v.fields[0].Slice? && v.fields[0].len == 0
    && v.fields[1].Nil? && v.fields[2].Ptr? && v.fields[3].Nil?
  }

  /** Values of a zero-size type occupy no memory: `recordDouble` skips them. */
  predicate ZeroSize(ty: Ty) {
    match ty
    case StructTy(_, fs) => forall i :: 0 <= i < |fs| ==> ZeroSize(fs[i])
    case ArrayTy(n, elem) => n == 0 || ZeroSize(elem)
    case _ => false
  }

  ghost function SpyTargets(v: Value): set<Addr> {
    if v.Struct? then set i | 0 <= i < |v.fields| && IsSpyPtr(v.fields[i]) :: v.fields[i].a else {}
  }

  // ---------- states ----------

  /** A registered double; an external one has no baseline. */
  datatype Registration = Registration(addr: Addr, baseline: Option<Value>)

  /** The double's state as it was when `NewDouble` captured it. */
  datatype Capture = Capture(h: seq<Object>, pins: Pins, v: Value)

  datatype State = State(
    h: seq<Object>,
    roots: set<Value>,       // what the program's variables hold
    pins: Pins,
    doubles: seq<Registration>,
    hidden: set<Addr>,       // memory only baselines reach...
    links: set<Value>,       // ... and the references through which they reach it
    taken: seq<Capture>
  )

  ghost predicate RefsAvoid(v: Value, hidden: set<Addr>, n: nat) {
    forall x :: x in Refs(v) ==> x.a < n && x.a !in hidden
  }

  ghost predicate PinnedAvoid(v: Value, pins: Pins, hidden: set<Addr>, n: nat) {
    forall x :: x in Refs(v) && Pinned(pins, x) ==> x.a < n && x.a !in hidden
  }

  ghost predicate RegionAvoids(region: set<Value>, hidden: set<Addr>) {
    forall x :: x in region && IsRef(x) ==> x.a !in hidden
  }

  ghost predicate SpyPtrsTyped(h: seq<Object>, v: Value) {
    forall x :: x in Refs(v) && IsSpyPtr(x) ==> x.a < |h| && h[x.a].Cell? && IsSpy(h[x.a].v)
  }

  /** Public memory holds no reference into hidden memory. */
  ghost predicate PublicClosed(h: seq<Object>, hidden: set<Addr>) {
    forall a, v :: 0 <= a < |h| && a !in hidden && Holds(h[a], v) ==> RefsAvoid(v, hidden, |h|)
  }

  ghost predicate HiddenClosed(h: seq<Object>, pins: Pins, hidden: set<Addr>, links: set<Value>) {
    && (forall a :: a in hidden ==> a < |h|)
    && (forall x :: x in links ==> IsRef(x) && x.a in hidden)
    && Region(h, pins, links) && PointerFreeAcyclic(h, links)
    && forall a, v :: a in hidden && a < |h| && Holds(h[a], v) ==> PinnedAvoid(v, pins, hidden, |h|)
  }

  ghost predicate SpiesTyped(h: seq<Object>) {
    forall a, v :: 0 <= a < |h| && Holds(h[a], v) ==> SpyPtrsTyped(h, v)
  }

  ghost predicate RootsPublic(h: seq<Object>, roots: set<Value>, hidden: set<Addr>) {
    forall v :: v in roots ==> RefsAvoid(v, hidden, |h|) && SpyPtrsTyped(h, v)
  }

  ghost predicate PinsSound(pins: Pins, hidden: set<Addr>, n: nat) {
    PinsWithin(pins, n) && SPY_PTR in pins.types && pins.doubles !! hidden
  }

  /** A registration is backed by its baseline, which still looks as captured. */
  ghost predicate Backed(s: State, d: Registration, c: Capture) {
    && d.addr < |s.h| && d.addr !in s.hidden && s.h[d.addr].Cell?
    && |c.h| <= |s.h|
    && (d.baseline.Some? ==>
          var b := d.baseline.value;
          && WellTyped(b) && HeldIn(s.h, s.pins, s.links, b) && PinnedAvoid(b, s.pins, s.hidden, |s.h|)
          && SpyPtrsTyped(s.h, b)
          && TypeOf(b) != SPY_TYPE && TypeOf(b) == TypeOf(c.v) == TypeOf(s.h[d.addr].v)
          && SameShape(c.h, c.pins, c.v, s.h, s.pins, b))
  }

  ghost predicate Inv(s: State) {
    && PinsSound(s.pins, s.hidden, |s.h|)
    && PublicClosed(s.h, s.hidden) && HiddenClosed(s.h, s.pins, s.hidden, s.links) && SpiesTyped(s.h)
    && RootsPublic(s.h, s.roots, s.hidden)
    && |s.taken| == |s.doubles|
    && forall i :: 0 <= i < |s.doubles| ==> Backed(s, s.doubles[i], s.taken[i])
  }

  // ---------- steps ----------

  ghost predicate KeepsType(o: Object, o': Object)
    requires o.Cell?
  {
    o'.Cell? && TypeOf(o'.v) == TypeOf(o.v) && (IsSpy(o.v) ==> IsSpy(o'.v))
  }

  /** Following references from its variables, the program gets hold of x. */
  ghost predicate Reached(s: State, x: Value) {
    exists v, p :: v in s.roots && Walk(s.h, NO_PINS, v, p).Some? && x in Refs(Walk(s.h, NO_PINS, v, p).value)
  }

  ghost predicate Reaches(s: State, a: Addr) {
    exists x :: Reached(s, x) && IsRef(x) && x.a == a
  }

  /** A reference the program can store: one it reached, or one it made itself, of
      whatever type, to memory it reaches or allocated; a `*Spy` is of a spy. */
  ghost predicate Storable(s: State, h': seq<Object>, x: Value)
    requires IsRef(x)
  {
    Reached(s, x) || ((Reaches(s, x.a) || |s.h| <= x.a < |h'|) && SpyPtrsTyped(h', x))
  }

  ghost predicate StorableValue(s: State, h': seq<Object>, v: Value) {
    forall x :: x in Refs(v) ==> Storable(s, h', x)
  }

  ghost predicate Written(s: State, h': seq<Object>, a: Addr) {
    a < |h'| && (a < |s.h| ==> h'[a] != s.h[a])
  }

  /** The program allocates, writes memory it reaches and sets its variables. What
      it stores is something it can get hold of, and a variable keeps its type. */
  ghost predicate ProgramStep(s: State, s': State) {
    && s' == s.(h := s'.h, roots := s'.roots)
    && |s.h| <= |s'.h|
    && (forall a :: 0 <= a < |s.h| && Written(s, s'.h, a) ==> Reaches(s, a))
    && (forall a, v :: 0 <= a < |s'.h| && Written(s, s'.h, a) && Holds(s'.h[a], v) ==> StorableValue(s, s'.h, v))
    && (forall v :: v in s'.roots ==> StorableValue(s, s'.h, v))
    && (forall a :: 0 <= a < |s.h| && s.h[a].Cell? ==> KeepsType(s.h[a], s'.h[a]))
  }

  /** What the proofs need of a step: hidden memory stays as it is and unreferenced
      from outside. */
  ghost predicate PublicStep(s: State, s': State) {
    && s' == s.(h := s'.h, roots := s'.roots)
    && |s.h| <= |s'.h|
    && (forall a :: a in s.hidden && a < |s.h| ==> s'.h[a] == s.h[a])
    && PublicClosed(s'.h, s.hidden) && SpiesTyped(s'.h) && RootsPublic(s'.h, s'.roots, s.hidden)
    && (forall a :: 0 <= a < |s.h| && s.h[a].Cell? ==> KeepsType(s.h[a], s'.h[a]))
  }

  function WithDouble(pins: Pins, a: Addr, v: Value): Pins {
    if ZeroSize(TypeOf(v)) then pins else pins.(doubles := pins.doubles + {a})
  }

  /** b is a clone of v in memory of its own. */
  ghost predicate Captures(
    h: seq<Object>, h': seq<Object>, pins: Pins, region: set<Value>, origin: Origins, v: Value, b: Value)
  {
    Cloneable(h, pins, region, v) && IsClone(h, h', origin, pins, v, b) && OriginsIn(origin, pins, region)
  }

  /** The baseline of the double at a goes to memory only it can reach. */
  ghost predicate CaptureStep(s: State, s': State, a: Addr, b: Value, region: set<Value>, origin: Origins)
    requires a < |s.h| && s.h[a].Cell?
  {
    var v := s.h[a].v;
    var pins := WithDouble(s.pins, a, v);
    && Captures(s.h, s'.h, pins, region, origin, v, b) && RegionAvoids(region, s.hidden)
    && s' == State(s'.h, s.roots, pins, s.doubles + [Registration(a, Some(b))],
                   s.hidden + NewAddrs(|s.h|, |s'.h|), s.links + NewRefs(origin), s.taken + [Capture(s.h, pins, v)])
  }

  /** `NewDouble`: the address is pinned first, then the baseline is captured. */
  ghost predicate RegisterStep(s: State, s': State, a: Addr, isResetter: bool) {
    && Reaches(s, a) && a < |s.h| && s.h[a].Cell? && (IsSpy(s.h[a].v) ==> isResetter)
    && var v := s.h[a].v;
       var pins := WithDouble(s.pins, a, v);
       if isResetter && !HasSpies(v) then
         s' == s.(pins := pins, doubles := s.doubles + [Registration(a, None)],
                  taken := s.taken + [Capture(s.h, pins, v)])
       else
         exists b, region, origin :: CaptureStep(s, s', a, b, region, origin)
  }

  /** A value held by a cleared cell refers to what it did before or to new objects. */
  ghost predicate ClearedRefs(v: Value, v': Value, n: nat, m: nat) {
    forall x :: x in Refs(v') ==> x in Refs(v) || (n <= x.a < m && !IsSpyPtr(x))
  }

  /** `clearSpies` on the double at a. */
  ghost predicate ClearStep(h: seq<Object>, h': seq<Object>, a: Addr)
    requires a < |h| && h[a].Cell?
  {
    var v := h[a].v;
    && |h| <= |h'|
    && (forall i :: 0 <= i < |h| && i != a && i !in SpyTargets(v) ==> h'[i] == h[i])
    && (forall i :: i in SpyTargets(v) && i < |h| ==>
          h[i].Cell? && h'[i].Cell? && SpyCleared(h'[i].v) && ClearedRefs(h[i].v, h'[i].v, |h|, |h'|))
    && (forall i, x :: |h| <= i < |h'| && Holds(h'[i], x) ==> Refs(x) == {})
    && h'[a].Cell? && ClearedRefs(v, h'[a].v, |h|, |h'|) && SpyFieldsCleared(v, h'[a].v)
  }

  /** Spies held by value are cleared, every other field is untouched. */
  ghost predicate SpyFieldsCleared(v: Value, v': Value) {
    if v.Struct? then
      && v'.Struct? && v'.t == v.t && |v'.fields| == |v.fields|
      && forall i :: 0 <= i < |v.fields| ==>
           if IsSpy(v.fields[i]) then SpyCleared(v'.fields[i]) else v'.fields[i] == v.fields[i]
    else v' == v
  }

  /** One reset closure. */
  ghost predicate RestoreStep(h: seq<Object>, h': seq<Object>, pins: Pins, links: set<Value>, d: Registration) {
    if d.baseline.None? then h' == h
    else exists dst, origin, w :: Restores(h, h', pins, links, d, dst, origin, w)
  }

  ghost predicate Restores(h: seq<Object>, h': seq<Object>, pins: Pins, links: set<Value>, d: Registration,
                           dst: seq<Object>, origin: Origins, w: Value) {
    && d.baseline.Some? && d.addr < |h|
    && IsClone(h, dst, origin, pins, d.baseline.value, w) && OriginsIn(origin, pins, links)
    && ClearStep(dst[d.addr := Cell(w)], h', d.addr)
  }

  ghost predicate ClosureRan(s: State, hs: seq<seq<Object>>, i: nat) {
    && i < |s.doubles| && i + 1 < |hs|
    && RestoreStep(hs[i], hs[i + 1], s.pins, s.links, s.doubles[i])
  }

  /** `doubleSet.reset`: every closure in registration order, through heaps hs. */
  ghost predicate ResetThrough(s: State, s': State, hs: seq<seq<Object>>) {
    && |hs| == |s.doubles| + 1 && hs[0] == s.h && s' == s.(h := hs[|s.doubles|])
    && forall i :: 0 <= i < |s.doubles| ==> ClosureRan(s, hs, i)
  }

  ghost predicate ResetStep(s: State, s': State) {
    exists hs :: ResetThrough(s, s', hs)
  }

  // ---------- the program cannot reach baselines ----------

  lemma {:induction false} PublicWalkStaysPublic(h: seq<Object>, hidden: set<Addr>, v: Value, p: Path)
    requires PublicClosed(h, hidden) && RefsAvoid(v, hidden, |h|)
    ensures Walk(h, NO_PINS, v, p).Some? ==> RefsAvoid(Walk(h, NO_PINS, v, p).value, hidden, |h|)
    decreases p
  {
    if p == [] || Take(h, NO_PINS, v, p[0]).None? {
    } else {
      var x := Take(h, NO_PINS, v, p[0]).value;
      if IsRef(v) {
        assert v in Refs(v);
        assert Holds(h[v.a], x);
      } else {
        assert Refs(x) <= Refs(v);
      }
      PublicWalkStaysPublic(h, hidden, x, p[1..]);
    }
  }

  lemma {:induction false} WalkStaysTyped(h: seq<Object>, v: Value, p: Path)
    requires SpiesTyped(h) && SpyPtrsTyped(h, v)
    ensures Walk(h, NO_PINS, v, p).Some? ==> SpyPtrsTyped(h, Walk(h, NO_PINS, v, p).value)
    decreases p
  {
    if p == [] || Take(h, NO_PINS, v, p[0]).None? {
    } else {
      var x := Take(h, NO_PINS, v, p[0]).value;
      if IsRef(v) {
        assert Holds(h[v.a], x);
      } else {
        assert Refs(x) <= Refs(v);
      }
      WalkStaysTyped(h, x, p[1..]);
    }
  }

  /** Following any references from its variables, the program never meets the
      memory of a captured baseline. */
  lemma BaselinesUnreachable(s: State, x: Value)
    requires Inv(s) && Reached(s, x)
    ensures IsRef(x) && x.a < |s.h| && x.a !in s.hidden && SpyPtrsTyped(s.h, x)
  {
    var v, p :| v in s.roots && Walk(s.h, NO_PINS, v, p).Some? && x in Refs(Walk(s.h, NO_PINS, v, p).value);
    PublicWalkStaysPublic(s.h, s.hidden, v, p);
    WalkStaysTyped(s.h, v, p);
    assert Refs(x) == {x};
  }

  lemma StorableIsPublic(s: State, s': State, x: Value)
    requires Inv(s) && ProgramStep(s, s') && IsRef(x) && Storable(s, s'.h, x)
    ensures x.a < |s'.h| && x.a !in s.hidden && SpyPtrsTyped(s'.h, x)
  {
    assert Refs(x) == {x};
    if Reached(s, x) {
      BaselinesUnreachable(s, x);
      assert IsSpyPtr(x) ==> KeepsType(s.h[x.a], s'.h[x.a]);
    } else if Reaches(s, x.a) {
      var y :| Reached(s, y) && IsRef(y) && y.a == x.a;
      BaselinesUnreachable(s, y);
    }
  }

  lemma StorableValueIsPublic(s: State, s': State, v: Value)
    requires Inv(s) && ProgramStep(s, s') && StorableValue(s, s'.h, v)
    ensures RefsAvoid(v, s.hidden, |s'.h|) && SpyPtrsTyped(s'.h, v)
  {
    forall x | x in Refs(v)
      ensures x.a < |s'.h| && x.a !in s.hidden
      ensures IsSpyPtr(x) ==> s'.h[x.a].Cell? && IsSpy(s'.h[x.a].v)
    {
      StorableIsPublic(s, s', x);
      assert x in Refs(x);
    }
  }

  lemma OldValueStaysPublic(s: State, s': State, a: Addr, v: Value)
    requires Inv(s) && ProgramStep(s, s') && a < |s.h| && Holds(s.h[a], v)
    ensures SpyPtrsTyped(s'.h, v)
    ensures a !in s.hidden ==> RefsAvoid(v, s.hidden, |s'.h|)
  {
    assert SpyPtrsTyped(s.h, v);
    forall x | x in Refs(v) && IsSpyPtr(x) ensures x.a < |s'.h| && s'.h[x.a].Cell? && IsSpy(s'.h[x.a].v) {
      assert KeepsType(s.h[x.a], s'.h[x.a]);
    }
    assert a !in s.hidden ==> RefsAvoid(v, s.hidden, |s.h|);
  }

  /** Therefore what the program does leaves baselines alone and unreachable. */
  lemma ProgramIsPublic(s: State, s': State)
    requires Inv(s) && ProgramStep(s, s')
    ensures PublicStep(s, s')
  {
    forall a | a in s.hidden && a < |s.h| ensures s'.h[a] == s.h[a] {
      if Written(s, s'.h, a) {
        var x :| Reached(s, x) && IsRef(x) && x.a == a;
        BaselinesUnreachable(s, x);
      }
    }
    forall a, v | 0 <= a < |s'.h| && Holds(s'.h[a], v)
      ensures SpyPtrsTyped(s'.h, v)
      ensures a !in s.hidden ==> RefsAvoid(v, s.hidden, |s'.h|)
    {
      if Written(s, s'.h, a) {
        StorableValueIsPublic(s, s', v);
      } else {
        OldValueStaysPublic(s, s', a, v);
      }
    }
    forall v | v in s'.roots ensures RefsAvoid(v, s.hidden, |s'.h|) && SpyPtrsTyped(s'.h, v) {
      StorableValueIsPublic(s, s', v);
    }
  }

  // ---------- program steps keep the invariant ----------

  /** Anything the program can do keeps the invariant. */
  lemma ProgramKeepsInv(s: State, s': State)
    requires Inv(s) && ProgramStep(s, s')
    ensures Inv(s')
  {
    ProgramIsPublic(s, s');
    PublicStepKeepsInv(s, s');
  }

  lemma PublicStepKeepsInv(s: State, s': State)
    requires Inv(s) && PublicStep(s, s')
    ensures Inv(s')
  {
    assert AgreeOn(s.links, s.h, s'.h);
    RegionStable(s.h, s'.h, s.pins, s.links);
    forall a, v | a in s.hidden && a < |s'.h| && Holds(s'.h[a], v)
      ensures PinnedAvoid(v, s.pins, s.hidden, |s'.h|)
    {
      assert PinnedAvoid(v, s.pins, s.hidden, |s.h|);
    }
    forall i | 0 <= i < |s.doubles| ensures Backed(s', s.doubles[i], s.taken[i]) {
      var d, c := s.doubles[i], s.taken[i];
      assert Backed(s, d, c);
      assert KeepsType(s.h[d.addr], s'.h[d.addr]);
      if d.baseline.Some? {
        var b := d.baseline.value;
        HeldStable(s.h, s'.h, s.pins, s.links, b);
        RegionUnchanged(s.h, s'.h, s.pins, s.links, b);
        forall x | x in Refs(b) && IsSpyPtr(x) ensures x.a < |s'.h| && s'.h[x.a].Cell? && IsSpy(s'.h[x.a].v) {
          assert KeepsType(s.h[x.a], s'.h[x.a]);
        }
        SameShapeThrough(c.h, c.pins, c.v, s.h, s.pins, b, s'.h, s.pins, b);
      }
    }
  }

  lemma SameShapeThrough(
    h1: seq<Object>, p1: Pins, v1: Value, h2: seq<Object>, p2: Pins, v2: Value, h3: seq<Object>, p3: Pins,
    v3: Value)
    requires SameShape(h1, p1, v1, h2, p2, v2) && SameShape(h2, p2, v2, h3, p3, v3)
    ensures SameShape(h1, p1, v1, h3, p3, v3)
  {
    forall p, q ensures Aliased(h1, p1, v1, p, q) <==> Aliased(h3, p3, v3, p, q) {
      assert Aliased(h1, p1, v1, p, q) <==> Aliased(h2, p2, v2, p, q);
    }
    forall p ensures Observe(h1, p1, v1, p) == Observe(h3, p3, v3, p) {
      assert Observe(h1, p1, v1, p) == Observe(h2, p2, v2, p);
    }
  }

  // ---------- registrations keep the invariant ----------

  ghost predicate PinsGrow(pins: Pins, pins': Pins, region: set<Value>) {
    pins.types == pins'.types && pins.doubles <= pins'.doubles
    && RegionAvoids(region, pins'.doubles - pins.doubles)
  }

  /** Registering more doubles does not change how a region looks. */
  lemma {:induction false} WalkUnderMorePins(
    h: seq<Object>, pins: Pins, pins': Pins, region: set<Value>, v: Value, p: Path)
    requires Region(h, pins, region) && HeldIn(h, pins, region, v) && PinsGrow(pins, pins', region)
    ensures Walk(h, pins', v, p) == Walk(h, pins, v, p)
    ensures Walk(h, pins, v, p).Some? ==> HeldIn(h, pins, region, Walk(h, pins, v, p).value)
    decreases p
  {
    if p == [] {
    } else {
      if IsRef(v) { assert v in Refs(v); }
      if Take(h, pins, v, p[0]).Some? {
        StepStaysHeld(h, pins, region, v, p[0]);
        WalkUnderMorePins(h, pins, pins', region, Take(h, pins, v, p[0]).value, p[1..]);
      }
    }
  }

  lemma SameUnderMorePins(h: seq<Object>, pins: Pins, pins': Pins, region: set<Value>, v: Value)
    requires Region(h, pins, region) && HeldIn(h, pins, region, v) && PinsGrow(pins, pins', region)
    ensures SameShape(h, pins, v, h, pins', v)
  {
    forall p ensures Observe(h, pins, v, p) == Observe(h, pins', v, p) {
      WalkUnderMorePins(h, pins, pins', region, v, p);
      var x := Walk(h, pins, v, p);
      if x.Some? && IsRef(x.value) { assert x.value in Refs(x.value); }
    }
    forall p, q ensures Aliased(h, pins, v, p, q) <==> Aliased(h, pins', v, p, q) {
      WalkUnderMorePins(h, pins, pins', region, v, p);
      WalkUnderMorePins(h, pins, pins', region, v, q);
      var x := Walk(h, pins, v, p);
      if x.Some? && IsRef(x.value) { assert x.value in Refs(x.value); }
    }
  }

  lemma HeldUnderMorePins(h: seq<Object>, pins: Pins, pins': Pins, region: set<Value>, v: Value)
    requires HeldIn(h, pins, region, v) && PinsGrow(pins, pins', region)
    ensures HeldIn(h, pins', region, v)
  {
  }

  /** What registering a double does to the pins. */
  lemma RegisteringGrowsPins(s: State, a: Addr, v: Value)
    requires Inv(s) && a < |s.h| && a !in s.hidden
    ensures PinsGrow(s.pins, WithDouble(s.pins, a, v), s.links)
    ensures PinsSound(WithDouble(s.pins, a, v), s.hidden, |s.h|)
    ensures HiddenClosed(s.h, WithDouble(s.pins, a, v), s.hidden, s.links)
  {
    var pins := WithDouble(s.pins, a, v);
    forall x, w | x in s.links && Shows(s.h, x, w) ensures HeldIn(s.h, pins, s.links, w) {
      HeldUnderMorePins(s.h, s.pins, pins, s.links, w);
    }
    forall o, w | o in s.hidden && o < |s.h| && Holds(s.h[o], w) ensures PinnedAvoid(w, pins, s.hidden, |s.h|) {
      assert PinnedAvoid(w, s.pins, s.hidden, |s.h|);
    }
  }

  /** Existing registrations stay backed when the heap and the pins grow. */
  lemma BackedStays(s: State, s': State, d: Registration, c: Capture)
    requires Inv(s) && Backed(s, d, c) && s.h <= s'.h && PinsGrow(s.pins, s'.pins, s.links)
    requires s.links <= s'.links && s.hidden <= s'.hidden && forall a :: a in s'.hidden ==> a in s.hidden || |s.h| <= a
    ensures Backed(s', d, c)
  {
    if d.baseline.Some? {
      var b := d.baseline.value;
      RegionUnchanged(s.h, s'.h, s.pins, s.links, b);
      RegionStable(s.h, s'.h, s.pins, s.links);
      HeldStable(s.h, s'.h, s.pins, s.links, b);
      SameUnderMorePins(s'.h, s.pins, s'.pins, s.links, b);
      SameShapeThrough(c.h, c.pins, c.v, s.h, s.pins, b, s'.h, s.pins, b);
      SameShapeThrough(c.h, c.pins, c.v, s'.h, s.pins, b, s'.h, s'.pins, b);
    }
  }

  lemma SpiesHoldNoSpies(v: Value)
    requires IsSpy(v)
    ensures !HasSpies(v)
  {
    forall i | 0 <= i < |v.fields| ensures !IsSpyPtr(v.fields[i]) && !IsSpy(v.fields[i]) {
      assert TypeOf(v).fields[i] == TypeOf(v.fields[i]);
    }
  }

  /** Two regions closed apart from each other are closed together. */
  lemma RegionsUnite(h: seq<Object>, pins: Pins, r1: set<Value>, r2: set<Value>)
    requires Region(h, pins, r1) && Region(h, pins, r2)
    requires PointerFreeAcyclic(h, r1) && PointerFreeAcyclic(h, r2) && r1 !! r2
    ensures Region(h, pins, r1 + r2) && PointerFreeAcyclic(h, r1 + r2)
  {
    var k1: Value -> nat :| Ranked(h, r1, k1);
    var k2: Value -> nat :| Ranked(h, r2, k2);
    var k: Value -> nat := x => if x in r1 then k1(x) else k2(x);
    forall x, v | x in r1 + r2 && !x.Ptr? && Shows(h, x, v) ensures Below(k, v, k(x)) {
      if x in r1 {
        assert HeldIn(h, pins, r1, v) && Below(k1, v, k1(x));
      } else {
        assert HeldIn(h, pins, r2, v) && Below(k2, v, k2(x));
      }
    }
    assert Ranked(h, r1 + r2, k);
  }

  /** The memory of a new capture: what it refers to besides itself is pinned and public. */
  lemma CaptureAvoidsHidden(
    src: seq<Object>, dst: seq<Object>, origin: Origins, pins: Pins, region: set<Value>, hidden: set<Addr>,
    v: Value, w: Value)
    requires CopiedGraph(src, dst, origin, pins) && Renamed(origin, pins, v, w)
    requires forall x :: x in Refs(v) && Pinned(pins, x) ==> x.a !in hidden && x.a < |src|
    requires forall a :: a in hidden ==> a < |src|
    ensures PinnedAvoid(w, pins, hidden + NewAddrs(|src|, |dst|), |dst|)
    ensures RefsAvoid(w, hidden, |dst|)
    ensures forall y :: y in Refs(w) && Pinned(pins, y) ==> y in Refs(v)
  {
    CloneIsDetached(src, dst, origin, pins, v, w);
    forall y | y in Refs(w)
      ensures Pinned(pins, y) ==> y.a !in hidden + NewAddrs(|src|, |dst|)
      ensures y.a < |dst| && y.a !in hidden
    {
      if Pinned(pins, y) { assert y in Refs(v); }
    }
  }

  lemma CaptureRegion(
    src: seq<Object>, dst: seq<Object>, hidden: set<Addr>, links: set<Value>, origin: Origins, pins: Pins,
    region: set<Value>, v: Value, b: Value)
    requires HiddenClosed(src, pins, hidden, links) && Cloneable(src, pins, region, v)
    requires IsClone(src, dst, origin, pins, v, b) && OriginsIn(origin, pins, region)
    ensures Region(dst, pins, links + NewRefs(origin))
    ensures PointerFreeAcyclic(dst, links + NewRefs(origin))
    ensures forall x :: x in NewRefs(origin) ==> IsRef(x) && |src| <= x.a < |dst|
  {
    CloneIsCloneable(src, dst, origin, pins, region, v, b);
    RegionStable(src, dst, pins, links);
    NewRefsAreNew(src, dst, origin, pins);
    RegionsUnite(dst, pins, links, NewRefs(origin));
  }

  /** What one object holds after a capture. */
  lemma ObjectAvoids(s: State, dst: seq<Object>, origin: Origins, pins: Pins, region: set<Value>, a: Addr, w: Value)
    requires Inv(s) && HiddenClosed(s.h, pins, s.hidden, s.links) && PinsSound(pins, s.hidden, |s.h|)
    requires Region(s.h, pins, region) && RegionAvoids(region, s.hidden)
    requires CopiedGraph(s.h, dst, origin, pins) && OriginsIn(origin, pins, region)
    requires a < |dst| && Holds(dst[a], w)
    ensures SpyPtrsTyped(dst, w)
    ensures a in s.hidden || |s.h| <= a ==> PinnedAvoid(w, pins, s.hidden + NewAddrs(|s.h|, |dst|), |dst|)
    ensures a !in s.hidden && a < |s.h| ==> RefsAvoid(w, s.hidden + NewAddrs(|s.h|, |dst|), |dst|)
  {
    if a < |s.h| {
      OldObjectAvoids(s, dst, pins, a, w);
    } else {
      NewObjectAvoids(s, dst, origin, pins, region, a, w);
    }
  }

  /** Hidden memory after a capture. */
  lemma CaptureExtendsHidden(
    s: State, dst: seq<Object>, origin: Origins, pins: Pins, region: set<Value>, v: Value, b: Value)
    requires Inv(s) && HiddenClosed(s.h, pins, s.hidden, s.links) && PinsSound(pins, s.hidden, |s.h|)
    requires Cloneable(s.h, pins, region, v) && RegionAvoids(region, s.hidden)
    requires IsClone(s.h, dst, origin, pins, v, b) && OriginsIn(origin, pins, region)
    ensures HiddenClosed(dst, pins, s.hidden + NewAddrs(|s.h|, |dst|), s.links + NewRefs(origin))
    ensures SpiesTyped(dst) && PublicClosed(dst, s.hidden + NewAddrs(|s.h|, |dst|))
    ensures PinsSound(pins, s.hidden + NewAddrs(|s.h|, |dst|), |dst|)
  {
    CaptureRegion(s.h, dst, s.hidden, s.links, origin, pins, region, v, b);
    CaptureStaysPublic(s, dst, origin, pins, region);
  }

  lemma CaptureStaysPublic(s: State, dst: seq<Object>, origin: Origins, pins: Pins, region: set<Value>)
    requires Inv(s) && HiddenClosed(s.h, pins, s.hidden, s.links) && PinsSound(pins, s.hidden, |s.h|)
    requires Region(s.h, pins, region) && RegionAvoids(region, s.hidden)
    requires CopiedGraph(s.h, dst, origin, pins) && OriginsIn(origin, pins, region)
    ensures var hidden := s.hidden + NewAddrs(|s.h|, |dst|);
      && SpiesTyped(dst) && PublicClosed(dst, hidden)
      && forall a, w :: a in hidden && a < |dst| && Holds(dst[a], w) ==> PinnedAvoid(w, pins, hidden, |dst|)
  {
    var hidden := s.hidden + NewAddrs(|s.h|, |dst|);
    forall a: Addr, w ensures SealedAt(dst, pins, hidden, a, w) {
      if a < |dst| && Holds(dst[a], w) { ObjectAvoids(s, dst, origin, pins, region, a, w); }
    }
    SealedEverywhere(dst, pins, hidden);
  }

  ghost predicate SealedAt(h: seq<Object>, pins: Pins, hidden: set<Addr>, a: Addr, w: Value) {
    a < |h| && Holds(h[a], w) ==>
      SpyPtrsTyped(h, w) && if a in hidden then PinnedAvoid(w, pins, hidden, |h|) else RefsAvoid(w, hidden, |h|)
  }

  lemma SealedEverywhere(h: seq<Object>, pins: Pins, hidden: set<Addr>)
    requires forall a: Addr, w :: SealedAt(h, pins, hidden, a, w)
    ensures SpiesTyped(h) && PublicClosed(h, hidden)
    ensures forall a, w :: a in hidden && a < |h| && Holds(h[a], w) ==> PinnedAvoid(w, pins, hidden, |h|)
  {
    forall a: Addr, w | a < |h| && Holds(h[a], w)
      ensures SpyPtrsTyped(h, w)
      ensures if a in hidden then PinnedAvoid(w, pins, hidden, |h|) else RefsAvoid(w, hidden, |h|)
    {
      assert SealedAt(h, pins, hidden, a, w);
    }
  }

  lemma OldObjectAvoids(s: State, dst: seq<Object>, pins: Pins, a: Addr, w: Value)
    requires Inv(s) && HiddenClosed(s.h, pins, s.hidden, s.links) && s.h <= dst && a < |s.h| && Holds(s.h[a], w)
    ensures SpyPtrsTyped(dst, w)
    ensures a in s.hidden ==> PinnedAvoid(w, pins, s.hidden + NewAddrs(|s.h|, |dst|), |dst|)
    ensures a !in s.hidden ==> RefsAvoid(w, s.hidden + NewAddrs(|s.h|, |dst|), |dst|)
  {
    assert SpyPtrsTyped(s.h, w);
    if a in s.hidden {
      assert PinnedAvoid(w, pins, s.hidden, |s.h|);
    } else {
      assert RefsAvoid(w, s.hidden, |s.h|);
    }
  }

  lemma NewObjectAvoids(s: State, dst: seq<Object>, origin: Origins, pins: Pins, region: set<Value>, a: Addr, w: Value)
    requires PublicClosed(s.h, s.hidden) && SpiesTyped(s.h) && SPY_PTR in pins.types && RegionAvoids(region, s.hidden)
    requires forall i :: i in s.hidden ==> i < |s.h|
    requires CopiedGraph(s.h, dst, origin, pins) && OriginsIn(origin, pins, region)
    requires |s.h| <= a < |dst| && Holds(dst[a], w)
    ensures PinnedAvoid(w, pins, s.hidden + NewAddrs(|s.h|, |dst|), |dst|) && SpyPtrsTyped(dst, w)
  {
    assert Finished(s.h, dst, origin, pins, a);
    var x := HeldHasSource(s.h, dst, origin, pins, a, w);
    ShownIsHeld(s.h, origin[a], x);
    assert RefsAvoid(x, s.hidden, |s.h|) && SpyPtrsTyped(s.h, x);
    CaptureAvoidsHidden(s.h, dst, origin, pins, region, s.hidden, x, w);
    SpiesStayTyped(s.h, dst, pins, x, w);
  }

  /** Pointers to spies are pinned, so a clone holds those its source held. */
  lemma SpiesStayTyped(h: seq<Object>, dst: seq<Object>, pins: Pins, x: Value, w: Value)
    requires h <= dst && SPY_PTR in pins.types && SpyPtrsTyped(h, x)
    requires forall y :: y in Refs(w) && Pinned(pins, y) ==> y in Refs(x)
    ensures SpyPtrsTyped(dst, w)
  {
    forall y | y in Refs(w) && IsSpyPtr(y) ensures y.a < |dst| && dst[y.a].Cell? && IsSpy(dst[y.a].v) {
      assert Pinned(pins, y);
    }
  }

  lemma ExternalKeepsInv(s: State, s': State, a: Addr)
    requires Inv(s) && a < |s.h| && a !in s.hidden && s.h[a].Cell?
    requires s'.h == s.h && s'.roots == s.roots && s'.hidden == s.hidden && s'.links == s.links
    requires s'.pins == WithDouble(s.pins, a, s.h[a].v)
    requires s'.doubles == s.doubles + [Registration(a, None)]
    requires s'.taken == s.taken + [Capture(s.h, s'.pins, s.h[a].v)]
    ensures Inv(s')
  {
    RegisteringGrowsPins(s, a, s.h[a].v);
    forall i | 0 <= i < |s.doubles| ensures Backed(s', s.doubles[i], s.taken[i]) {
      BackedStays(s, s', s.doubles[i], s.taken[i]);
    }
  }

  lemma CaptureKeepsInv(s: State, s': State, a: Addr, b: Value, region: set<Value>, origin: Origins)
    requires Inv(s) && a < |s.h| && a !in s.hidden && s.h[a].Cell? && !IsSpy(s.h[a].v)
    requires s'.pins == WithDouble(s.pins, a, s.h[a].v)
    requires Cloneable(s.h, s'.pins, region, s.h[a].v) && RegionAvoids(region, s.hidden)
    requires IsClone(s.h, s'.h, origin, s'.pins, s.h[a].v, b) && OriginsIn(origin, s'.pins, region)
    requires s'.hidden == s.hidden + NewAddrs(|s.h|, |s'.h|) && s'.links == s.links + NewRefs(origin)
    requires s'.roots == s.roots
    requires s'.doubles == s.doubles + [Registration(a, Some(b))]
    requires s'.taken == s.taken + [Capture(s.h, s'.pins, s.h[a].v)]
    ensures Inv(s')
  {
    RegisteringGrowsPins(s, a, s.h[a].v);
    CaptureExtendsHidden(s, s'.h, origin, s'.pins, region, s.h[a].v, b);
    forall i | 0 <= i < |s.doubles| ensures Backed(s', s.doubles[i], s.taken[i]) {
      BackedStays(s, s', s.doubles[i], s.taken[i]);
    }
    NewlyBacked(s, s', origin, region, a, b);
  }

  lemma RegisterKeepsInv(s: State, s': State, a: Addr, isResetter: bool)
    requires Inv(s) && RegisterStep(s, s', a, isResetter)
    ensures Inv(s')
  {
    var v := s.h[a].v;
    var x :| Reached(s, x) && IsRef(x) && x.a == a;
    BaselinesUnreachable(s, x);
    if isResetter && !HasSpies(v) {
      ExternalKeepsInv(s, s', a);
    } else {
      if IsSpy(v) { SpiesHoldNoSpies(v); }
      var b, region, origin :| CaptureStep(s, s', a, b, region, origin);
      CaptureKeepsInv(s, s', a, b, region, origin);
    }
  }

  lemma NewlyBacked(s: State, s': State, origin: Origins, region: set<Value>, a: Addr, b: Value)
    requires Inv(s) && a < |s.h| && a !in s.hidden && s.h[a].Cell? && !IsSpy(s.h[a].v)
    requires Cloneable(s.h, s'.pins, region, s.h[a].v) && PinsSound(s'.pins, s.hidden, |s.h|)
    requires IsClone(s.h, s'.h, origin, s'.pins, s.h[a].v, b) && OriginsIn(origin, s'.pins, region)
    requires s'.hidden == s.hidden + NewAddrs(|s.h|, |s'.h|) && s'.links == s.links + NewRefs(origin)
    ensures Backed(s', Registration(a, Some(b)), Capture(s.h, s'.pins, s.h[a].v))
  {
    var v := s.h[a].v;
    assert Holds(s.h[a], v);
    assert RefsAvoid(v, s.hidden, |s.h|) && SpyPtrsTyped(s.h, v);
    CloneHasSameShape(s.h, s'.h, origin, s'.pins, region, v, b);
    CloneIsCloneable(s.h, s'.h, origin, s'.pins, region, v, b);
    CaptureAvoidsHidden(s.h, s'.h, origin, s'.pins, region, s.hidden, v, b);
    assert TypeOf(v) == SPY_TYPE ==> v.Struct? by { assert WellTyped(v); }
    assert HeldIn(s'.h, s'.pins, s'.links, b);
    SpiesStayTyped(s.h, s'.h, s'.pins, v, b);
  }

  // ---------- resets keep the invariant ----------

  /** The clone of a baseline, before it is stored in the double: it is public memory. */
  lemma FreshCopyIsPublic(s: State, d: Registration, c: Capture, dst: seq<Object>, origin: Origins, w: Value)
    requires Inv(s) && Backed(s, d, c) && d.baseline.Some?
    requires IsClone(s.h, dst, origin, s.pins, d.baseline.value, w) && OriginsIn(origin, s.pins, s.links)
    ensures PublicClosed(dst, s.hidden) && SpiesTyped(dst)
    ensures RefsAvoid(w, s.hidden, |dst|) && SpyPtrsTyped(s.h, w)
    ensures forall i :: i in SpyTargets(w) ==> i < |s.h| && i !in s.hidden && s.h[i].Cell? && IsSpy(s.h[i].v)
  {
    forall a, x | 0 <= a < |dst| && a !in s.hidden && Holds(dst[a], x) ensures RefsAvoid(x, s.hidden, |dst|) {
      if |s.h| <= a {
        FreshObjectIsPublic(s, dst, origin, a, x);
      } else {
        assert RefsAvoid(x, s.hidden, |s.h|);
      }
    }
    forall a, x | 0 <= a < |dst| && Holds(dst[a], x) ensures SpyPtrsTyped(dst, x) {
      if |s.h| <= a {
        FreshObjectIsPublic(s, dst, origin, a, x);
      } else {
        assert SpyPtrsTyped(s.h, x);
      }
    }
    var b := d.baseline.value;
    CloneIsDetached(s.h, dst, origin, s.pins, b, w);
    forall i | i in SpyTargets(w) ensures i < |s.h| && i !in s.hidden && s.h[i].Cell? && IsSpy(s.h[i].v) {
      var k :| 0 <= k < |w.fields| && IsSpyPtr(w.fields[k]) && w.fields[k].a == i;
      assert w.fields[k] in Refs(w.fields[k]);
      assert w.fields[k] in Refs(w) && Pinned(s.pins, w.fields[k]);
    }
  }

  lemma FreshObjectIsPublic(s: State, dst: seq<Object>, origin: Origins, a: Addr, x: Value)
    requires Inv(s) && CopiedGraph(s.h, dst, origin, s.pins) && OriginsIn(origin, s.pins, s.links)
    requires |s.h| <= a < |dst| && Holds(dst[a], x)
    ensures RefsAvoid(x, s.hidden, |dst|) && SpyPtrsTyped(dst, x)
  {
    assert Finished(s.h, dst, origin, s.pins, a);
    var v := HeldHasSource(s.h, dst, origin, s.pins, a, x);
    var o := origin[a].a;
    ShownIsHeld(s.h, origin[a], v);
    assert o in s.hidden && PinnedAvoid(v, s.pins, s.hidden, |s.h|) && SpyPtrsTyped(s.h, v);
    CloneIsDetached(s.h, dst, origin, s.pins, v, x);
  }

  lemma ClearedKeepsType(v: Value, v': Value)
    requires SpyFieldsCleared(v, v')
    ensures TypeOf(v') == TypeOf(v)
  {
    if v.Struct? {
      forall i | 0 <= i < |v.fields| ensures TypeOf(v'.fields[i]) == TypeOf(v.fields[i]) {
      }
      assert TypeOf(v').fields == TypeOf(v).fields;
    }
  }

  /** One reset closure leaves baselines as they are and unreachable. */
  lemma RestoreIsPublicStep(s: State, h': seq<Object>, i: nat)
    requires Inv(s) && i < |s.doubles| && RestoreStep(s.h, h', s.pins, s.links, s.doubles[i])
    ensures PublicStep(s, s.(h := h'))
  {
    var d, c := s.doubles[i], s.taken[i];
    assert Backed(s, d, c);
    if d.baseline.Some? {
      var dst, origin, w :| Restores(s.h, h', s.pins, s.links, d, dst, origin, w);
      RestoresPublicly(s, h', i, dst, origin, w);
    }
  }

  lemma RestoresPublicly(s: State, h': seq<Object>, i: nat, dst: seq<Object>, origin: Origins, w: Value)
    requires Inv(s) && i < |s.doubles| && Restores(s.h, h', s.pins, s.links, s.doubles[i], dst, origin, w)
    ensures PublicStep(s, s.(h := h'))
  {
    var d, c := s.doubles[i], s.taken[i];
    assert Backed(s, d, c);
    FreshCopyIsPublic(s, d, c, dst, origin, w);
    RenamedKeepsType(origin, s.pins, d.baseline.value, w);
    CopyStoredPublicly(s, h', d.addr, dst, w);
  }

  /** Storing a public value in a double and clearing its spies. */
  lemma CopyStoredPublicly(s: State, h': seq<Object>, a: Addr, dst: seq<Object>, w: Value)
    requires s.h <= dst && PublicClosed(dst, s.hidden) && SpiesTyped(dst)
    requires RefsAvoid(w, s.hidden, |dst|) && SpyPtrsTyped(s.h, w) && RootsPublic(s.h, s.roots, s.hidden)
    requires a < |s.h| && a !in s.hidden && s.h[a].Cell? && TypeOf(w) == TypeOf(s.h[a].v) != SPY_TYPE
    requires forall i :: i in SpyTargets(w) ==> i < |s.h| && i !in s.hidden && s.h[i].Cell? && IsSpy(s.h[i].v)
    requires forall i :: i in s.hidden ==> i < |s.h|
    requires ClearStep(dst[a := Cell(w)], h', a)
    ensures PublicStep(s, s.(h := h'))
  {
    assert SpyPtrsTyped(dst, w);
    StoredIsPublic(dst, a, w, s.hidden);
    ClearStaysPublic(dst[a := Cell(w)], h', a, s.hidden);
    ClearedKeepsType(w, h'[a].v);
    TypesKept(s.h, dst, h', a, w);
    RootsStayPublic(s.h, h', s.roots, s.hidden);
  }

  lemma TypesKept(h: seq<Object>, dst: seq<Object>, h': seq<Object>, a: Addr, w: Value)
    requires h <= dst && a < |h| && h[a].Cell? && ClearStep(dst[a := Cell(w)], h', a)
    requires TypeOf(w) == TypeOf(h[a].v) != SPY_TYPE && SpyFieldsCleared(w, h'[a].v) && TypeOf(h'[a].v) == TypeOf(w)
    requires forall i :: i in SpyTargets(w) ==> i < |h| && h[i].Cell? && IsSpy(h[i].v)
    ensures forall i :: 0 <= i < |h| && h[i].Cell? ==> KeepsType(h[i], h'[i])
    ensures forall i :: 0 <= i < |h| && i != a && !(h[i].Cell? && IsSpy(h[i].v)) ==> h'[i] == h[i]
  {
  }

  lemma RootsStayPublic(h: seq<Object>, h': seq<Object>, roots: set<Value>, hidden: set<Addr>)
    requires RootsPublic(h, roots, hidden) && |h| <= |h'|
    requires forall i :: 0 <= i < |h| && h[i].Cell? ==> KeepsType(h[i], h'[i])
    ensures RootsPublic(h', roots, hidden)
  {
    forall v | v in roots ensures RefsAvoid(v, hidden, |h'|) && SpyPtrsTyped(h', v) {
      assert RefsAvoid(v, hidden, |h|) && SpyPtrsTyped(h, v);
    }
  }

  lemma StoredIsPublic(h: seq<Object>, a: Addr, w: Value, hidden: set<Addr>)
    requires PublicClosed(h, hidden) && SpiesTyped(h) && a < |h| && a !in hidden
    requires RefsAvoid(w, hidden, |h|) && SpyPtrsTyped(h, w)
    requires h[a].Cell? && TypeOf(h[a].v) != SPY_TYPE
    ensures PublicClosed(h[a := Cell(w)], hidden) && SpiesTyped(h[a := Cell(w)])
  {
    var h' := h[a := Cell(w)];
    forall o, x | 0 <= o < |h'| && Holds(h'[o], x) ensures SpyPtrsTyped(h', x) {
      assert SpyPtrsTyped(h, x);
    }
  }

  lemma ClearStaysPublic(h: seq<Object>, h': seq<Object>, a: Addr, hidden: set<Addr>)
    requires PublicClosed(h, hidden) && SpiesTyped(h) && a < |h| && a !in hidden && h[a].Cell?
    requires TypeOf(h[a].v) != SPY_TYPE
    requires forall i :: i in SpyTargets(h[a].v) ==> i < |h| && i !in hidden
    requires forall i :: i in hidden ==> i < |h|
    requires ClearStep(h, h', a)
    ensures PublicClosed(h', hidden) && SpiesTyped(h')
  {
    forall o, x | 0 <= o < |h'| && Holds(h'[o], x)
      ensures SpyPtrsTyped(h', x)
      ensures o !in hidden ==> RefsAvoid(x, hidden, |h'|)
    {
      if o < |h| {
        if h'[o] == h[o] {
          assert SpyPtrsTyped(h, x);
          assert o !in hidden ==> RefsAvoid(x, hidden, |h|);
        } else {
          assert Holds(h[o], h[o].v);
          assert SpyPtrsTyped(h, h[o].v) && RefsAvoid(h[o].v, hidden, |h|);
          assert ClearedRefs(h[o].v, x, |h|, |h'|);
        }
      } else {
        assert Refs(x) == {};
      }
    }
  }
}
