/** The order in which doubles are registered decides whether references between
    them survive a reset: runs of the code in each order. */
module RegistrationOrder {
  import opened Options
  import opened Values
  import opened Cloning
  import opened Reproduction
  import opened CloneExists
  import opened DoubleRuns
  import opened DoubleRestore
  import opened Doubles

  const CLIENT: TypeId := 10
  const SERVER_PTR: TypeId := 11
  const SERVER: TypeId := 12
  const CLIENT_PTR: TypeId := 13

  /** The pointer to the server, which is at address 1; the client is at 0. */
  const TO_SERVER := Ptr(SERVER_PTR, 1)

  /** c is a client whose first field points to the server, and v a server; neither
      has spies or other references. */
  ghost predicate Wired(c: Value, v: Value) {
    && WellTyped(c) && WellTyped(v) && c.Struct? && |c.fields| > 0 && c.fields[0] == TO_SERVER
    && Refs(c) == {TO_SERVER} && Refs(v) == {}
    && !ZeroSize(TypeOf(c)) && !ZeroSize(TypeOf(v))
    && !HasSpies(c) && !HasSpies(v) && !IsSpy(c) && !IsSpy(v)
  }

  const CLIENT_STATE := Struct(CLIENT, [TO_SERVER])
  const SERVER_STATE := Struct(SERVER, [Scalar(5)])

  lemma ClientAndServerWired()
    ensures Wired(CLIENT_STATE, SERVER_STATE)
  {
    assert CLIENT_STATE.fields[0] == TO_SERVER && SERVER_STATE.fields[0] == Scalar(5);
    assert TO_SERVER in Refs(CLIENT_STATE.fields[0]);
    FieldTypes(CLIENT_STATE, 0);
    FieldTypes(SERVER_STATE, 0);
  }

  /** The program's variables point to both; nothing is registered yet. */
  const ROOTS := {Ptr(CLIENT_PTR, 0), TO_SERVER}

  ghost predicate Unregistered(s: State, c: Value, v: Value) {
    s == State([Cell(c), Cell(v)], ROOTS, Pins({}, {SPY_PTR}), [], {}, {}, [])
  }

  lemma UnregisteredInv(s: State, c: Value, v: Value)
    requires Wired(c, v) && Unregistered(s, c, v)
    ensures Inv(s)
  {
    forall a, x | 0 <= a < |s.h| && Holds(s.h[a], x)
      ensures RefsAvoid(x, s.hidden, |s.h|) && SpyPtrsTyped(s.h, x) {}
    forall x | x in s.roots ensures RefsAvoid(x, s.hidden, |s.h|) && SpyPtrsTyped(s.h, x) {
      assert Refs(x) == {x};
    }
    assert Ranked(s.h, s.links, (_: Value) => 0);
  }

  lemma RootsReach(s: State)
    requires s.roots == ROOTS
    ensures Reaches(s, 0) && Reaches(s, 1)
  {
    forall x | x in s.roots ensures Reached(s, x) {
      assert Walk(s.h, NO_PINS, x, []) == Some(x) && x in Refs(x);
    }
    assert Ptr(CLIENT_PTR, 0) in s.roots && TO_SERVER in s.roots;
  }

  /** What the client's first field holds. */
  function ClientField(h: seq<Object>): Option<Value> {
    if |h| > 0 && h[0].Cell? then Walk(h, NO_PINS, h[0].v, [Field(0)]) else None
  }

  ghost predicate IsPrivateCopy(f: Option<Value>) {
    f.Some? && f.value.Ptr? && f.value.t == SERVER_PTR && f.value.a != 1
  }

  lemma FieldWalk(h: seq<Object>, pins: Pins, v: Value)
    ensures Walk(h, pins, v, [Field(0)]) == Walk(h, NO_PINS, v, [Field(0)])
  {
    assert Take(h, pins, v, Field(0)) == Take(h, NO_PINS, v, Field(0));
  }

  lemma WiredWalk(h: seq<Object>, pins: Pins, c: Value, v: Value)
    requires Wired(c, v)
    ensures Walk(h, pins, c, [Field(0)]) == Some(TO_SERVER) && OutsideSpies(TypeOf(c), [Field(0)])
  {
    assert Take(h, pins, c, Field(0)) == Some(TO_SERVER);
    FieldTypes(c, 0);
  }

  ghost predicate TwoThenReset(s0: State, s1: State, s2: State, s3: State, first: Addr, second: Addr) {
    RegisterStep(s0, s1, first, false) && RegisterStep(s1, s2, second, false) && ResetStep(s2, s3)
  }

  lemma IsThreeSteps(s0: State, s1: State, s2: State, s3: State, first: Addr, second: Addr)
    requires TwoThenReset(s0, s1, s2, s3, first, second)
    ensures IsRun([s0, s1, s2, s3])
  {
    var r := [s0, s1, s2, s3];
    assert StepAt(r, 0) && StepAt(r, 1) && StepAt(r, 2);
  }

  lemma Registers(s: State, s': State, a: Addr)
    requires RegisterStep(s, s', a, false)
    ensures |s'.doubles| == |s.doubles| + 1 && s'.doubles[|s.doubles|].addr == a
    ensures s'.pins == WithDouble(s.pins, a, s.h[a].v) && s.h <= s'.h
  {
  }

  /** A client registered at step k gets its pointer back exactly when it was pinned by then. */
  lemma FieldAfterReset(r: seq<State>, k: nat, m: nat, x: Value)
    requires IsRun(r) && Inv(r[0]) && k < m < |r| - 1
    requires RegisterStep(r[k], r[k + 1], 0, false) && ResetStep(r[m], r[m + 1])
    requires forall i :: |r[k].doubles| < i < |r[m].doubles| ==> r[m].doubles[i].addr != 0
    requires OutsideSpies(TypeOf(r[k].h[0].v), [Field(0)])
    requires Walk(r[k].h, r[k + 1].pins, r[k].h[0].v, [Field(0)]) == Some(x) && x.Ptr?
    ensures var f := ClientField(r[m + 1].h);
      f.Some? && f.value.Ptr? && f.value.t == x.t && (f.value == x <==> Pinned(r[k + 1].pins, x))
  {
    var p := [Field(0)];
    RunWiring(r, k, m, 0, false, p);
    RunRestores(r, k, m, 0, false);
    FieldSeen(r[k].h, r[k + 1].pins, r[k].h[0].v, r[m + 1].h, r[m + 1].pins, |r[m].h|, x);
  }

  lemma FieldSeen(h: seq<Object>, pins: Pins, v: Value, h': seq<Object>, pins': Pins, n: nat, x: Value)
    requires |h'| > 0 && h'[0].Cell? && RestoredTo(h', pins', h'[0].v, Capture(h, pins, v), n)
    requires OutsideSpies(TypeOf(v), [Field(0)]) && Walk(h, pins, v, [Field(0)]) == Some(x) && x.Ptr?
    ensures var f := ClientField(h');
      f == Walk(h', pins', h'[0].v, [Field(0)]) && f.Some? && f.value.Ptr? && f.value.t == x.t
  {
    FieldWalk(h', pins', h'[0].v);
    assert CopiedAt(h, pins, v, h', pins', h'[0].v, [Field(0)], [Field(0)]);
  }

  /** Client first: after a reset it points to a private copy of the server. */
  lemma ClientFirstLosesWiring(s0: State, s1: State, s2: State, s3: State, c: Value, v: Value)
    requires Wired(c, v) && Unregistered(s0, c, v) && TwoThenReset(s0, s1, s2, s3, 0, 1)
    ensures IsPrivateCopy(ClientField(s3.h))
  {
    IsThreeSteps(s0, s1, s2, s3, 0, 1);
    UnregisteredInv(s0, c, v);
    Registers(s0, s1, 0);
    Registers(s1, s2, 1);
    WiredWalk(s0.h, s1.pins, c, v);
    FieldAfterReset([s0, s1, s2, s3], 0, 2, TO_SERVER);
  }

  /** Server first: the client still points to the server itself. */
  lemma ServerFirstKeepsWiring(s0: State, s1: State, s2: State, s3: State, c: Value, v: Value)
    requires Wired(c, v) && Unregistered(s0, c, v) && TwoThenReset(s0, s1, s2, s3, 1, 0)
    ensures ClientField(s3.h) == Some(TO_SERVER)
  {
    IsThreeSteps(s0, s1, s2, s3, 1, 0);
    UnregisteredInv(s0, c, v);
    Registers(s0, s1, 1);
    Registers(s1, s2, 0);
    WiredWalk(s1.h, s2.pins, c, v);
    FieldAfterReset([s0, s1, s2, s3], 1, 2, TO_SERVER);
  }

  // ---------- the two runs ----------

  lemma ServerCloneable(h: seq<Object>, pins: Pins, c: Value, v: Value)
    requires Wired(c, v) && PinsWithin(pins, |h|)
    ensures Cloneable(h, pins, {}, v)
  {
    assert Ranked(h, {}, (_: Value) => 0);
  }

  /** The cloner enters the server unless it is pinned. */
  lemma ClientCloneable(h: seq<Object>, pins: Pins, c: Value, v: Value)
    requires Wired(c, v) && |h| >= 2 && h[1] == Cell(v) && PinsWithin(pins, |h|)
    ensures Cloneable(h, pins, {TO_SERVER}, c)
  {
    assert Ranked(h, {TO_SERVER}, (_: Value) => 0);
  }

  method Start(c: Value, v: Value) returns (doubles: DoubleSet)
    requires Wired(c, v)
    ensures Unregistered(doubles.Now(), c, v) && Inv(doubles.Now()) && fresh(doubles) && fresh(doubles.mem)
  {
    var mem := new Memory();
    var _ := mem.Alloc(Cell(c));
    var _ := mem.Alloc(Cell(v));
    var none: set<TypeId> := {};
    assert none + {SPY_PTR} == {SPY_PTR};
    UnregisteredInv(State(mem.objs, ROOTS, Pins({}, none + {SPY_PTR}), [], {}, {}, []), c, v);
    doubles := new DoubleSet(mem, none, ROOTS);
  }

  method Register(doubles: DoubleSet, double: Addr, ghost c: Value, ghost v: Value)
    requires Wired(c, v) && Inv(doubles.Now()) && doubles.roots == ROOTS && double < 2
    requires [Cell(c), Cell(v)] <= doubles.mem.objs
    modifies doubles, doubles.mem
    ensures RegisterStep(old(doubles.Now()), doubles.Now(), double, false) && Inv(doubles.Now())
    ensures doubles.roots == ROOTS && [Cell(c), Cell(v)] <= doubles.mem.objs
  {
    RootsReach(doubles.Now());
    ghost var x := if double == 0 then c else v;
    assert doubles.mem.objs[double] == Cell(x);
    ghost var pins := WithDouble(doubles.pins, double, x);
    ghost var region := if double == 0 then {TO_SERVER} else {};
    ServerCloneable(doubles.mem.objs, pins, c, v);
    ClientCloneable(doubles.mem.objs, pins, c, v);
    CloneableHasNoLoop(doubles.mem.objs, pins, region, x);
    var _ := doubles.NewDouble(double, false, region);
  }

  /** The client is registered before the server it points to. */
  method ClientFirst() returns (h: seq<Object>)
    ensures IsPrivateCopy(ClientField(h))
  {
    ClientAndServerWired();
    h := ClientThenServer(CLIENT_STATE, SERVER_STATE);
  }

  method ClientThenServer(c: Value, v: Value) returns (h: seq<Object>)
    requires Wired(c, v)
    ensures IsPrivateCopy(ClientField(h))
  {
    var doubles := Start(c, v);
    ghost var s0 := doubles.Now();
    Register(doubles, 0, c, v);
    ghost var s1 := doubles.Now();
    Register(doubles, 1, c, v);
    ghost var s2 := doubles.Now();
    doubles.Reset();
    ClientFirstLosesWiring(s0, s1, s2, doubles.Now(), c, v);
    return doubles.mem.objs;
  }

  /** The server is registered before the client that points to it. */
  method ServerFirst() returns (h: seq<Object>)
    ensures ClientField(h) == Some(TO_SERVER)
  {
    ClientAndServerWired();
    h := ServerThenClient(CLIENT_STATE, SERVER_STATE);
  }

  method ServerThenClient(c: Value, v: Value) returns (h: seq<Object>)
    requires Wired(c, v)
    ensures ClientField(h) == Some(TO_SERVER)
  {
    var doubles := Start(c, v);
    ghost var s0 := doubles.Now();
    Register(doubles, 1, c, v);
    ghost var s1 := doubles.Now();
    Register(doubles, 0, c, v);
    ghost var s2 := doubles.Now();
    doubles.Reset();
    ServerFirstKeepsWiring(s0, s1, s2, doubles.Now(), c, v);
    return doubles.mem.objs;
  }
}
