/** The checks themselves: calls grouped by method, expectations verified one by one. */
module VirtualSpies {
  import opened Filtering
  import opened Accounting

  // ---------- the buckets, one per method name ----------

  function Bucket(calls: map<string, seq<Call>>, name: string): seq<Call> {
    if name in calls then calls[name] else []
  }

  function OfMethod(left: set<Call>, name: string): set<Call> {
    set c | c in left && c.calleeMethod == name
  }

  ghost predicate InBucket(calls: map<string, seq<Call>>, left: set<Call>, name: string) {
    NoRepeats(Bucket(calls, name)) && Members(Bucket(calls, name)) == OfMethod(left, name)
  }

  /** The buckets hold the calls of left, each once and under its own method. */
  ghost predicate Sorted(calls: map<string, seq<Call>>, left: set<Call>) {
    forall name: string :: InBucket(calls, left, name)
  }

  function ByCaller(a: Expectation): Call -> bool { c => CallerAdmits(a, c) }
  function ByParams(a: Expectation): Call -> bool { c => ParamsAdmit(a, c) }
  function Unconsumed(consumed: set<Call>): Call -> bool { c => c !in consumed }
  function NotFromTest(): Call -> bool { c => !FromTest(c) }

  function MatchingIn(bucket: seq<Call>, a: Expectation): seq<Call> {
    Filter(ByParams(a), Filter(ByCaller(a), bucket))
  }

  lemma MatchingInMembers(bucket: seq<Call>, a: Expectation)
    ensures forall c :: c in MatchingIn(bucket, a) <==> c in bucket && CallerAdmits(a, c) && ParamsAdmit(a, c)
  {
    forall c ensures c in MatchingIn(bucket, a) <==> c in bucket && CallerAdmits(a, c) && ParamsAdmit(a, c) {
      FilterElements(ByCaller(a), bucket, c);
      FilterElements(ByParams(a), Filter(ByCaller(a), bucket), c);
    }
  }

  /** Filtering a bucket finds exactly the calls the expectation is about. */
  lemma MatchingInIsMatching(calls: map<string, seq<Call>>, left: set<Call>, a: Expectation)
    requires Sorted(calls, left)
    ensures var found := MatchingIn(Bucket(calls, a.funcName), a);
      NoRepeats(found) && Members(found) == Matching(left, a) && |found| == |Matching(left, a)|
  {
    var bucket := Bucket(calls, a.funcName);
    assert InBucket(calls, left, a.funcName);
    var admitted := Filter(ByCaller(a), bucket);
    var found := Filter(ByParams(a), admitted);
    FilterNoRepeats(ByCaller(a), bucket);
    FilterNoRepeats(ByParams(a), admitted);
    forall c ensures c in Members(found) <==> c in Matching(left, a) {
      FilterElements(ByCaller(a), bucket, c);
      FilterElements(ByParams(a), admitted, c);
      assert c in bucket <==> c in OfMethod(left, a.funcName) by {
        assert c in Members(bucket) <==> c in OfMethod(left, a.funcName);
      }
    }
    MembersCount(found);
  }

  /** Dropping consumed calls from their bucket drops them from what is left. */
  lemma ConsumeKeepsSorted(calls: map<string, seq<Call>>, left: set<Call>, name: string, consumed: set<Call>)
    requires Sorted(calls, left) && forall c :: c in consumed ==> c.calleeMethod == name
    ensures Sorted(calls[name := Filter(Unconsumed(consumed), Bucket(calls, name))], left - consumed)
  {
    var bucket := Bucket(calls, name);
    var kept := Filter(Unconsumed(consumed), bucket);
    var after := calls[name := kept];
    forall m: string ensures InBucket(after, left - consumed, m) {
      assert InBucket(calls, left, m);
      if m == name {
        FilterNoRepeats(Unconsumed(consumed), bucket);
        forall c ensures c in Members(kept) <==> c in OfMethod(left - consumed, m) {
          FilterElements(Unconsumed(consumed), bucket, c);
          assert c in Members(bucket) <==> c in OfMethod(left, m);
        }
      } else {
        assert Bucket(after, m) == Bucket(calls, m);
        assert OfMethod(left - consumed, m) == OfMethod(left, m);
      }
    }
  }

  lemma DeleteKeepsSorted(calls: map<string, seq<Call>>, left: set<Call>, name: string)
    requires Sorted(calls, left)
    ensures Sorted(calls - {name}, set c | c in left && c.calleeMethod != name)
  {
    var other := set c | c in left && c.calleeMethod != name;
    forall m: string ensures InBucket(calls - {name}, other, m) {
      assert InBucket(calls, left, m);
      if m == name {
        assert OfMethod(other, m) == {};
      } else {
        assert Bucket(calls - {name}, m) == Bucket(calls, m);
        assert OfMethod(other, m) == OfMethod(left, m);
      }
    }
  }

  function Flatten(spies: seq<seq<Call>>): seq<Call> {
    if spies == [] then [] else Flatten(spies[..|spies| - 1]) + spies[|spies| - 1]
  }

  /** The calls of all spies together. */
  ghost function Collected(spies: seq<seq<Call>>): set<Call> {
    set i, c | 0 <= i < |spies| && c in spies[i] :: c
  }

  lemma {:induction false} FlattenCollects(spies: seq<seq<Call>>)
    ensures Members(Flatten(spies)) == Collected(spies)
  {
    if spies == [] {
    } else {
      var n := |spies| - 1;
      FlattenCollects(spies[..n]);
      forall c ensures c in Collected(spies) <==> c in Collected(spies[..n]) || c in spies[n] {
        if c in Collected(spies) {
          var i :| 0 <= i < |spies| && c in spies[i];
          assert i < n ==> c in spies[..n][i];
        }
        if c in Collected(spies[..n]) {
          var i :| 0 <= i < n && c in spies[..n][i];
          assert c in spies[i];
        }
      }
    }
  }

  ghost predicate SameRecords(spies: seq<seq<Call>>, spies': seq<seq<Call>>) {
    |spies| == |spies'| && forall i :: 0 <= i < |spies| ==> SameCalls(spies[i], spies'[i])
  }

  lemma {:induction false} FlattenSame(spies: seq<seq<Call>>, spies': seq<seq<Call>>)
    requires SameRecords(spies, spies')
    ensures SameCalls(Flatten(spies), Flatten(spies'))
  {
    if spies == [] {
    } else {
      var n := |spies| - 1;
      FlattenSame(spies[..n], spies'[..n]);
      assert SameCalls(spies[n], spies'[n]);
    }
  }

  /** Arguments changed after a call whose snapshots were taken change neither
      verdict, whichever calls of whichever spies they belong to. */
  lemma SnapshotsKeepVerdicts(
    spies: seq<seq<Call>>, spies': seq<seq<Call>>, that: seq<Expectation>, checkUnexpected: bool)
    requires NoRepeats(Flatten(spies)) && NoRepeats(Flatten(spies')) && SameRecords(spies, spies')
    ensures Accepts(Collected(spies), that, checkUnexpected) <==> Accepts(Collected(spies'), that, checkUnexpected)
    ensures Covers(Collected(spies), that) <==> Covers(Collected(spies'), that)
  {
    FlattenSame(spies, spies');
    FlattenCollects(spies);
    FlattenCollects(spies');
    SameVerdicts(Flatten(spies), Flatten(spies'), that, checkUnexpected);
  }

  /** What a check works on: the calls of every spy the test can see. */
  class VirtualSpy {
    var record: seq<Call>
    var calls: map<string, seq<Call>>
    var unexpectedCalls: seq<Call>

    /** `collectTestCalls`: the spies come in no particular order. */
    constructor (spies: seq<seq<Call>>)
      requires NoRepeats(Flatten(spies))
      ensures record == Flatten(spies) && Sorted(calls, Members(record))
    {
      var all: seq<Call> := [];
      for i := 0 to |spies|
        invariant all == Flatten(spies[..i])
      {
        assert spies[..i + 1][..i] == spies[..i];
        all := all + spies[i];
      }
      assert spies[..|spies|] == spies;
      var grouped: map<string, seq<Call>> := map[];
      for i := 0 to |all|
        invariant Sorted(grouped, Members(all[..i]))
      {
        GroupStep(grouped, all, i);
        grouped := grouped[all[i].calleeMethod := Bucket(grouped, all[i].calleeMethod) + [all[i]]];
      }
      assert all[..|all|] == all;
      record, calls, unexpectedCalls := all, grouped, [];
    }

    method FilterMatchingCalls(recorded: seq<Call>, a: Expectation) returns (matching: seq<Call>)
      ensures matching == MatchingIn(recorded, a)
      ensures forall c :: c in matching <==>
        && c in recorded && (a.caller == "" || IsCallerMatch(a.caller, c.caller))
        && (a.args == [] || ParamsMatch(a.args, if c.snapshots.Some? then c.snapshots.value else c.params))
    {
      MatchingInMembers(recorded, a);
      if recorded == [] {
        return [];
      }
      matching := recorded;
      if a.caller != "" {
        matching := FilterByCaller(matching, a);
      } else {
        FilterAll(ByCaller(a), recorded);
      }
      if a.args != [] {
        var admitted := matching;
        var found: seq<Call> := [];
        for i := 0 to |admitted|
          invariant found == Filter(ByParams(a), admitted[..i])
        {
          FilterStep(ByParams(a), admitted, i);
          if ParamsMatch(a.args, admitted[i].Recorded()) {
            found := found + [admitted[i]];
          }
        }
        assert admitted[..|admitted|] == admitted;
        matching := found;
      } else {
        FilterAll(ByParams(a), matching);
      }
    }

    method FilterByCaller(recorded: seq<Call>, a: Expectation) returns (filtered: seq<Call>)
      requires a.caller != ""
      ensures filtered == Filter(ByCaller(a), recorded)
    {
      filtered := [];
      for i := 0 to |recorded|
        invariant filtered == Filter(ByCaller(a), recorded[..i])
      {
        FilterStep(ByCaller(a), recorded, i);
        if IsCallerMatch(a.caller, recorded[i].caller) {
          filtered := filtered + [recorded[i]];
        }
      }
      assert recorded[..|recorded|] == recorded;
    }

    method ConsumeMatchingCalls(name: string, toConsume: seq<Call>)
      modifies this`calls
      ensures toConsume == [] ==> calls == old(calls)
      ensures toConsume != [] ==>
        calls == old(calls)[name := Filter(Unconsumed(Members(toConsume)), Bucket(old(calls), name))]
    {
      if toConsume == [] {
        return;
      }
      var consumed: set<Call> := {};
      for i := 0 to |toConsume|
        invariant calls == old(calls) && consumed == Members(toConsume[..i])
      {
        assert Members(toConsume[..i + 1]) == Members(toConsume[..i]) + {toConsume[i]} by {
          assert toConsume[..i + 1] == toConsume[..i] + [toConsume[i]];
        }
        consumed := consumed + {toConsume[i]};
      }
      assert toConsume[..|toConsume|] == toConsume;
      assert consumed == Members(toConsume);
      var original := Bucket(calls, name);
      var remaining: seq<Call> := [];
      for i := 0 to |original|
        invariant calls == old(calls) && remaining == Filter(Unconsumed(consumed), original[..i])
      {
        FilterStep(Unconsumed(consumed), original, i);
        if original[i] !in consumed {
          remaining := remaining + [original[i]];
        }
      }
      assert original[..|original|] == original;
      calls := calls[name := remaining];
    }

    /** The verification of one expectation. */
    method VerifyOne(a: Expectation, ghost left: set<Call>) returns (errors: seq<Report>)
      requires Sorted(calls, left)
      modifies this`calls
      ensures Sorted(calls, Step(left, a).left)
      ensures errors == Step(left, a).errors
    {
      if a.invalid {
        return [Invalid(a)];
      }
      var all := Bucket(calls, a.funcName);
      var matching := FilterMatchingCalls(all, a);
      MatchingInIsMatching(calls, left, a);
      var satisfied := |matching| == a.times;
      if a.atLeast {
        satisfied := |matching| >= a.times;
      }
      errors := [];
      if !satisfied {
        errors := [Unsatisfied(a, |matching|)];
        DeleteKeepsSorted(calls, left, a.funcName);
        if |matching| == 0 && |all| > 0 {
          calls := calls - {a.funcName};
        } else if |matching| > 0 {
          calls := calls - {a.funcName};
        } else {
          NothingToDelete(calls, left, a.funcName);
        }
      } else {
        ConsumeMatched(calls, left, a);
        ConsumeMatchingCalls(a.funcName, matching);
      }
    }

    method VerifyExpectations(that: seq<Expectation>, ghost left: set<Call>) returns (errors: seq<Report>)
      requires Sorted(calls, left)
      modifies this`calls
      ensures errors == Verify(left, that).errors
      ensures Sorted(calls, Verify(left, that).left)
    {
      errors := [];
      ghost var now := left;
      for i := 0 to |that|
        invariant Sorted(calls, now)
        invariant errors + Verify(now, that[i..]).errors == Verify(left, that).errors
        invariant Verify(now, that[i..]).left == Verify(left, that).left
      {
        assert that[i..][0] == that[i] && that[i..][1..] == that[i + 1..];
        var more := VerifyOne(that[i], now);
        ghost var rest := Verify(Step(now, that[i]).left, that[i + 1..]).errors;
        assert errors + (more + rest) == (errors + more) + rest;
        now := Step(now, that[i]).left;
        errors := errors + more;
      }
    }

    /** Buckets are visited in any order. */
    method CheckUnexpectedCalls(ghost left: set<Call>) returns (ok: bool)
      requires Sorted(calls, left)
      modifies this`unexpectedCalls
      ensures NoRepeats(unexpectedCalls)
      ensures forall c :: c in unexpectedCalls <==> c in left && !("Test" <= c.callerMethod)
      ensures ok <==> forall c :: c in left ==> "Test" <= c.callerMethod
    {
      unexpectedCalls := [];
      var todo := calls.Keys;
      while todo != {}
        invariant todo <= calls.Keys && Gathered(unexpectedCalls, calls, left, todo)
        decreases |todo|
      {
        var name :| name in todo;
        var remaining := calls[name];
        ghost var before := unexpectedCalls;
        for i := 0 to |remaining|
          invariant unexpectedCalls == before + Filter(NotFromTest(), remaining[..i])
        {
          FilterStep(NotFromTest(), remaining, i);
          if !("Test" <= remaining[i].callerMethod) {
            unexpectedCalls := unexpectedCalls + [remaining[i]];
          }
        }
        assert remaining[..|remaining|] == remaining;
        GatherStep(before, calls, left, todo, name);
        todo := todo - {name};
      }
      GatheredAll(unexpectedCalls, calls, left);
      ok := |unexpectedCalls| == 0;
      assert !ok ==> unexpectedCalls[0] in unexpectedCalls;
    }
  }

  lemma GroupStep(grouped: map<string, seq<Call>>, all: seq<Call>, i: nat)
    requires NoRepeats(all) && i < |all| && Sorted(grouped, Members(all[..i]))
    ensures var name := all[i].calleeMethod;
      Sorted(grouped[name := Bucket(grouped, name) + [all[i]]], Members(all[..i + 1]))
  {
    var c := all[i];
    var after := grouped[c.calleeMethod := Bucket(grouped, c.calleeMethod) + [c]];
    assert all[..i + 1] == all[..i] + [c];
    var was, now := Members(all[..i]), Members(all[..i + 1]);
    assert now == was + {c} && c !in was;
    forall m: string ensures InBucket(after, now, m) {
      assert InBucket(grouped, was, m);
      if m == c.calleeMethod {
        assert c !in Members(Bucket(grouped, m));
        assert Members(Bucket(after, m)) == Members(Bucket(grouped, m)) + {c};
      } else {
        assert Bucket(after, m) == Bucket(grouped, m);
        assert OfMethod(now, m) == OfMethod(was, m);
      }
    }
  }

  lemma NothingToDelete(calls: map<string, seq<Call>>, left: set<Call>, name: string)
    requires Sorted(calls, left) && Bucket(calls, name) == []
    ensures (set c | c in left && c.calleeMethod != name) == left
  {
    assert InBucket(calls, left, name);
    forall c | c in left ensures c.calleeMethod != name {
      assert c in OfMethod(left, name) ==> c in Members(Bucket(calls, name));
    }
  }

  lemma ConsumeMatched(calls: map<string, seq<Call>>, left: set<Call>, a: Expectation)
    requires Sorted(calls, left)
    ensures var found := MatchingIn(Bucket(calls, a.funcName), a);
      if found == [] then left - Matching(left, a) == left
      else Sorted(calls[a.funcName := Filter(Unconsumed(Members(found)), Bucket(calls, a.funcName))],
                  left - Matching(left, a))
  {
    MatchingInIsMatching(calls, left, a);
    ConsumeKeepsSorted(calls, left, a.funcName, Matching(left, a));
  }

  /** The calls of the buckets already visited that no test made itself. */
  ghost predicate Gathered(out: seq<Call>, calls: map<string, seq<Call>>, left: set<Call>, todo: set<string>) {
    NoRepeats(out) &&
    forall c :: c in out <==> c in left && !FromTest(c) && c.calleeMethod in calls.Keys && c.calleeMethod !in todo
  }

  lemma GatherStep(
    out: seq<Call>, calls: map<string, seq<Call>>, left: set<Call>, todo: set<string>, name: string)
    requires Sorted(calls, left) && name in todo && name in calls && Gathered(out, calls, left, todo)
    ensures Gathered(out + Filter(NotFromTest(), calls[name]), calls, left, todo - {name})
  {
    var more := Filter(NotFromTest(), calls[name]);
    assert InBucket(calls, left, name);
    FilterNoRepeats(NotFromTest(), calls[name]);
    forall c ensures c in more <==> c in left && !FromTest(c) && c.calleeMethod == name {
      FilterElements(NotFromTest(), calls[name], c);
      assert c in Members(calls[name]) <==> c in OfMethod(left, name);
    }
    forall i, j | 0 <= i < j < |out + more| ensures (out + more)[i] != (out + more)[j] {
      if i < |out| <= j {
        assert out[i] in out && more[j - |out|] in more;
      }
    }
  }

  lemma GatheredAll(out: seq<Call>, calls: map<string, seq<Call>>, left: set<Call>)
    requires Sorted(calls, left) && Gathered(out, calls, left, {})
    ensures forall c :: c in out <==> c in left && !FromTest(c)
  {
    forall c | c in left ensures c.calleeMethod in calls.Keys {
      assert InBucket(calls, left, c.calleeMethod);
      assert c in OfMethod(left, c.calleeMethod);
      assert c in Members(Bucket(calls, c.calleeMethod));
    }
  }

  /** `assertCalls`. */
  method AssertCalls(spies: seq<seq<Call>>, checkUnexpected: bool, that: seq<Expectation>) returns (ok: bool)
    requires NoRepeats(Flatten(spies))
    ensures ok <==> Accepts(Collected(spies), that, checkUnexpected)
  {
    if that == [] && !checkUnexpected {
      return true;
    }
    var spy := new VirtualSpy(spies);
    ghost var all := Collected(spies);
    FlattenCollects(spies);
    VerdictExactly(all, that);
    var errors := spy.VerifyExpectations(that, all);
    if checkUnexpected {
      var clean := spy.CheckUnexpectedCalls(Verify(all, that).left);
      if !clean {
        errors := errors + [Leftover];
      }
    }
    return errors == [];
  }

  /** `checkUncoveredCalls`. */
  method CheckUncoveredCalls(spies: seq<seq<Call>>, that: seq<Expectation>) returns (ok: bool)
    requires NoRepeats(Flatten(spies))
    ensures ok <==> Covers(Collected(spies), that)
  {
    var spy := new VirtualSpy(spies);
    ghost var all := Collected(spies);
    FlattenCollects(spies);
    ghost var left := all;
    for i := 0 to |that|
      invariant Sorted(spy.calls, left)
      invariant Cover(left, that[i..]) == Cover(all, that)
    {
      assert that[i..][0] == that[i] && that[i..][1..] == that[i + 1..];
      if that[i].invalid {
        continue;
      }
      var matching := spy.FilterMatchingCalls(Bucket(spy.calls, that[i].funcName), that[i]);
      MatchingInIsMatching(spy.calls, left, that[i]);
      ConsumeMatched(spy.calls, left, that[i]);
      spy.ConsumeMatchingCalls(that[i].funcName, matching);
      left := left - Matching(left, that[i]);
    }
    ok := spy.CheckUnexpectedCalls(left);
    UncoveredExactly(all, that);
  }
}
