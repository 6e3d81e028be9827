/** Call accounting of internal/core/spy.go: expectations are matched against the
    recorded calls and consume what they match; what is left is unexpected. */
module Accounting {
  import opened Options
  import opened Filtering

  /** Argument values, compared by deep equality. */
  type Arg = int

  datatype Expected = Anything | Matcher(matches: Arg -> bool) | Exactly(v: Arg)

  /** `seqNo` is the record's global sequence number, its identity. */
  datatype Call = Call(
    seqNo: nat, caller: string, callerMethod: string, calleeMethod: string,
    params: seq<Arg>, snapshots: Option<seq<Arg>>)
  {
    /** What matching looks at: the arguments as they were at call time, when a
        snapshot of them was taken. */
    function Recorded(): seq<Arg> {
      if snapshots.Some? then snapshots.value else params
    }
  }

  datatype Expectation = Expectation(
    invalid: bool, caller: string, funcName: string, args: seq<Expected>, times: int, atLeast: bool)

  // ---------- matching ----------

  predicate ArgMatches(e: Expected, actual: Arg) {
    match e
    case Anything => true
    case Matcher(f) => f(actual)
    case Exactly(v) => v == actual
  }

  predicate ParamsMatch(expected: seq<Expected>, actual: seq<Arg>) {
    |expected| == |actual| && forall i :: 0 <= i < |expected| ==> ArgMatches(expected[i], actual[i])
  }

  /** The position after the last dot; 0 when there is none. */
  function AfterLastDot(s: string): (n: nat)
    ensures n <= |s|
  {
    if s == "" then 0 else if s[|s| - 1] == '.' then |s| else AfterLastDot(s[..|s| - 1])
  }

  /** `splitPackageAndType`. */
  function SplitPackageAndType(component: string): (string, string) {
    var n := AfterLastDot(component);
    if n == 0 then ("", component) else (component[..n - 1], component[n..])
  }

  lemma {:induction false} AfterLastDotIsLast(s: string)
    ensures '.' !in s[AfterLastDot(s)..]
    ensures if AfterLastDot(s) == 0 then '.' !in s else s[AfterLastDot(s) - 1] == '.'
  {
    if s == "" || s[|s| - 1] == '.' {
    } else {
      var front := s[..|s| - 1];
      AfterLastDotIsLast(front);
      assert s[AfterLastDot(s)..] == front[AfterLastDot(s)..] + [s[|s| - 1]];
      assert s == front + [s[|s| - 1]];
    }
  }

  /** The type is what follows the last dot; without a dot there is no package. */
  lemma SplitPackageAndTypeExact(component: string)
    ensures var (pkg, typ) := SplitPackageAndType(component);
      '.' !in typ && component == if '.' in component then pkg + "." + typ else typ
    ensures '.' !in component ==> SplitPackageAndType(component).0 == ""
  {
    AfterLastDotIsLast(component);
  }

  predicate OccursAt(s: string, part: string, i: nat) {
    i + |part| <= |s| && s[i..i + |part|] == part
  }

  predicate Contains(s: string, part: string) {
    exists i: nat :: i <= |s| && OccursAt(s, part, i)
  }

  predicate IsCallerMatch(expected: string, actual: string) {
    expected == actual ||
    var (expectedPkg, expectedType) := SplitPackageAndType(expected);
    var (actualPkg, actualType) := SplitPackageAndType(actual);
    expectedPkg == actualPkg && Contains(expectedType, actualType)
  }

  predicate CallerAdmits(a: Expectation, c: Call) {
    a.caller == "" || IsCallerMatch(a.caller, c.caller)
  }

  predicate ParamsAdmit(a: Expectation, c: Call) {
    a.args == [] || ParamsMatch(a.args, c.Recorded())
  }

  /** The expectation is about this call. */
  predicate Matches(a: Expectation, c: Call) {
    c.calleeMethod == a.funcName && CallerAdmits(a, c) && ParamsAdmit(a, c)
  }

  /** A call a test function made itself. */
  predicate FromTest(c: Call) {
    "Test" <= c.callerMethod
  }

  // ---------- what matching means ----------

  /** s is the package, a dot and the type, which has no dot; or the type alone. */
  ghost predicate Component(s: string, pkg: string, typ: string) {
    '.' !in typ && (s == pkg + "." + typ || (pkg == "" && s == typ))
  }

  /** The caller is the expected one when the packages agree and the expected type
      has the actual one somewhere in it. */
  lemma CallerMatchExactly(expected: string, actual: string, p: string, t: string, q: string, u: string)
    requires Component(expected, p, t) && Component(actual, q, u)
    ensures IsCallerMatch(expected, actual) <==> p == q && exists pre, post :: t == pre + u + post
  {
    ComponentSplits(expected, p, t);
    ComponentSplits(actual, q, u);
    ContainsExactly(t, u);
    if expected == actual { assert t == [] + u + []; }
  }

  lemma ComponentSplits(s: string, pkg: string, typ: string)
    requires Component(s, pkg, typ)
    ensures SplitPackageAndType(s) == (pkg, typ)
  {
    AfterLastDotIsLast(s);
    var n, k := AfterLastDot(s), |s| - |typ|;
    assert s[k..] == typ;
    forall i | 0 <= i < |s| ensures (n <= i || k <= i) ==> s[i] != '.' {
      if n <= i { assert s[n..][i - n] == s[i]; }
      if k <= i { assert typ[i - k] == s[i]; }
    }
    assert (n > 0 ==> s[n - 1] == '.') && (k > 0 ==> s[k - 1] == '.');
    if n > 0 { assert s[..n - 1] == pkg; }
  }

  lemma ContainsExactly(s: string, part: string)
    ensures Contains(s, part) <==> exists pre, post :: s == pre + part + post
  {
    if Contains(s, part) {
      var i: nat :| i <= |s| && OccursAt(s, part, i);
      assert s == s[..i] + part + s[i + |part|..];
    }
    if pre, post :| s == pre + part + post {
      assert OccursAt(s, part, |pre|);
    }
  }

  /** Everything matching looks at: the method, the caller, and the arguments as they
      were at call time when a snapshot was taken, otherwise as they are. */
  lemma MatchesExactly(a: Expectation, c: Call, p: string, t: string, q: string, u: string)
    requires Component(a.caller, p, t) && Component(c.caller, q, u)
    ensures Matches(a, c) <==>
      && c.calleeMethod == a.funcName
      && (a.caller == "" || (p == q && exists pre, post :: t == pre + u + post))
      && (a.args == [] ||
            var seen := if c.snapshots.Some? then c.snapshots.value else c.params;
            |a.args| == |seen| && forall i :: 0 <= i < |seen| ==>
              match a.args[i]
              case Anything => true
              case Matcher(f) => f(seen[i])
              case Exactly(v) => v == seen[i])
  {
    CallerMatchExactly(a.caller, c.caller, p, t, q, u);
  }

  /** A call whose arguments were snapshot is matched by exactly the expectations
      that match a call with those very arguments. */
  lemma SnapshotDecides(a: Expectation, c: Call, x: seq<Arg>)
    requires c.snapshots == Some(x)
    ensures Matches(a, c) <==> Matches(a, c.(params := x, snapshots := None))
  {
  }

  // ---------- accounting on sets of calls ----------

  function Matching(left: set<Call>, a: Expectation): set<Call> {
    set c | c in left && Matches(a, c)
  }

  predicate Satisfied(a: Expectation, count: nat) {
    if a.atLeast then count >= a.times else count == a.times
  }

  /** What an error message is about: a broken expectation, one not satisfied by the
      number of calls found, or the calls nobody expected. */
  datatype Report = Invalid(a: Expectation) | Unsatisfied(a: Expectation, actual: nat) | Leftover

  /** What expectations leave, report and take. */
  datatype Outcome = Outcome(left: set<Call>, errors: seq<Report>, taken: seq<set<Call>>)

  function Step(left: set<Call>, a: Expectation): (r: Outcome)
    ensures |r.taken| == 1 && r.left <= left
  {
    if a.invalid then Outcome(left, [Invalid(a)], [{}])
    else
      var m := Matching(left, a);
      if Satisfied(a, |m|) then Outcome(left - m, [], [m])
      else Outcome(set c | c in left && c.calleeMethod != a.funcName, [Unsatisfied(a, |m|)], [{}])
  }

  function Verify(left: set<Call>, that: seq<Expectation>): (r: Outcome)
    ensures |r.taken| == |that| && r.left <= left
  {
    if that == [] then Outcome(left, [], [])
    else
      var first := Step(left, that[0]);
      var rest := Verify(first.left, that[1..]);
      Outcome(rest.left, first.errors + rest.errors, first.taken + rest.taken)
  }

  /** `checkUncoveredCalls`: counts are not looked at, invalid expectations are skipped. */
  function Cover(left: set<Call>, that: seq<Expectation>): set<Call> {
    if that == [] then left
    else if that[0].invalid then Cover(left, that[1..])
    else Cover(left - Matching(left, that[0]), that[1..])
  }

  // ---------- what consumption means ----------

  ghost predicate Apart(taken: seq<set<Call>>, i: nat, j: nat) {
    i < |taken| && j < |taken| && taken[i] !! taken[j]
  }

  ghost predicate TakenBySome(taken: seq<set<Call>>, c: Call) {
    exists i :: 0 <= i < |taken| && c in taken[i]
  }

  /** The calls of the record are each taken by one expectation or left. */
  ghost predicate Partitions(record: set<Call>, r: Outcome) {
    && r.left <= record
    && (forall i, j :: 0 <= i < j < |r.taken| ==> Apart(r.taken, i, j))
    && (forall c :: c in record <==> c in r.left || TakenBySome(r.taken, c))
    && (forall c :: c in r.left ==> !TakenBySome(r.taken, c))
  }

  ghost predicate TookEnough(that: seq<Expectation>, taken: seq<set<Call>>)
    requires |that| == |taken|
  {
    forall i :: 0 <= i < |that| ==>
      && !that[i].invalid
      && (if that[i].atLeast then |taken[i]| >= that[i].times else |taken[i]| == that[i].times)
      && forall c :: c in taken[i] ==> Matches(that[i], c)
  }

  lemma TakenInFront(first: set<Call>, rest: seq<set<Call>>, c: Call)
    ensures TakenBySome([first] + rest, c) <==> c in first || TakenBySome(rest, c)
  {
    var taken := [first] + rest;
    if c in first { assert c in taken[0]; }
    if TakenBySome(rest, c) {
      var i :| 0 <= i < |rest| && c in rest[i];
      assert c in taken[i + 1];
    }
  }

  lemma ApartInFront(first: set<Call>, rest: seq<set<Call>>)
    requires forall i, j :: 0 <= i < j < |rest| ==> Apart(rest, i, j)
    requires forall c :: TakenBySome(rest, c) ==> c !in first
    ensures forall i, j :: 0 <= i < j < |rest| + 1 ==> Apart([first] + rest, i, j)
  {
    var taken := [first] + rest;
    forall i, j | 0 <= i < j < |taken| ensures Apart(taken, i, j) {
      assert taken[j] == rest[j - 1];
      if i == 0 {
        forall c | c in taken[j] ensures c !in first { assert TakenBySome(rest, c); }
      } else {
        assert Apart(rest, i - 1, j - 1);
      }
    }
  }

  /** One more expectation in front keeps a partition a partition. */
  lemma PartitionsStep(record: set<Call>, first: set<Call>, rest: Outcome)
    requires first <= record && Partitions(record - first, rest)
    ensures Partitions(record, Outcome(rest.left, [], [first] + rest.taken))
  {
    forall c ensures TakenBySome([first] + rest.taken, c) <==> c in first || TakenBySome(rest.taken, c) {
      TakenInFront(first, rest.taken, c);
    }
    ApartInFront(first, rest.taken);
  }

  /** When no error is reported, every expectation consumed as many calls as it
      asked for, no call was consumed twice, and none disappeared. */
  lemma {:induction false} NoErrorsPartition(record: set<Call>, that: seq<Expectation>)
    requires Verify(record, that).errors == []
    ensures Partitions(record, Verify(record, that)) && TookEnough(that, Verify(record, that).taken)
  {
    if that == [] {
    } else {
      var first := Matching(record, that[0]);
      assert Step(record, that[0]) == Outcome(record - first, [], [first]);
      var rest := Verify(record - first, that[1..]);
      NoErrorsPartition(record - first, that[1..]);
      PartitionsStep(record, first, rest);
      TookEnoughStep(that, first, rest.taken);
    }
  }

  lemma TookEnoughStep(that: seq<Expectation>, first: set<Call>, rest: seq<set<Call>>)
    requires |that| == |rest| + 1 && TookEnough(that[1..], rest)
    requires !that[0].invalid && Satisfied(that[0], |first|) && forall c :: c in first ==> Matches(that[0], c)
    ensures TookEnough(that, [first] + rest)
  {
    forall i | 0 < i < |that| ensures that[i] == that[1..][i - 1] && ([first] + rest)[i] == rest[i - 1] {}
  }

  // ---------- the verdict ----------

  /** One of the first k expectations matches c. */
  ghost predicate MatchedBefore(that: seq<Expectation>, k: nat, c: Call) {
    exists i :: 0 <= i < k && i < |that| && Matches(that[i], c)
  }

  /** What the first k expectations leave when each of them takes all it matches. */
  ghost function LeftAfter(record: set<Call>, that: seq<Expectation>, k: nat): set<Call> {
    set c | c in record && !MatchedBefore(that, k, c)
  }

  lemma LeftAfterStep(record: set<Call>, that: seq<Expectation>, k: nat)
    requires k < |that|
    ensures LeftAfter(record, that, k + 1) == LeftAfter(record, that, k) - Matching(LeftAfter(record, that, k), that[k])
  {
    forall c ensures MatchedBefore(that, k + 1, c) <==> MatchedBefore(that, k, c) || Matches(that[k], c) {
      if MatchedBefore(that, k + 1, c) {
        var i :| 0 <= i < k + 1 && Matches(that[i], c);
        assert i < k ==> MatchedBefore(that, k, c);
      }
    }
  }

  /** The j-th expectation matches as many calls as it asks for, not counting those
      an earlier one matches too. */
  ghost predicate FindsEnough(record: set<Call>, that: seq<Expectation>, j: nat)
    requires j < |that|
  {
    var found := set c | c in record && Matches(that[j], c) && forall i :: 0 <= i < j ==> !Matches(that[i], c);
    !that[j].invalid && if that[j].atLeast then |found| >= that[j].times else |found| == that[j].times
  }

  lemma FoundIsMatching(record: set<Call>, that: seq<Expectation>, j: nat)
    requires j < |that|
    ensures FindsEnough(record, that, j) <==>
      !that[j].invalid && Satisfied(that[j], |Matching(LeftAfter(record, that, j), that[j])|)
  {
    assert Matching(LeftAfter(record, that, j), that[j]) ==
      set c | c in record && Matches(that[j], c) && forall i :: 0 <= i < j ==> !Matches(that[i], c);
  }

  lemma {:induction false} PassesFrom(record: set<Call>, that: seq<Expectation>, k: nat)
    requires k <= |that|
    ensures var r := Verify(LeftAfter(record, that, k), that[k..]);
      && (r.errors == [] <==> forall j :: k <= j < |that| ==> FindsEnough(record, that, j))
      && (r.errors == [] ==> r.left == LeftAfter(record, that, |that|))
    decreases |that| - k
  {
    if k == |that| {
    } else {
      assert that[k..][0] == that[k] && that[k..][1..] == that[k + 1..];
      FoundIsMatching(record, that, k);
      LeftAfterStep(record, that, k);
      PassesFrom(record, that, k + 1);
      if FindsEnough(record, that, k) && forall j :: k + 1 <= j < |that| ==> FindsEnough(record, that, j) {
        forall j | k <= j < |that| ensures FindsEnough(record, that, j) {}
      }
    }
  }

  /** No error is reported exactly when every expectation, in its turn, finds as many
      calls as it asks for; then the calls none of them matches are left. */
  lemma VerdictExactly(record: set<Call>, that: seq<Expectation>)
    ensures Verify(record, that).errors == [] <==> forall j :: 0 <= j < |that| ==> FindsEnough(record, that, j)
    ensures Verify(record, that).errors == [] ==> Verify(record, that).left == LeftAfter(record, that, |that|)
  {
    assert LeftAfter(record, that, 0) == record && that[0..] == that;
    PassesFrom(record, that, 0);
  }

  /** The verdict of `assertCalls`. */
  ghost predicate Accepts(record: set<Call>, that: seq<Expectation>, checkUnexpected: bool) {
    && (forall j :: 0 <= j < |that| ==> FindsEnough(record, that, j))
    && (checkUnexpected ==>
          forall c :: c in record ==> "Test" <= c.callerMethod || exists i :: 0 <= i < |that| && Matches(that[i], c))
  }

  // ---------- the reports ----------

  /** What an expectation takes away: its matches when it passed, every call of its
      method when it failed, and nothing when it is invalid. */
  ghost predicate Claims(a: Expectation, passed: bool, c: Call) {
    !a.invalid && if passed then Matches(a, c) else c.calleeMethod == a.funcName
  }

  ghost predicate ClaimedBefore(that: seq<Expectation>, passed: seq<bool>, k: nat, c: Call)
    requires |passed| == |that|
  {
    exists i :: 0 <= i < k && i < |that| && Claims(that[i], passed[i], c)
  }

  /** The calls the first k expectations left. */
  ghost function Unclaimed(record: set<Call>, that: seq<Expectation>, passed: seq<bool>, k: nat): set<Call>
    requires |passed| == |that|
  {
    set c | c in record && !ClaimedBefore(that, passed, k, c)
  }

  /** How many calls the j-th expectation finds. */
  ghost function Counted(record: set<Call>, that: seq<Expectation>, passed: seq<bool>, j: nat): nat
    requires |passed| == |that| && j < |that|
  {
    |set c | c in record && Matches(that[j], c) && !ClaimedBefore(that, passed, j, c)|
  }

  /** Whether the j-th expectation passes, by what it finds. */
  ghost predicate Judged(record: set<Call>, that: seq<Expectation>, passed: seq<bool>, j: nat)
    requires |passed| == |that| && j < |that|
  {
    var n := Counted(record, that, passed, j);
    passed[j] <==> !that[j].invalid && if that[j].atLeast then n >= that[j].times else n == that[j].times
  }

  /** One report for each expectation from k on that failed, in order, with what it found. */
  ghost function Reports(record: set<Call>, that: seq<Expectation>, passed: seq<bool>, k: nat): seq<Report>
    requires |passed| == |that| && k <= |that|
    decreases |that| - k
  {
    if k == |that| then []
    else
      var report := if that[k].invalid then Invalid(that[k])
                    else Unsatisfied(that[k], Counted(record, that, passed, k));
      (if passed[k] then [] else [report]) + Reports(record, that, passed, k + 1)
  }

  /** Which of the expectations pass. */
  ghost function Passed(left: set<Call>, that: seq<Expectation>): (r: seq<bool>)
    ensures |r| == |that|
  {
    if that == [] then []
    else [Step(left, that[0]).errors == []] + Passed(Step(left, that[0]).left, that[1..])
  }

  lemma UnclaimedStep(record: set<Call>, that: seq<Expectation>, passed: seq<bool>, k: nat)
    requires |passed| == |that| && k < |that|
    ensures var left := Unclaimed(record, that, passed, k);
      && Counted(record, that, passed, k) == |Matching(left, that[k])|
      && Unclaimed(record, that, passed, k + 1) == set c | c in left && !Claims(that[k], passed[k], c)
  {
    var left := Unclaimed(record, that, passed, k);
    assert Matching(left, that[k]) ==
      set c | c in record && Matches(that[k], c) && !ClaimedBefore(that, passed, k, c);
    forall c
      ensures ClaimedBefore(that, passed, k + 1, c) <==>
        ClaimedBefore(that, passed, k, c) || Claims(that[k], passed[k], c)
    {
      if ClaimedBefore(that, passed, k + 1, c) {
        var i :| 0 <= i < k + 1 && Claims(that[i], passed[i], c);
        assert i < k ==> ClaimedBefore(that, passed, k, c);
      }
    }
  }

  lemma {:induction false} ReportsFrom(record: set<Call>, that: seq<Expectation>, passed: seq<bool>, k: nat)
    requires |passed| == |that| && k <= |that|
    requires passed[k..] == Passed(Unclaimed(record, that, passed, k), that[k..])
    ensures forall j :: k <= j < |that| ==> Judged(record, that, passed, j)
    ensures var r := Verify(Unclaimed(record, that, passed, k), that[k..]);
      r.errors == Reports(record, that, passed, k) && r.left == Unclaimed(record, that, passed, |that|)
    decreases |that| - k
  {
    if k == |that| {
    } else {
      var left := Unclaimed(record, that, passed, k);
      assert that[k..][0] == that[k] && that[k..][1..] == that[k + 1..];
      assert passed[k..][0] == passed[k] && passed[k..][1..] == passed[k + 1..];
      UnclaimedStep(record, that, passed, k);
      assert Step(left, that[k]).left == Unclaimed(record, that, passed, k + 1);
      ReportsFrom(record, that, passed, k + 1);
    }
  }

  /** What is reported and left, errors included: each expectation is judged by the
      calls its predecessors left, and a failed one takes away its whole method. */
  lemma ReportsExactly(record: set<Call>, that: seq<Expectation>) returns (passed: seq<bool>)
    ensures |passed| == |that| && forall j :: 0 <= j < |that| ==> Judged(record, that, passed, j)
    ensures Verify(record, that).errors == Reports(record, that, passed, 0)
    ensures Verify(record, that).left == Unclaimed(record, that, passed, |that|)
  {
    passed := Passed(record, that);
    assert Unclaimed(record, that, passed, 0) == record && that[0..] == that && passed[0..] == passed;
    ReportsFrom(record, that, passed, 0);
  }

  // ---------- expectations that share no call ----------

  /** No call of the record is matched by two of the expectations. */
  ghost predicate NoOverlap(record: set<Call>, that: seq<Expectation>) {
    forall i, j, c :: 0 <= i < j < |that| && c in record ==> !(Matches(that[i], c) && Matches(that[j], c))
  }

  predicate AloneSatisfied(record: set<Call>, a: Expectation) {
    !a.invalid && Satisfied(a, |Matching(record, a)|)
  }

  /** If no call matches two expectations, no error is reported exactly when each
      expectation is satisfied by itself on the whole record. */
  lemma VerifyExactly(record: set<Call>, that: seq<Expectation>)
    requires NoOverlap(record, that)
    ensures Verify(record, that).errors == [] <==> forall i :: 0 <= i < |that| ==> AloneSatisfied(record, that[i])
  {
    VerdictExactly(record, that);
    forall j | 0 <= j < |that| ensures FindsEnough(record, that, j) <==> AloneSatisfied(record, that[j]) {
      FoundIsMatching(record, that, j);
      assert Matching(LeftAfter(record, that, j), that[j]) == Matching(record, that[j]);
    }
  }

  // ---------- coverage ----------

  ghost predicate Covered(that: seq<Expectation>, c: Call) {
    exists i :: 0 <= i < |that| && !that[i].invalid && Matches(that[i], c)
  }

  lemma {:induction false} CoverLeaves(left: set<Call>, that: seq<Expectation>, c: Call)
    ensures c in Cover(left, that) <==> c in left && !Covered(that, c)
    decreases |that|
  {
    if that == [] {
    } else {
      var a := that[0];
      CoverLeaves(if a.invalid then left else left - Matching(left, a), that[1..], c);
      assert Covered(that, c) <==> (!a.invalid && Matches(a, c)) || Covered(that[1..], c) by {
        if Covered(that[1..], c) {
          var i :| 0 <= i < |that[1..]| && !that[1..][i].invalid && Matches(that[1..][i], c);
          assert that[i + 1] == that[1..][i];
        }
        if Covered(that, c) {
          var i :| 0 <= i < |that| && !that[i].invalid && Matches(that[i], c);
          if i > 0 { assert that[1..][i - 1] == that[i]; }
        }
      }
    }
  }

  /** The verdict of `checkUncoveredCalls`. */
  ghost predicate Covers(record: set<Call>, that: seq<Expectation>) {
    forall c :: c in record ==>
      "Test" <= c.callerMethod || exists i :: 0 <= i < |that| && !that[i].invalid && Matches(that[i], c)
  }

  /** Nothing is uncovered exactly when some valid expectation matches every call
      not made by a test itself: counts and order play no part. */
  lemma UncoveredExactly(record: set<Call>, that: seq<Expectation>)
    ensures (forall c :: c in Cover(record, that) ==> "Test" <= c.callerMethod) <==> Covers(record, that)
  {
    forall c ensures c in Cover(record, that) <==> c in record && !Covered(that, c) {
      CoverLeaves(record, that, c);
    }
  }

  // ---------- records ----------

  ghost predicate NoRepeats(s: seq<Call>) {
    forall i, j :: 0 <= i < j < |s| ==> s[i] != s[j]
  }

  function Members(s: seq<Call>): set<Call> {
    set c | c in s
  }

  lemma {:induction false} MembersCount(s: seq<Call>)
    requires NoRepeats(s)
    ensures |Members(s)| == |s|
  {
    if s == [] {
    } else {
      var n := |s| - 1;
      MembersCount(s[..n]);
      assert s == s[..n] + [s[n]];
      assert Members(s) == Members(s[..n]) + {s[n]};
    }
  }

  lemma {:induction false} FilterNoRepeats(p: Call -> bool, s: seq<Call>)
    requires NoRepeats(s)
    ensures NoRepeats(Filter(p, s))
  {
    if s == [] {
    } else {
      FilterNoRepeats(p, s[1..]);
      FilterElements(p, s[1..], s[0]);
    }
  }

  // ---------- arguments changed after the call ----------

  /** The same call, its arguments perhaps changed since a snapshot of them was taken. */
  ghost predicate SameCall(c: Call, d: Call) {
    d == c.(params := d.params) && (c.snapshots.None? ==> d == c)
  }

  ghost predicate SameCalls(s: seq<Call>, s': seq<Call>) {
    |s| == |s'| && forall k :: 0 <= k < |s| ==> SameCall(s[k], s'[k])
  }

  lemma SameCallMatches(a: Expectation, c: Call, d: Call)
    requires SameCall(c, d)
    ensures Matches(a, c) <==> Matches(a, d)
  {
    if c.snapshots.Some? {
      SnapshotDecides(a, c, c.snapshots.value);
      SnapshotDecides(a, d, c.snapshots.value);
    }
  }

  /** Where a call is made by a test or matched, so is the same call. */
  lemma SameCovered(c: Call, d: Call, that: seq<Expectation>)
    requires SameCall(c, d)
    ensures "Test" <= c.callerMethod <==> "Test" <= d.callerMethod
    ensures forall i :: 0 <= i < |that| ==> (Matches(that[i], c) <==> Matches(that[i], d))
  {
    forall i | 0 <= i < |that| ensures Matches(that[i], c) <==> Matches(that[i], d) {
      SameCallMatches(that[i], c, d);
    }
  }

  lemma {:induction false} SameCount(s: seq<Call>, s': seq<Call>, p: Call -> bool, q: Call -> bool)
    requires |s| == |s'| && forall k :: 0 <= k < |s| ==> p(s[k]) == q(s'[k])
    ensures |Filter(p, s)| == |Filter(q, s')|
  {
    if s == [] {
    } else {
      SameCount(s[1..], s'[1..], p, q);
    }
  }

  lemma FilterCounts(s: seq<Call>, p: Call -> bool, found: set<Call>)
    requires NoRepeats(s) && forall c :: c in found <==> c in s && p(c)
    ensures |found| == |Filter(p, s)|
  {
    FilterNoRepeats(p, s);
    MembersCount(Filter(p, s));
    forall c ensures c in found <==> c in Filter(p, s) { FilterElements(p, s, c); }
    assert found == Members(Filter(p, s));
  }

  /** The j-th expectation matches c and no earlier one does. */
  ghost predicate FirstMatches(that: seq<Expectation>, j: nat, c: Call) {
    j < |that| && Matches(that[j], c) && forall i :: 0 <= i < j ==> !Matches(that[i], c)
  }

  lemma FindsCount(s: seq<Call>, that: seq<Expectation>, j: nat)
    requires NoRepeats(s) && j < |that|
    ensures var n := |Filter(c => FirstMatches(that, j, c), s)|;
      FindsEnough(Members(s), that, j) <==>
        !that[j].invalid && if that[j].atLeast then n >= that[j].times else n == that[j].times
  {
    var found :=
      set c | c in Members(s) && Matches(that[j], c) && forall i :: 0 <= i < j ==> !Matches(that[i], c);
    forall c ensures c in found <==> c in s && FirstMatches(that, j, c) {}
    FilterCounts(s, c => FirstMatches(that, j, c), found);
  }

  lemma SameFinds(s: seq<Call>, s': seq<Call>, that: seq<Expectation>, j: nat)
    requires NoRepeats(s) && NoRepeats(s') && SameCalls(s, s') && j < |that|
    ensures FindsEnough(Members(s), that, j) <==> FindsEnough(Members(s'), that, j)
  {
    forall k | 0 <= k < |s| ensures FirstMatches(that, j, s[k]) <==> FirstMatches(that, j, s'[k]) {
      SameCovered(s[k], s'[k], that);
    }
    SameCount(s, s', c => FirstMatches(that, j, c), c => FirstMatches(that, j, c));
    FindsCount(s, that, j);
    FindsCount(s', that, j);
  }

  lemma VerdictsCarry(s: seq<Call>, s': seq<Call>, that: seq<Expectation>, checkUnexpected: bool)
    requires NoRepeats(s) && NoRepeats(s') && SameCalls(s, s')
    ensures Accepts(Members(s), that, checkUnexpected) ==> Accepts(Members(s'), that, checkUnexpected)
    ensures Covers(Members(s), that) ==> Covers(Members(s'), that)
  {
    forall j | 0 <= j < |that| ensures FindsEnough(Members(s), that, j) <==> FindsEnough(Members(s'), that, j) {
      SameFinds(s, s', that, j);
    }
    forall d | d in Members(s') ensures exists c :: c in Members(s) && SameCall(c, d) {
      var k :| 0 <= k < |s'| && s'[k] == d;
      assert s[k] in Members(s);
    }
    forall c, d | SameCall(c, d) ensures "Test" <= c.callerMethod <==> "Test" <= d.callerMethod
      ensures forall i :: 0 <= i < |that| ==> (Matches(that[i], c) <==> Matches(that[i], d))
    {
      SameCovered(c, d, that);
    }
  }

  /** Changing the arguments of calls whose snapshots were taken changes no verdict. */
  lemma SameVerdicts(s: seq<Call>, s': seq<Call>, that: seq<Expectation>, checkUnexpected: bool)
    requires NoRepeats(s) && NoRepeats(s') && SameCalls(s, s')
    ensures Accepts(Members(s), that, checkUnexpected) <==> Accepts(Members(s'), that, checkUnexpected)
    ensures Covers(Members(s), that) <==> Covers(Members(s'), that)
  {
    VerdictsCarry(s, s', that, checkUnexpected);
    VerdictsCarry(s', s, that, checkUnexpected);
  }
}
