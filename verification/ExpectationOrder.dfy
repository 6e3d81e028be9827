/** When the order of expectations decides the verdict of `assertCalls`. */
module ExpectationOrder {
  import opened Options
  import opened FiniteSets
  import opened Accounting

  /** perm lists each of n positions once. */
  ghost predicate IsOrder(perm: seq<nat>, n: nat) {
    && |perm| == n
    && (forall i :: 0 <= i < n ==> perm[i] < n)
    && (forall i, j :: 0 <= i < j < n ==> perm[i] != perm[j])
    && (forall k :: 0 <= k < n ==> k in perm)
  }

  function Shuffled(that: seq<Expectation>, perm: seq<nat>): (s: seq<Expectation>)
    requires forall i :: 0 <= i < |perm| ==> perm[i] < |that|
    ensures |s| == |perm| && forall i :: 0 <= i < |s| ==> s[i] == that[perm[i]]
  {
    seq(|perm|, i requires 0 <= i < |perm| => that[perm[i]])
  }

  /** So the order of such expectations does not matter. */
  lemma VerifyInAnyOrder(record: set<Call>, that: seq<Expectation>, perm: seq<nat>)
    requires NoOverlap(record, that) && IsOrder(perm, |that|)
    ensures Verify(record, Shuffled(that, perm)).errors == [] <==> Verify(record, that).errors == []
  {
    var s := Shuffled(that, perm);
    forall i, j, c | 0 <= i < j < |s| && c in record ensures !(Matches(s[i], c) && Matches(s[j], c)) {
      assert perm[i] != perm[j];
      var lo, hi := if perm[i] < perm[j] then perm[i] else perm[j], if perm[i] < perm[j] then perm[j] else perm[i];
      assert !(Matches(that[lo], c) && Matches(that[hi], c));
    }
    VerifyExactly(record, that);
    VerifyExactly(record, s);
    if forall i :: 0 <= i < |s| ==> AloneSatisfied(record, s[i]) {
      forall k | 0 <= k < |that| ensures AloneSatisfied(record, that[k]) {
        assert k in perm;
        var i :| 0 <= i < |perm| && perm[i] == k;
        assert AloneSatisfied(record, s[i]);
      }
    }
  }

  // ---------- when every order passes ----------

  /** Some expectation other than the j-th matches c. */
  ghost predicate OtherMatches(that: seq<Expectation>, j: nat, c: Call) {
    exists i :: 0 <= i < |that| && i != j && Matches(that[i], c)
  }

  /** The calls of the record only the j-th expectation matches. */
  ghost function Sole(record: set<Call>, that: seq<Expectation>, j: nat): set<Call>
    requires j < |that|
  {
    set c | c in record && Matches(that[j], c) && !OtherMatches(that, j, c)
  }

  /** Satisfied on the whole record, and on what all the others together leave. */
  ghost predicate Robust(record: set<Call>, that: seq<Expectation>, j: nat)
    requires j < |that|
  {
    AloneSatisfied(record, that[j]) && Satisfied(that[j], |Sole(record, that, j)|)
  }

  /** Without errors each expectation is satisfied by what its predecessors leave. */
  lemma PassedAt(record: set<Call>, that: seq<Expectation>, j: nat)
    requires j < |that| && Verify(record, that).errors == []
    ensures !that[j].invalid && Satisfied(that[j], |Matching(LeftAfter(record, that, j), that[j])|)
  {
    VerdictExactly(record, that);
    FoundIsMatching(record, that, j);
  }

  /** What an expectation finds lies between its sole calls and all it matches. */
  lemma RobustFindsEnough(record: set<Call>, that: seq<Expectation>, j: nat)
    requires j < |that| && Robust(record, that, j)
    ensures FindsEnough(record, that, j)
  {
    var found := Matching(LeftAfter(record, that, j), that[j]);
    SubsetSize(Sole(record, that, j), found);
    SubsetSize(found, Matching(record, that[j]));
    FoundIsMatching(record, that, j);
  }

  lemma SoleInOrder(record: set<Call>, that: seq<Expectation>, perm: seq<nat>, i: nat)
    requires IsOrder(perm, |that|) && i < |that|
    ensures Sole(record, Shuffled(that, perm), i) == Sole(record, that, perm[i])
  {
    var s := Shuffled(that, perm);
    forall c ensures OtherMatches(s, i, c) <==> OtherMatches(that, perm[i], c) {
      if OtherMatches(s, i, c) {
        var k :| 0 <= k < |s| && k != i && Matches(s[k], c);
        assert perm[k] != perm[i] && Matches(that[perm[k]], c);
      }
      if OtherMatches(that, perm[i], c) {
        var m :| 0 <= m < |that| && m != perm[i] && Matches(that[m], c);
        assert m in perm;
        var k :| 0 <= k < |perm| && perm[k] == m;
        assert Matches(s[k], c);
      }
    }
  }

  function FirstOf(n: nat, j: nat): seq<nat>
    requires j < n
  {
    seq(n, i requires 0 <= i < n => if i == 0 then j else if i <= j then i - 1 else i)
  }

  function LastOf(n: nat, j: nat): seq<nat>
    requires j < n
  {
    seq(n, i requires 0 <= i < n => if i == n - 1 then j else if i < j then i else i + 1)
  }

  lemma FirstAndLastAreOrders(n: nat, j: nat)
    requires j < n
    ensures IsOrder(FirstOf(n, j), n) && IsOrder(LastOf(n, j), n)
  {
    forall k: nat | k < n ensures k in FirstOf(n, j) && k in LastOf(n, j) {
      assert FirstOf(n, j)[if k == j then 0 else if k < j then k + 1 else k] == k;
      assert LastOf(n, j)[if k == j then n - 1 else if k < j then k else k - 1] == k;
    }
  }

  ghost predicate EveryOrderPasses(record: set<Call>, that: seq<Expectation>) {
    forall perm :: IsOrder(perm, |that|) ==> Verify(record, Shuffled(that, perm)).errors == []
  }

  /** Expectations pass in every order exactly when each is satisfied both on the
      whole record and on the calls no other one matches. */
  lemma EveryOrderExactly(record: set<Call>, that: seq<Expectation>)
    ensures EveryOrderPasses(record, that) <==> forall j :: 0 <= j < |that| ==> Robust(record, that, j)
  {
    if EveryOrderPasses(record, that) {
      forall j | 0 <= j < |that| ensures Robust(record, that, j) {
        PassesFirstAndLast(record, that, j);
      }
    }
    if forall j :: 0 <= j < |that| ==> Robust(record, that, j) {
      forall perm | IsOrder(perm, |that|) ensures Verify(record, Shuffled(that, perm)).errors == [] {
        var s := Shuffled(that, perm);
        forall i | 0 <= i < |s| ensures FindsEnough(record, s, i) {
          SoleInOrder(record, that, perm, i);
          assert Robust(record, that, perm[i]);
          RobustFindsEnough(record, s, i);
        }
        VerdictExactly(record, s);
      }
    }
  }

  lemma PassesFirstAndLast(record: set<Call>, that: seq<Expectation>, j: nat)
    requires j < |that| && EveryOrderPasses(record, that)
    ensures Robust(record, that, j)
  {
    var n := |that|;
    FirstAndLastAreOrders(n, j);
    var first, last := Shuffled(that, FirstOf(n, j)), Shuffled(that, LastOf(n, j));
    PassedAt(record, first, 0);
    assert LeftAfter(record, first, 0) == record;
    PassedAt(record, last, n - 1);
    SoleInOrder(record, that, LastOf(n, j), n - 1);
    assert Matching(LeftAfter(record, last, n - 1), last[n - 1]) == Sole(record, last, n - 1) by {
      var k := n - 1;
      forall c ensures MatchedBefore(last, k, c) <==> OtherMatches(last, k, c) {}
    }
  }

  /** Exact expectations pass in every order exactly when no call matches two of
      them and each is satisfied by itself. */
  lemma EveryOrderOfExactOnes(record: set<Call>, that: seq<Expectation>)
    requires forall j :: 0 <= j < |that| ==> !that[j].atLeast
    ensures EveryOrderPasses(record, that) <==>
      NoOverlap(record, that) && forall j :: 0 <= j < |that| ==> AloneSatisfied(record, that[j])
  {
    EveryOrderExactly(record, that);
    if forall j :: 0 <= j < |that| ==> Robust(record, that, j) {
      forall i, j, c | 0 <= i < j < |that| && c in record ensures !(Matches(that[i], c) && Matches(that[j], c)) {
        assert Robust(record, that, j);
        SubsetSize(Sole(record, that, j), Matching(record, that[j]));
        assert c in Matching(record, that[j]) ==> c in Sole(record, that, j);
      }
      forall j | 0 <= j < |that| ensures AloneSatisfied(record, that[j]) {
        assert Robust(record, that, j);
      }
    }
    if NoOverlap(record, that) && forall j :: 0 <= j < |that| ==> AloneSatisfied(record, that[j]) {
      forall j | 0 <= j < |that| ensures Robust(record, that, j) {
        forall c | c in record && Matches(that[j], c) ensures !OtherMatches(that, j, c) {}
        assert Sole(record, that, j) == Matching(record, that[j]);
      }
    }
  }

  // ---------- when some order passes ----------

  function Drop(that: seq<Expectation>, j: nat): (r: seq<Expectation>)
    requires j < |that|
    ensures |r| == |that| - 1
  {
    that[..j] + that[j + 1..]
  }

  /** The first expectation satisfied by itself; |that| when there is none. */
  function FirstAlone(record: set<Call>, that: seq<Expectation>): (j: nat)
    ensures j <= |that|
    ensures j < |that| ==> AloneSatisfied(record, that[j])
  {
    if that == [] then 0
    else if AloneSatisfied(record, that[0]) then 0
    else 1 + FirstAlone(record, that[1..])
  }

  /** One after the other, some expectation can be satisfied by itself and taken out
      together with its calls. */
  predicate Eliminates(record: set<Call>, that: seq<Expectation>)
    decreases |that|
  {
    if that == [] then true
    else
      var j := FirstAlone(record, that);
      j < |that| && Eliminates(record - Matching(record, that[j]), Drop(that, j))
  }

  ghost predicate SomeOrderPasses(record: set<Call>, that: seq<Expectation>) {
    exists perm :: IsOrder(perm, |that|) && Verify(record, Shuffled(that, perm)).errors == []
  }

  lemma {:induction false} FirstAloneIsFirst(record: set<Call>, that: seq<Expectation>, j: nat)
    requires j < |that| && AloneSatisfied(record, that[j])
    ensures FirstAlone(record, that) <= j
  {
    if j == 0 || AloneSatisfied(record, that[0]) {
    } else {
      FirstAloneIsFirst(record, that[1..], j - 1);
    }
  }

  /** In a passing list, an exact expectation that is satisfied by itself can go first. */
  lemma {:induction false} ToFront(left: set<Call>, s: seq<Expectation>, k: nat)
    requires k < |s| && Verify(left, s).errors == [] && AloneSatisfied(left, s[k]) && !s[k].atLeast
    ensures Verify(left - Matching(left, s[k]), Drop(s, k)).errors == []
    decreases |s|
  {
    if k == 0 {
      assert Drop(s, 0) == s[1..];
    } else {
      var m := Matching(left, s[0]);
      assert Step(left, s[0]) == Outcome(left - m, [], [m]);
      TakesNothingFrom(left, s, k);
      ToFront(left - m, s[1..], k - 1);
      assert Drop(s, k)[0] == s[0] && Drop(s, k)[1..] == Drop(s[1..], k - 1);
      assert (left - m) - Matching(left - m, s[k]) == (left - Matching(left, s[k])) - m;
    }
  }

  /** What comes before it takes none of its calls, or it would find too few. */
  lemma TakesNothingFrom(left: set<Call>, s: seq<Expectation>, k: nat)
    requires 0 < k < |s| && Verify(left, s).errors == [] && AloneSatisfied(left, s[k]) && !s[k].atLeast
    ensures var m := Matching(left, s[0]);
      && m !! Matching(left, s[k]) && AloneSatisfied(left - m, s[k])
      && Matching(left - m, s[k]) == Matching(left, s[k])
      && Matching(left - Matching(left, s[k]), s[0]) == m
  {
    PassedAt(left, s, k);
    var found := Matching(LeftAfter(left, s, k), s[k]);
    SubsetSize(found, Matching(left, s[k]));
    forall c | c in Matching(left, s[k]) ensures !Matches(s[0], c) {
      assert c in found && !MatchedBefore(s, k, c);
    }
    assert Matching(left - Matching(left, s[0]), s[k]) == Matching(left, s[k]);
  }

  // ---------- orders with one element more or less ----------

  /** Positions of a list with position j taken out, and back. */
  function Lift(j: nat, x: nat): nat { if x < j then x else x + 1 }

  function Lower(j: nat, x: nat): nat
    requires x != j
  {
    if x < j then x else x - 1
  }

  function OrderWith(perm: seq<nat>, j: nat): seq<nat> {
    [j] + seq(|perm|, i requires 0 <= i < |perm| => Lift(j, perm[i]))
  }

  lemma OrderWithIsOrder(perm: seq<nat>, n: nat, j: nat)
    requires IsOrder(perm, n) && j <= n
    ensures IsOrder(OrderWith(perm, j), n + 1)
  {
    var r := OrderWith(perm, j);
    forall k: nat | k < n + 1 ensures k in r {
      if k == j {
        assert r[0] == k;
      } else {
        assert Lower(j, k) in perm;
        var i :| 0 <= i < |perm| && perm[i] == Lower(j, k);
        assert r[i + 1] == k;
      }
    }
    forall a, b | 0 <= a < b < n + 1 ensures r[a] != r[b] {
      if a > 0 { assert perm[a - 1] != perm[b - 1]; }
    }
  }

  lemma ShuffledWith(that: seq<Expectation>, perm: seq<nat>, j: nat)
    requires j < |that| && IsOrder(perm, |that| - 1)
    ensures IsOrder(OrderWith(perm, j), |that|)
    ensures Shuffled(that, OrderWith(perm, j)) == [that[j]] + Shuffled(Drop(that, j), perm)
  {
    OrderWithIsOrder(perm, |that| - 1, j);
  }

  function OrderWithout(perm: seq<nat>, k: nat): seq<nat>
    requires k < |perm| && forall i :: 0 <= i < |perm| && i != k ==> perm[i] != perm[k]
  {
    seq(|perm| - 1, i requires 0 <= i < |perm| - 1 => Lower(perm[k], perm[Lift(k, i)]))
  }

  lemma OrderWithoutIsOrder(perm: seq<nat>, n: nat, k: nat)
    requires IsOrder(perm, n) && k < n
    ensures forall i :: 0 <= i < n && i != k ==> perm[i] != perm[k]
    ensures IsOrder(OrderWithout(perm, k), n - 1)
  {
    forall i | 0 <= i < n && i != k ensures perm[i] != perm[k] {
      var lo, hi := if i < k then i else k, if i < k then k else i;
      assert perm[lo] != perm[hi];
    }
    var j, r := perm[k], OrderWithout(perm, k);
    forall y: nat | y < n - 1 ensures y in r {
      assert Lift(j, y) in perm;
      var m :| 0 <= m < n && perm[m] == Lift(j, y);
      assert r[Lower(k, m)] == y;
    }
    forall a, b | 0 <= a < b < n - 1 ensures r[a] != r[b] {
      assert perm[Lift(k, a)] != perm[Lift(k, b)];
    }
  }

  lemma ShuffledWithout(that: seq<Expectation>, perm: seq<nat>, k: nat)
    requires IsOrder(perm, |that|) && k < |that|
    ensures forall i :: 0 <= i < |that| && i != k ==> perm[i] != perm[k]
    ensures IsOrder(OrderWithout(perm, k), |that| - 1)
    ensures Shuffled(Drop(that, perm[k]), OrderWithout(perm, k)) == Drop(Shuffled(that, perm), k)
  {
    OrderWithoutIsOrder(perm, |that|, k);
  }

  /** Exact expectations pass in some order exactly when they can be eliminated one by
      one; which of the candidates goes first makes no difference. */
  lemma {:induction false} SomeOrderExactly(record: set<Call>, that: seq<Expectation>)
    requires forall j :: 0 <= j < |that| ==> !that[j].atLeast
    ensures SomeOrderPasses(record, that) <==> Eliminates(record, that)
    decreases |that|
  {
    if that == [] {
      assert IsOrder([], 0) && Shuffled(that, []) == [];
    } else {
      var j := FirstAlone(record, that);
      if SomeOrderPasses(record, that) { SomeIsAlone(record, that); }
      if j < |that| {
        var rest, left := Drop(that, j), record - Matching(record, that[j]);
        SomeOrderExactly(left, rest);
        if SomeOrderPasses(record, that) { PassesWithout(record, that, j); }
        if SomeOrderPasses(left, rest) { PassesWith(record, that, j); }
      }
    }
  }

  lemma SomeIsAlone(record: set<Call>, that: seq<Expectation>)
    requires that != [] && SomeOrderPasses(record, that)
    ensures FirstAlone(record, that) < |that|
  {
    var perm :| IsOrder(perm, |that|) && Verify(record, Shuffled(that, perm)).errors == [];
    PassedAt(record, Shuffled(that, perm), 0);
    assert LeftAfter(record, Shuffled(that, perm), 0) == record;
    FirstAloneIsFirst(record, that, perm[0]);
  }

  lemma PassesWithout(record: set<Call>, that: seq<Expectation>, j: nat)
    requires j < |that| && !that[j].atLeast && AloneSatisfied(record, that[j]) && SomeOrderPasses(record, that)
    ensures SomeOrderPasses(record - Matching(record, that[j]), Drop(that, j))
  {
    var perm :| IsOrder(perm, |that|) && Verify(record, Shuffled(that, perm)).errors == [];
    assert j in perm;
    var k :| 0 <= k < |perm| && perm[k] == j;
    ToFront(record, Shuffled(that, perm), k);
    ShuffledWithout(that, perm, k);
  }

  lemma PassesWith(record: set<Call>, that: seq<Expectation>, j: nat)
    requires j < |that| && AloneSatisfied(record, that[j])
    requires SomeOrderPasses(record - Matching(record, that[j]), Drop(that, j))
    ensures SomeOrderPasses(record, that)
  {
    var left, rest := record - Matching(record, that[j]), Drop(that, j);
    var perm :| IsOrder(perm, |rest|) && Verify(left, Shuffled(rest, perm)).errors == [];
    ShuffledWith(that, perm, j);
    var s := Shuffled(that, OrderWith(perm, j));
    assert s[0] == that[j] && s[1..] == Shuffled(rest, perm);
  }

  /** Two orders give two verdicts. */
  ghost predicate OrderDecides(record: set<Call>, that: seq<Expectation>) {
    SomeOrderPasses(record, that) && !EveryOrderPasses(record, that)
  }

  /** The order of exact expectations decides exactly when they can be eliminated one
      by one and some call of the record matches two of them. */
  lemma OrderDecidesExactly(record: set<Call>, that: seq<Expectation>)
    requires forall j :: 0 <= j < |that| ==> !that[j].atLeast
    ensures OrderDecides(record, that) <==> Eliminates(record, that) && !NoOverlap(record, that)
  {
    SomeOrderExactly(record, that);
    EveryOrderOfExactOnes(record, that);
    if SomeOrderPasses(record, that) && NoOverlap(record, that) {
      var perm :| IsOrder(perm, |that|) && Verify(record, Shuffled(that, perm)).errors == [];
      VerifyInAnyOrder(record, that, perm);
      VerifyExactly(record, that);
    }
  }

  /** With overlap the order does matter: once for one particular call and once
      for any call accept two calls in that order only. */
  lemma OrderMattersUnderOverlap(c: Call, d: Call)
    requires c.calleeMethod == "Send" && c.snapshots.None? && c.params == [1]
    requires d.calleeMethod == "Send" && d.snapshots == Some([2])
    ensures var particular := Expectation(false, "", "Send", [Exactly(1)], 1, false);
      var any := Expectation(false, "", "Send", [], 1, false);
      Verify({c, d}, [particular, any]).errors == [] && Verify({c, d}, [any, particular]).errors != []
  {
    var particular := Expectation(false, "", "Send", [Exactly(1)], 1, false);
    var any := Expectation(false, "", "Send", [], 1, false);
    assert !ArgMatches(particular.args[0], d.Recorded()[0]);
    assert Matches(particular, c) && !Matches(particular, d) && Matches(any, c) && Matches(any, d);
    assert Matching({c, d}, particular) == {c};
    assert {c, d} - {c} == {d};
    assert Matching({d}, any) == {d};
    assert Matching({c, d}, any) == {c, d};
    assert Step({c, d}, particular).left == {d};
    var tail := [any];
    assert [particular, any][1..] == tail && tail[1..] == [];
    assert Verify({d}, tail).errors == [];
    assert Step({c, d}, any).errors == [Unsatisfied(any, 2)];
  }

  /** The verdict depends on which expectations are there, not on their order. */
  lemma UncoveredInAnyOrder(record: set<Call>, that: seq<Expectation>, perm: seq<nat>)
    requires forall i :: 0 <= i < |perm| ==> perm[i] < |that|
    requires forall k :: 0 <= k < |that| ==> k in perm
    ensures Cover(record, Shuffled(that, perm)) == Cover(record, that)
  {
    forall c ensures c in Cover(record, Shuffled(that, perm)) <==> c in Cover(record, that) {
      CoverLeaves(record, that, c);
      CoverLeaves(record, Shuffled(that, perm), c);
      if Covered(that, c) {
        var k :| 0 <= k < |that| && !that[k].invalid && Matches(that[k], c);
        assert k in perm;
        var i :| 0 <= i < |perm| && perm[i] == k;
        assert Shuffled(that, perm)[i] == that[k];
      }
    }
  }
}
