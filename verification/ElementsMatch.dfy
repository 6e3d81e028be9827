/** `difference` and the pass condition of `ElementsMatchAt` in
    internal/core/behavior_asserts.go, for any deep equality that is an equivalence. */
module ElementsMatch {
  import opened Options

  ghost predicate Equivalence<T(!new)>(eq: (T, T) -> bool) {
    && (forall x :: eq(x, x))
    && (forall x, y :: eq(x, y) ==> eq(y, x))
    && (forall x, y, z :: eq(x, y) && eq(y, z) ==> eq(x, z))
  }

  /** How many elements of s are equal to x. */
  function Count<T>(eq: (T, T) -> bool, s: seq<T>, x: T): nat {
    if s == [] then 0 else (if eq(s[0], x) then 1 else 0) + Count(eq, s[1..], x)
  }

  /** The position of the first element equal to x; |s| when there is none. */
  function FirstMatch<T>(eq: (T, T) -> bool, x: T, s: seq<T>): (j: nat)
    ensures j <= |s|
    ensures j < |s| ==> eq(x, s[j])
  {
    if s == [] then 0 else if eq(x, s[0]) then 0 else 1 + FirstMatch(eq, x, s[1..])
  }

  function Without<T>(s: seq<T>, j: nat): seq<T>
    requires j < |s|
  {
    s[..j] + s[j + 1..]
  }

  /** The items of `from` that find no partner when each item in turn takes the
      first equal element left in `remove`. */
  function Difference<T>(eq: (T, T) -> bool, from: seq<T>, remove: seq<T>): seq<T> {
    if from == [] then []
    else
      var j := FirstMatch(eq, from[0], remove);
      if j < |remove| then Difference(eq, from[1..], Without(remove, j))
      else [from[0]] + Difference(eq, from[1..], remove)
  }

  /** The elements whose flag is not set. */
  function Unused<T>(s: seq<T>, used: seq<bool>): seq<T>
    requires |s| == |used|
  {
    if s == [] then []
    else if used[0] then Unused(s[1..], used[1..])
    else [s[0]] + Unused(s[1..], used[1..])
  }

  // ---------- greedy subtraction counts ----------

  lemma {:induction false} CountWithout<T>(eq: (T, T) -> bool, s: seq<T>, j: nat, x: T)
    requires j < |s|
    ensures Count(eq, s, x) == Count(eq, Without(s, j), x) + if eq(s[j], x) then 1 else 0
  {
    if j == 0 {
      assert Without(s, 0) == s[1..];
    } else {
      CountWithout(eq, s[1..], j - 1, x);
      assert Without(s, j)[1..] == Without(s[1..], j - 1);
      assert Without(s, j)[0] == s[0];
    }
  }

  lemma {:induction false} NoMatchCountsZero<T(!new)>(eq: (T, T) -> bool, x: T, s: seq<T>, y: T)
    requires Equivalence(eq) && FirstMatch(eq, x, s) == |s| && eq(x, y)
    ensures Count(eq, s, y) == 0
  {
    if s == [] {
    } else {
      NoMatchCountsZero(eq, x, s[1..], y);
    }
  }

  /** Of every element class the difference leaves what exceeds the other list. */
  lemma {:induction false} DifferenceCounts<T(!new)>(eq: (T, T) -> bool, from: seq<T>, remove: seq<T>, x: T)
    requires Equivalence(eq)
    ensures var f, r := Count(eq, from, x), Count(eq, remove, x);
      Count(eq, Difference(eq, from, remove), x) == if f > r then f - r else 0
    decreases |from|
  {
    if from == [] {
    } else {
      var j := FirstMatch(eq, from[0], remove);
      if j < |remove| {
        CountWithout(eq, remove, j, x);
        DifferenceCounts(eq, from[1..], Without(remove, j), x);
      } else {
        DifferenceCounts(eq, from[1..], remove, x);
        var rest := Difference(eq, from[1..], remove);
        assert ([from[0]] + rest)[1..] == rest;
        if eq(from[0], x) { NoMatchCountsZero(eq, from[0], remove, x); }
      }
    }
  }

  // ---------- permutations ----------

  /** The lists can be paired off, equal element with equal element. */
  ghost predicate Permutation<T>(eq: (T, T) -> bool, a: seq<T>, b: seq<T>)
    decreases |a|
  {
    if a == [] then b == []
    else exists j :: 0 <= j < |b| && eq(a[0], b[j]) && Permutation(eq, a[1..], Without(b, j))
  }

  ghost predicate SameCounts<T(!new)>(eq: (T, T) -> bool, a: seq<T>, b: seq<T>) {
    forall x :: Count(eq, a, x) == Count(eq, b, x)
  }

  lemma {:induction false} PermutationCounts<T(!new)>(eq: (T, T) -> bool, a: seq<T>, b: seq<T>, x: T)
    requires Equivalence(eq) && Permutation(eq, a, b)
    ensures Count(eq, a, x) == Count(eq, b, x)
    decreases |a|
  {
    if a == [] {
    } else {
      var j :| 0 <= j < |b| && eq(a[0], b[j]) && Permutation(eq, a[1..], Without(b, j));
      PermutationCounts(eq, a[1..], Without(b, j), x);
      CountWithout(eq, b, j, x);
    }
  }

  lemma {:induction false} CountsPermute<T(!new)>(eq: (T, T) -> bool, a: seq<T>, b: seq<T>)
    requires Equivalence(eq) && SameCounts(eq, a, b)
    ensures Permutation(eq, a, b)
    decreases |a|
  {
    if b != [] { assert Count(eq, a, b[0]) == Count(eq, b, b[0]); }
    if a == [] {
    } else {
      var j := FirstMatch(eq, a[0], b);
      assert Count(eq, a, a[0]) == Count(eq, b, a[0]);
      if j == |b| { NoMatchCountsZero(eq, a[0], b, a[0]); }
      forall x ensures Count(eq, a[1..], x) == Count(eq, Without(b, j), x) {
        CountWithout(eq, b, j, x);
        assert Count(eq, a, x) == Count(eq, b, x);
      }
      CountsPermute(eq, a[1..], Without(b, j));
    }
  }

  lemma {:induction false} NoCountsNoElements<T(!new)>(eq: (T, T) -> bool, s: seq<T>)
    requires Equivalence(eq)
    ensures s == [] <==> forall x :: Count(eq, s, x) == 0
  {
    if s != [] { assert Count(eq, s, s[0]) > 0; }
  }

  /** Nothing missing and nothing extra means the lists are permutations of each other. */
  lemma MatchExact<T(!new)>(eq: (T, T) -> bool, a: seq<T>, b: seq<T>)
    requires Equivalence(eq)
    ensures Difference(eq, b, a) == [] && Difference(eq, a, b) == [] <==> Permutation(eq, a, b)
  {
    NoCountsNoElements(eq, Difference(eq, b, a));
    NoCountsNoElements(eq, Difference(eq, a, b));
    forall x ensures Count(eq, Difference(eq, b, a), x) == 0 && Count(eq, Difference(eq, a, b), x) == 0 <==>
      Count(eq, a, x) == Count(eq, b, x)
    {
      DifferenceCounts(eq, b, a, x);
      DifferenceCounts(eq, a, b, x);
    }
    if Permutation(eq, a, b) {
      forall x ensures Count(eq, a, x) == Count(eq, b, x) { PermutationCounts(eq, a, b, x); }
    }
    if Difference(eq, b, a) == [] && Difference(eq, a, b) == [] {
      assert SameCounts(eq, a, b);
      CountsPermute(eq, a, b);
    }
  }

  // ---------- the flags stand for the elements left ----------

  lemma {:induction false} NothingUsed<T>(s: seq<T>, used: seq<bool>)
    requires |s| == |used| && forall k :: 0 <= k < |used| ==> !used[k]
    ensures Unused(s, used) == s
  {
    if s == [] {
    } else {
      NothingUsed(s[1..], used[1..]);
    }
  }

  lemma MatchBehind<T>(eq: (T, T) -> bool, x: T, y: T, left: seq<T>)
    requires !eq(x, y)
    ensures FirstMatch(eq, x, [y] + left) == 1 + FirstMatch(eq, x, left)
  {
    assert ([y] + left)[1..] == left;
  }

  lemma WithoutBehind<T>(y: T, left: seq<T>, j: nat)
    requires j < |left|
    ensures Without([y] + left, j + 1) == [y] + Without(left, j)
  {
    assert ([y] + left)[j + 2..] == left[j + 1..];
  }

  lemma {:induction false} FlagFirstMatch<T>(eq: (T, T) -> bool, x: T, s: seq<T>, used: seq<bool>, i: nat)
    requires |s| == |used| && i < |s| && !used[i] && eq(x, s[i])
    requires forall k :: 0 <= k < i ==> used[k] || !eq(x, s[k])
    ensures FirstMatch(eq, x, Unused(s, used)) < |Unused(s, used)|
    ensures Unused(s, used[i := true]) == Without(Unused(s, used), FirstMatch(eq, x, Unused(s, used)))
  {
    var left := Unused(s[1..], used[1..]);
    if i == 0 {
      assert used[0 := true][1..] == used[1..];
      assert ([s[0]] + left)[1..] == left;
    } else {
      assert used[i := true][1..] == used[1..][i - 1 := true];
      FlagFirstMatch(eq, x, s[1..], used[1..], i - 1);
      if !used[0] {
        MatchBehind(eq, x, s[0], left);
        WithoutBehind(s[0], left, FirstMatch(eq, x, left));
      }
    }
  }

  lemma {:induction false} NoFlagMatch<T>(eq: (T, T) -> bool, x: T, s: seq<T>, used: seq<bool>)
    requires |s| == |used| && forall k :: 0 <= k < |s| ==> used[k] || !eq(x, s[k])
    ensures FirstMatch(eq, x, Unused(s, used)) == |Unused(s, used)|
  {
    if s == [] {
    } else {
      NoFlagMatch(eq, x, s[1..], used[1..]);
      if !used[0] { MatchBehind(eq, x, s[0], Unused(s[1..], used[1..])); }
    }
  }

  /** The inner loop: flags the first unused element equal to the item. */
  method MarkFirst<T>(eq: (T, T) -> bool, item: T, remove: seq<T>, used: array<bool>) returns (matched: bool)
    requires used.Length == |remove|
    modifies used
    ensures var left := Unused(remove, old(used[..]));
      var j := FirstMatch(eq, item, left);
      matched == (j < |left|) && Unused(remove, used[..]) == if matched then Without(left, j) else left
  {
    ghost var before := used[..];
    for i := 0 to |remove|
      invariant used[..] == before
      invariant forall k :: 0 <= k < i ==> before[k] || !eq(item, remove[k])
    {
      if !used[i] && eq(item, remove[i]) {
        FlagFirstMatch(eq, item, remove, before, i);
        used[i] := true;
        assert used[..] == before[i := true];
        return true;
      }
    }
    NoFlagMatch(eq, item, remove, before);
    return false;
  }

  /** diff and what the rest of `from` leaves make up the whole difference. */
  ghost predicate Progressed<T>(eq: (T, T) -> bool, from: seq<T>, n: nat, left: seq<T>, diff: seq<T>, whole: seq<T>) {
    n <= |from| && diff + Difference(eq, from[n..], left) == whole
  }

  lemma ProgressedOneMore<T>(eq: (T, T) -> bool, from: seq<T>, n: nat, left: seq<T>, diff: seq<T>, whole: seq<T>)
    requires n < |from| && Progressed(eq, from, n, left, diff, whole)
    ensures var j := FirstMatch(eq, from[n], left);
      if j < |left| then Progressed(eq, from, n + 1, Without(left, j), diff, whole)
      else Progressed(eq, from, n + 1, left, diff + [from[n]], whole)
  {
    assert from[n..][1..] == from[n + 1..];
    var rest := Difference(eq, from[n + 1..], left);
    assert diff + ([from[n]] + rest) == (diff + [from[n]]) + rest;
  }

  method ComputeDifference<T>(eq: (T, T) -> bool, from: seq<T>, remove: seq<T>) returns (diff: seq<T>)
    ensures diff == Difference(eq, from, remove)
  {
    var used := new bool[|remove|](_ => false);
    diff := [];
    NothingUsed(remove, used[..]);
    ghost var left, whole := remove, Difference(eq, from, remove);
    for n := 0 to |from|
      invariant left == Unused(remove, used[..])
      invariant Progressed(eq, from, n, left, diff, whole)
    {
      ProgressedOneMore(eq, from, n, left, diff, whole);
      var matched := MarkFirst(eq, from[n], remove, used);
      left := Unused(remove, used[..]);
      if !matched {
        diff := diff + [from[n]];
      }
    }
  }

  /** `ElementsMatchAt`: None stands for a value that is neither a slice nor an array. */
  method ElementsMatchAt<T(!new)>(eq: (T, T) -> bool, listA: Option<seq<T>>, listB: Option<seq<T>>) returns (pass: bool)
    requires Equivalence(eq)
    ensures pass <==> listA.Some? && listB.Some? && Permutation(eq, listA.value, listB.value)
  {
    if listA.None? || listB.None? {
      return false;
    }
    var missing := ComputeDifference(eq, listB.value, listA.value);
    var extra := ComputeDifference(eq, listA.value, listB.value);
    MatchExact(eq, listA.value, listB.value);
    return |missing| == 0 && |extra| == 0;
  }
}
