/** Keeping the elements of a sequence that satisfy a condition, in their order. */
module Filtering {
  function Filter<T>(p: T -> bool, s: seq<T>): seq<T> {
    if s == [] then [] else if p(s[0]) then [s[0]] + Filter(p, s[1..]) else Filter(p, s[1..])
  }

  /** out lists the elements of s at the positions `at`, in order; these are all the
      positions where p holds. */
  ghost predicate KeptInOrder<T>(p: T -> bool, s: seq<T>, out: seq<T>, at: seq<nat>) {
    && |at| == |out|
    && (forall i, j :: 0 <= i < j < |at| ==> at[i] < at[j])
    && (forall k :: 0 <= k < |at| ==> at[k] < |s| && out[k] == s[at[k]])
    && (forall i: nat :: i < |s| ==> (p(s[i]) <==> i in at))
  }

  lemma {:induction false} FilterAppend<T>(p: T -> bool, a: seq<T>, b: seq<T>)
    ensures Filter(p, a + b) == Filter(p, a) + Filter(p, b)
  {
    if a == [] {
      assert a + b == b;
    } else {
      FilterAppend(p, a[1..], b);
      assert (a + b)[1..] == a[1..] + b;
    }
  }

  lemma FilterStep<T>(p: T -> bool, s: seq<T>, i: nat)
    requires i < |s|
    ensures Filter(p, s[..i + 1]) == Filter(p, s[..i]) + if p(s[i]) then [s[i]] else []
  {
    FilterAppend(p, s[..i], [s[i]]);
    assert s[..i + 1] == s[..i] + [s[i]];
  }

  lemma {:induction false} FilterElements<T>(p: T -> bool, s: seq<T>, x: T)
    ensures x in Filter(p, s) <==> x in s && p(x)
  {
    if s == [] {
    } else {
      FilterElements(p, s[1..], x);
    }
  }

  lemma {:induction false} FilterSame<T>(p: T -> bool, q: T -> bool, s: seq<T>)
    requires forall i :: 0 <= i < |s| ==> p(s[i]) == q(s[i])
    ensures Filter(p, s) == Filter(q, s)
  {
    if s == [] {
    } else {
      FilterSame(p, q, s[1..]);
    }
  }

  lemma {:induction false} FilterAll<T>(p: T -> bool, s: seq<T>)
    requires forall i :: 0 <= i < |s| ==> p(s[i])
    ensures Filter(p, s) == s
  {
    if s == [] {
    } else {
      FilterAll(p, s[1..]);
    }
  }

  lemma {:induction false} FilterKeepsOrder<T>(p: T -> bool, s: seq<T>) returns (at: seq<nat>)
    ensures KeptInOrder(p, s, Filter(p, s), at)
  {
    if s == [] {
      at := [];
    } else {
      var n := |s| - 1;
      var before := FilterKeepsOrder(p, s[..n]);
      FilterStep(p, s, n);
      assert s[..n + 1] == s;
      at := before + if p(s[n]) then [n] else [];
      forall i: nat | i < |s| ensures p(s[i]) <==> i in at {
        assert i < n ==> s[..n][i] == s[i];
        if i == n && p(s[n]) { assert at[|before|] == n; }
      }
    }
  }

  /** The greatest position comes last. */
  lemma {:induction false} LastPosition(at: seq<nat>, n: nat)
    requires forall i, j :: 0 <= i < j < |at| ==> at[i] < at[j]
    requires n in at && forall k :: 0 <= k < |at| ==> at[k] <= n
    ensures at[|at| - 1] == n
    ensures forall i: nat :: i in at[..|at| - 1] <==> i in at && i != n
  {
    var m := |at| - 1;
    assert at == at[..m] + [at[m]];
    forall i: nat | i in at[..m] ensures i != at[m] {
      var k :| 0 <= k < m && at[..m][k] == i;
      assert at[k] < at[m];
    }
  }

  lemma {:induction false} KeptInFront<T>(p: T -> bool, s: seq<T>, out: seq<T>, at: seq<nat>)
    requires s != [] && KeptInOrder(p, s, out, at)
    ensures var n, m := |s| - 1, |out| - 1;
      if p(s[n])
      then out != [] && out == out[..m] + [s[n]] && KeptInOrder(p, s[..n], out[..m], at[..m])
      else KeptInOrder(p, s[..n], out, at)
  {
    var n := |s| - 1;
    if p(s[n]) {
      LastPosition(at, n);
    } else {
      assert n !in at;
    }
  }

  /** Nothing else keeps them in order. */
  lemma {:induction false} KeptInOrderIsFilter<T>(p: T -> bool, s: seq<T>, out: seq<T>, at: seq<nat>)
    requires KeptInOrder(p, s, out, at)
    ensures out == Filter(p, s)
  {
    if at != [] { assert at[0] < |s|; }
    if s == [] {
    } else {
      var n, m := |s| - 1, |out| - 1;
      KeptInFront(p, s, out, at);
      FilterStep(p, s, n);
      assert s[..n + 1] == s;
      if p(s[n]) {
        KeptInOrderIsFilter(p, s[..n], out[..m], at[..m]);
      } else {
        KeptInOrderIsFilter(p, s[..n], out, at);
      }
    }
  }
}
