/** Sizes of finite sets. */
module FiniteSets {
  lemma {:induction false} SubsetSize<T>(a: set<T>, b: set<T>)
    requires a <= b
    ensures |a| <= |b| && (|a| == |b| ==> a == b)
  {
    if a == {} {
    } else {
      var x :| x in a;
      SubsetSize(a - {x}, b - {x});
    }
  }

  /** Pigeonhole: n different values in s need as many elements there. */
  lemma {:induction false} InjectionFits<T>(f: nat -> T, n: nat, s: set<T>)
    requires forall i: nat :: i < n ==> f(i) in s
    requires forall i: nat, j: nat :: i < j < n ==> f(i) != f(j)
    ensures n <= |s|
  {
    if n == 0 {
    } else {
      InjectionFits(f, n - 1, s - {f(n - 1)});
    }
  }
}
