/** `diffLines` of internal/core/asserts.go: a line diff from an LCS table. Lines
    are only ever compared for equality. */
module LineDiff {
  datatype Kind = Keep | Remove | Add

  datatype LineOp<T> = LineOp(kind: Kind, text: T)

  type Script<T> = seq<LineOp<T>>

  // ---------- edit scripts ----------

  /** The lines a script keeps or removes, in order. */
  function Before<T>(ops: Script<T>): seq<T> {
    if ops == [] then []
    else (if ops[0].kind != Add then [ops[0].text] else []) + Before(ops[1..])
  }

  /** The lines a script keeps or adds, in order. */
  function After<T>(ops: Script<T>): seq<T> {
    if ops == [] then []
    else (if ops[0].kind != Remove then [ops[0].text] else []) + After(ops[1..])
  }

  function Kept<T>(ops: Script<T>): seq<T> {
    if ops == [] then []
    else (if ops[0].kind == Keep then [ops[0].text] else []) + Kept(ops[1..])
  }

  /** How many lines a script removes or adds. */
  function Changes<T>(ops: Script<T>): nat {
    if ops == [] then 0 else (if ops[0].kind == Keep then 0 else 1) + Changes(ops[1..])
  }

  ghost predicate Turns<T>(ops: Script<T>, a: seq<T>, b: seq<T>) {
    Before(ops) == a && After(ops) == b
  }

  // ---------- common subsequences ----------

  predicate Subsequence<T(==)>(c: seq<T>, a: seq<T>)
    decreases |a|
  {
    if c == [] then true
    else if a == [] then false
    else if c[0] == a[0] then Subsequence(c[1..], a[1..])
    else Subsequence(c, a[1..])
  }

  ghost predicate Common<T>(c: seq<T>, a: seq<T>, b: seq<T>) {
    Subsequence(c, a) && Subsequence(c, b)
  }

  /** The recurrence the table is filled by. */
  function Lcs<T(==)>(a: seq<T>, b: seq<T>): nat
    decreases |a| + |b|
  {
    if a == [] || b == [] then 0
    else if a[0] == b[0] then Lcs(a[1..], b[1..]) + 1
    else if Lcs(a[1..], b) >= Lcs(a, b[1..]) then Lcs(a[1..], b)
    else Lcs(a, b[1..])
  }

  /** The walk, as a function of the two inputs: on a tie, removals come first. */
  function Walk<T(==)>(a: seq<T>, b: seq<T>): Script<T>
    decreases |a| + |b|
  {
    if a == [] && b == [] then []
    else if b == [] then [LineOp(Remove, a[0])] + Walk(a[1..], b)
    else if a == [] then [LineOp(Add, b[0])] + Walk(a, b[1..])
    else if a[0] == b[0] then [LineOp(Keep, a[0])] + Walk(a[1..], b[1..])
    else if Lcs(a[1..], b) >= Lcs(a, b[1..]) then [LineOp(Remove, a[0])] + Walk(a[1..], b)
    else [LineOp(Add, b[0])] + Walk(a, b[1..])
  }

  // ---------- the recurrence is the longest common subsequence ----------

  lemma {:induction false} SubsequenceTail<T>(c: seq<T>, a: seq<T>)
    requires c != [] && Subsequence(c, a)
    ensures Subsequence(c[1..], a)
    decreases |a|
  {
    if c[0] == a[0] {
      if |c| > 1 && c[1] == a[0] {
        SubsequenceTail(c[1..], a[1..]);
      }
    } else {
      SubsequenceTail(c, a[1..]);
      if |c| > 1 && c[1] == a[0] {
        SubsequenceTail(c[1..], a[1..]);
      }
    }
  }

  lemma {:induction false} SubsequenceDrop<T>(c: seq<T>, a: seq<T>)
    requires a != [] && Subsequence(c, a[1..])
    ensures Subsequence(c, a)
  {
    if c != [] && c[0] == a[0] {
      SubsequenceTail(c, a[1..]);
    }
  }

  /** No common subsequence is longer. */
  lemma {:induction false} LcsIsUpperBound<T>(c: seq<T>, a: seq<T>, b: seq<T>)
    requires Common(c, a, b)
    ensures |c| <= Lcs(a, b)
    decreases |a| + |b|
  {
    if c == [] {
    } else if a[0] == b[0] {
      if c[0] == a[0] {
        LcsIsUpperBound(c[1..], a[1..], b[1..]);
      } else {
        LcsIsUpperBound(c, a[1..], b[1..]);
      }
    } else if c[0] == a[0] {
      LcsIsUpperBound(c, a, b[1..]);
    } else {
      LcsIsUpperBound(c, a[1..], b);
    }
  }

  // ---------- the walk is a shortest script ----------

  lemma Prepend<T>(op: LineOp<T>, ops: Script<T>)
    ensures Before([op] + ops) == (if op.kind != Add then [op.text] else []) + Before(ops)
    ensures After([op] + ops) == (if op.kind != Remove then [op.text] else []) + After(ops)
    ensures |Kept([op] + ops)| == (if op.kind == Keep then 1 else 0) + |Kept(ops)|
  {
    assert ([op] + ops)[1..] == ops;
  }

  lemma {:induction false} WalkTurns<T>(a: seq<T>, b: seq<T>)
    ensures Turns(Walk(a, b), a, b)
    ensures |Kept(Walk(a, b))| == Lcs(a, b)
    decreases |a| + |b|
  {
    if a == [] && b == [] {
    } else if b == [] || (a != [] && a[0] != b[0] && Lcs(a[1..], b) >= Lcs(a, b[1..])) {
      WalkTurns(a[1..], b);
      Prepend(LineOp(Remove, a[0]), Walk(a[1..], b));
    } else if a != [] && a[0] == b[0] {
      WalkTurns(a[1..], b[1..]);
      Prepend(LineOp(Keep, a[0]), Walk(a[1..], b[1..]));
    } else {
      WalkTurns(a, b[1..]);
      Prepend(LineOp(Add, b[0]), Walk(a, b[1..]));
    }
  }

  /** What a script keeps is a common subsequence of what it turns into what. */
  lemma {:induction false} KeptIsCommon<T>(ops: Script<T>)
    ensures Common(Kept(ops), Before(ops), After(ops))
  {
    if ops == [] {
    } else {
      KeptIsCommon(ops[1..]);
      var k, b, a := Kept(ops[1..]), Before(ops[1..]), After(ops[1..]);
      match ops[0].kind
      case Keep =>
        assert ([ops[0].text] + k)[1..] == k && ([ops[0].text] + b)[1..] == b && ([ops[0].text] + a)[1..] == a;
      case Remove =>
        assert [] + k == k && [] + a == a && ([ops[0].text] + b)[1..] == b;
        SubsequenceDrop(k, [ops[0].text] + b);
      case Add =>
        assert [] + k == k && [] + b == b && ([ops[0].text] + a)[1..] == a;
        SubsequenceDrop(k, [ops[0].text] + a);
    }
  }

  lemma {:induction false} ChangesCounted<T>(ops: Script<T>)
    ensures Changes(ops) + 2 * |Kept(ops)| == |Before(ops)| + |After(ops)|
  {
    if ops == [] {
    } else {
      ChangesCounted(ops[1..]);
    }
  }

  /** The kept lines of the diff are a longest common subsequence. */
  lemma KeptIsLongestCommon<T>(a: seq<T>, b: seq<T>, c: seq<T>)
    requires Common(c, a, b)
    ensures Common(Kept(Walk(a, b)), a, b)
    ensures |c| <= |Kept(Walk(a, b))|
  {
    WalkTurns(a, b);
    KeptIsCommon(Walk(a, b));
    LcsIsUpperBound(c, a, b);
  }

  /** No edit script between the two inputs has fewer additions and removals. */
  lemma WalkIsShortest<T>(a: seq<T>, b: seq<T>, ops: Script<T>)
    requires Turns(ops, a, b)
    ensures Turns(Walk(a, b), a, b)
    ensures Changes(Walk(a, b)) <= Changes(ops)
  {
    WalkTurns(a, b);
    ChangesAtLeast(ops, a, b);
  }

  // ---------- the walk among the shortest scripts ----------

  function Rank(kind: Kind): nat {
    match kind case Keep => 0 case Remove => 1 case Add => 2
  }

  /** Where they first differ, w keeps before s removes, or removes before s adds. */
  ghost predicate NoLater<T>(w: Script<T>, s: Script<T>) {
    w == s || exists k: nat :: DifferAt(w, s, k) && Rank(w[k].kind) < Rank(s[k].kind)
  }

  ghost predicate DifferAt<T>(w: Script<T>, s: Script<T>, k: nat) {
    k < |w| && k < |s| && w[..k] == s[..k]
  }

  lemma NoLaterBehind<T>(op: LineOp<T>, w: Script<T>, s: Script<T>)
    requires NoLater(w, s)
    ensures NoLater([op] + w, [op] + s)
  {
    if w != s {
      var k: nat :| DifferAt(w, s, k) && Rank(w[k].kind) < Rank(s[k].kind);
      assert ([op] + w)[..k + 1] == [op] + w[..k] && ([op] + s)[..k + 1] == [op] + s[..k];
      assert DifferAt([op] + w, [op] + s, k + 1);
    }
  }

  /** What the first operation of a script is about, and what the rest turns. */
  lemma FirstOp<T>(ops: Script<T>, a: seq<T>, b: seq<T>)
    requires Turns(ops, a, b)
    ensures ops == [] <==> a == [] && b == []
    ensures ops != [] ==> match ops[0].kind
      case Keep => a != [] && b != [] && ops[0].text == a[0] == b[0] && Turns(ops[1..], a[1..], b[1..])
      case Remove => a != [] && ops[0].text == a[0] && Turns(ops[1..], a[1..], b)
      case Add => b != [] && ops[0].text == b[0] && Turns(ops[1..], a, b[1..])
  {
    if ops != [] {
      assert ops == [ops[0]] + ops[1..];
      Prepend(ops[0], ops[1..]);
    }
  }

  /** A script is at least as long as the longest common subsequence demands; the
      walk is just as long. */
  lemma ChangesAtLeast<T>(ops: Script<T>, a: seq<T>, b: seq<T>)
    requires Turns(ops, a, b)
    ensures Changes(ops) >= |a| + |b| - 2 * Lcs(a, b) == Changes(Walk(a, b))
  {
    KeptIsCommon(ops);
    LcsIsUpperBound(Kept(ops), a, b);
    ChangesCounted(ops);
    WalkTurns(a, b);
    ChangesCounted(Walk(a, b));
  }

  /** Among the shortest scripts it is the one that keeps a line as early as it can,
      and removes lines before it adds others. */
  lemma {:induction false} WalkIsFirst<T>(a: seq<T>, b: seq<T>, ops: Script<T>)
    requires Turns(ops, a, b) && Changes(ops) <= Changes(Walk(a, b))
    ensures NoLater(Walk(a, b), ops)
    decreases |a| + |b|
  {
    var w := Walk(a, b);
    FirstOp(ops, a, b);
    if ops == [] {
    } else {
      WalkTurns(a, b);
      FirstOp(w, a, b);
      ChangesAtLeast(ops, a, b);
      var k := ops[0].kind;
      var x, y := if k == Add then a else a[1..], if k == Remove then b else b[1..];
      ChangesAtLeast(ops[1..], x, y);
      if w[0] == ops[0] {
        assert w == [w[0]] + Walk(x, y) && ops == [ops[0]] + ops[1..];
        WalkIsFirst(x, y, ops[1..]);
        NoLaterBehind(w[0], Walk(x, y), ops[1..]);
      } else {
        assert Rank(w[0].kind) < Rank(k);
        assert DifferAt(w, ops, 0);
      }
    }
  }

  // ---------- the table and the walk over it ----------

  /** What the table holds at (i, j). */
  function LcsAt<T(==)>(a: seq<T>, b: seq<T>, i: nat, j: nat): nat
    requires i <= |a| && j <= |b|
  {
    Lcs(a[i..], b[j..])
  }

  ghost predicate RowsFilled<T>(lcs: array2<int>, a: seq<T>, b: seq<T>, row: nat)
    requires lcs.Length0 == |a| + 1 && lcs.Length1 == |b| + 1
    reads lcs
  {
    forall i: nat, j: nat :: row <= i <= |a| && j <= |b| ==> lcs[i, j] == LcsAt(a, b, i, j)
  }

  lemma LcsFrom<T>(a: seq<T>, b: seq<T>, i: nat, j: nat)
    requires i < |a| && j < |b|
    ensures LcsAt(a, b, i, j) ==
      if a[i] == b[j] then LcsAt(a, b, i + 1, j + 1) + 1
      else if LcsAt(a, b, i + 1, j) >= LcsAt(a, b, i, j + 1) then LcsAt(a, b, i + 1, j)
      else LcsAt(a, b, i, j + 1)
  {
    assert a[i..][1..] == a[i + 1..] && b[j..][1..] == b[j + 1..];
  }

  method FillTable<T(==)>(a: seq<T>, b: seq<T>) returns (lcs: array2<int>)
    ensures fresh(lcs) && lcs.Length0 == |a| + 1 && lcs.Length1 == |b| + 1
    ensures RowsFilled(lcs, a, b, 0)
  {
    var n, m := |a|, |b|;
    lcs := new int[n + 1, m + 1]((_, _) => 0);
    var i := n - 1;
    while i >= 0
      invariant -1 <= i < n || (n == 0 && i == -1)
      invariant RowsFilled(lcs, a, b, i + 1)
      invariant forall x: nat :: x <= n ==> lcs[x, m] == LcsAt(a, b, x, m)
    {
      FillRow(a, b, lcs, i);
      i := i - 1;
    }
  }

  /** The inner loop. */
  method FillRow<T(==)>(a: seq<T>, b: seq<T>, lcs: array2<int>, i: nat)
    requires lcs.Length0 == |a| + 1 && lcs.Length1 == |b| + 1 && i < |a|
    requires RowsFilled(lcs, a, b, i + 1) && forall x: nat :: x <= |a| ==> lcs[x, |b|] == LcsAt(a, b, x, |b|)
    modifies lcs
    ensures RowsFilled(lcs, a, b, i) && forall x: nat :: x <= |a| ==> lcs[x, |b|] == LcsAt(a, b, x, |b|)
  {
    var j := |b| - 1;
    while j >= 0
      invariant -1 <= j < |b| || (|b| == 0 && j == -1)
      invariant forall x: nat, y: nat :: i < x <= |a| && y <= |b| ==> lcs[x, y] == LcsAt(a, b, x, y)
      invariant forall y: nat :: j < y <= |b| ==> lcs[i, y] == LcsAt(a, b, i, y)
      invariant forall x: nat :: x <= |a| ==> lcs[x, |b|] == LcsAt(a, b, x, |b|)
    {
      LcsFrom(a, b, i, j);
      if a[i] == b[j] {
        lcs[i, j] := lcs[i + 1, j + 1] + 1;
      } else if lcs[i + 1, j] >= lcs[i, j + 1] {
        lcs[i, j] := lcs[i + 1, j];
      } else {
        lcs[i, j] := lcs[i, j + 1];
      }
      j := j - 1;
    }
  }

  /** The walk from position (i, j), one operation at a time. */
  lemma WalkFrom<T>(a: seq<T>, b: seq<T>, i: nat, j: nat)
    requires i <= |a| && j <= |b| && (i < |a| || j < |b|)
    ensures var w := Walk(a[i..], b[j..]);
      if i < |a| && j < |b| && a[i] == b[j] then w == [LineOp(Keep, a[i])] + Walk(a[i + 1..], b[j + 1..])
      else if j == |b| || (i < |a| && Lcs(a[i + 1..], b[j..]) >= Lcs(a[i..], b[j + 1..]))
      then w == [LineOp(Remove, a[i])] + Walk(a[i + 1..], b[j..])
      else w == [LineOp(Add, b[j])] + Walk(a[i..], b[j + 1..])
  {
    assert i < |a| ==> a[i..][1..] == a[i + 1..];
    assert j < |b| ==> b[j..][1..] == b[j + 1..];
  }

  /** The operations emitted so far, followed by the walk from (i, j), are the whole walk. */
  ghost predicate Reached<T>(ops: Script<T>, a: seq<T>, b: seq<T>, i: nat, j: nat) {
    i <= |a| && j <= |b| && ops + Walk(a[i..], b[j..]) == Walk(a, b)
  }

  lemma Emit<T>(ops: Script<T>, a: seq<T>, b: seq<T>, i: nat, j: nat, op: LineOp, i': nat, j': nat)
    requires Reached(ops, a, b, i, j) && i <= i' <= |a| && j <= j' <= |b|
    requires Walk(a[i..], b[j..]) == [op] + Walk(a[i'..], b[j'..])
    ensures Reached(ops + [op], a, b, i', j')
  {
    var rest := Walk(a[i'..], b[j'..]);
    assert ops + ([op] + rest) == (ops + [op]) + rest;
  }

  lemma EmitKeep<T>(ops: Script<T>, a: seq<T>, b: seq<T>, i: nat, j: nat)
    requires Reached(ops, a, b, i, j) && i < |a| && j < |b| && a[i] == b[j]
    ensures Reached(ops + [LineOp(Keep, a[i])], a, b, i + 1, j + 1)
  {
    WalkFrom(a, b, i, j);
    Emit(ops, a, b, i, j, LineOp(Keep, a[i]), i + 1, j + 1);
  }

  lemma EmitRemove<T>(ops: Script<T>, a: seq<T>, b: seq<T>, i: nat, j: nat)
    requires Reached(ops, a, b, i, j) && i < |a|
    requires j == |b| || (a[i] != b[j] && Lcs(a[i + 1..], b[j..]) >= Lcs(a[i..], b[j + 1..]))
    ensures Reached(ops + [LineOp(Remove, a[i])], a, b, i + 1, j)
  {
    WalkFrom(a, b, i, j);
    Emit(ops, a, b, i, j, LineOp(Remove, a[i]), i + 1, j);
  }

  lemma EmitAdd<T>(ops: Script<T>, a: seq<T>, b: seq<T>, i: nat, j: nat)
    requires Reached(ops, a, b, i, j) && j < |b|
    requires i == |a| || (a[i] != b[j] && Lcs(a[i + 1..], b[j..]) < Lcs(a[i..], b[j + 1..]))
    ensures Reached(ops + [LineOp(Add, b[j])], a, b, i, j + 1)
  {
    WalkFrom(a, b, i, j);
    Emit(ops, a, b, i, j, LineOp(Add, b[j]), i, j + 1);
  }

  method DiffLines<T(==)>(a: seq<T>, b: seq<T>) returns (ops: Script<T>)
    ensures ops == Walk(a, b)
  {
    var n, m := |a|, |b|;
    var lcs := FillTable(a, b);
    ops := [];
    var i, j := 0, 0;
    while i < n && j < m
      invariant Reached(ops, a, b, i, j) && RowsFilled(lcs, a, b, 0)
    {
      assert lcs[i + 1, j] == LcsAt(a, b, i + 1, j) && lcs[i, j + 1] == LcsAt(a, b, i, j + 1);
      if a[i] == b[j] {
        EmitKeep(ops, a, b, i, j);
        ops := ops + [LineOp(Keep, a[i])];
        i, j := i + 1, j + 1;
      } else if lcs[i + 1, j] >= lcs[i, j + 1] {
        EmitRemove(ops, a, b, i, j);
        ops := ops + [LineOp(Remove, a[i])];
        i := i + 1;
      } else {
        EmitAdd(ops, a, b, i, j);
        ops := ops + [LineOp(Add, b[j])];
        j := j + 1;
      }
    }
    while i < n
      invariant Reached(ops, a, b, i, j) && (i == n || j == m)
    {
      EmitRemove(ops, a, b, i, j);
      ops := ops + [LineOp(Remove, a[i])];
      i := i + 1;
    }
    while j < m
      invariant Reached(ops, a, b, i, j) && i == n
    {
      EmitAdd(ops, a, b, i, j);
      ops := ops + [LineOp(Add, b[j])];
      j := j + 1;
    }
  }
}
