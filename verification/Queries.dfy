/** The query builder of memdb/db.go: filters, a stable sort, an offset and a limit. */
module Queries {
  import opened Options
  import opened Filtering

  type Order<!T> = (T, T) -> int

  // ---------- filters ----------

  predicate Keep<T>(wheres: seq<T -> bool>, x: T) {
    forall i :: 0 <= i < |wheres| ==> wheres[i](x)
  }

  function Matching<T>(wheres: seq<T -> bool>, s: seq<T>): seq<T> {
    Filter(x => Keep(wheres, x), s)
  }

  lemma MatchingStep<T>(wheres: seq<T -> bool>, s: seq<T>, i: nat)
    requires i < |s|
    ensures Matching(wheres, s[..i + 1]) == Matching(wheres, s[..i]) + if Keep(wheres, s[i]) then [s[i]] else []
  {
    FilterStep(x => Keep(wheres, x), s, i);
  }

  // ---------- stable sorting ----------

  /** A cmp-style comparison that is a total preorder. */
  ghost predicate TotalPreorder<T(!new)>(cmp: Order<T>) {
    && (forall x :: cmp(x, x) == 0)
    && (forall x, y :: cmp(x, y) < 0 <==> cmp(y, x) > 0)
    && (forall x, y, z :: cmp(x, y) <= 0 && cmp(y, z) <= 0 ==> cmp(x, z) <= 0)
  }

  ghost predicate Sorted<T>(cmp: Order<T>, s: seq<T>) {
    forall i, j :: 0 <= i < j < |s| ==> cmp(s[i], s[j]) <= 0
  }

  /** The elements that compare equal to x, in order. */
  function Ties<T>(cmp: Order<T>, x: T, s: seq<T>): seq<T> {
    Filter(y => cmp(x, y) == 0, s)
  }

  /** out is s sorted, and elements that compare equal keep their order. */
  ghost predicate StableSortOf<T(!new)>(cmp: Order<T>, out: seq<T>, s: seq<T>) {
    Sorted(cmp, out) && forall x :: Ties(cmp, x, out) == Ties(cmp, x, s)
  }

  /** Inserts x before the first element it does not exceed. */
  function Insert<T>(cmp: Order<T>, x: T, s: seq<T>): seq<T> {
    if s == [] then [x] else if cmp(x, s[0]) <= 0 then [x] + s else [s[0]] + Insert(cmp, x, s[1..])
  }

  function StableSort<T>(cmp: Order<T>, s: seq<T>): seq<T> {
    if s == [] then [] else Insert(cmp, s[0], StableSort(cmp, s[1..]))
  }

  lemma {:induction false} InsertElements<T>(cmp: Order<T>, x: T, s: seq<T>, y: T)
    ensures y in Insert(cmp, x, s) <==> y == x || y in s
  {
    if s == [] || cmp(x, s[0]) <= 0 {
    } else {
      InsertElements(cmp, x, s[1..], y);
    }
  }

  lemma {:induction false} InsertSorted<T(!new)>(cmp: Order<T>, x: T, s: seq<T>)
    requires TotalPreorder(cmp) && Sorted(cmp, s)
    ensures Sorted(cmp, Insert(cmp, x, s))
  {
    if s == [] || cmp(x, s[0]) <= 0 {
    } else {
      InsertSorted(cmp, x, s[1..]);
      var r := Insert(cmp, x, s[1..]);
      forall j | 0 <= j < |r| ensures cmp(s[0], r[j]) <= 0 {
        InsertElements(cmp, x, s[1..], r[j]);
      }
    }
  }

  lemma TiesCons<T>(cmp: Order<T>, x: T, y: T, s: seq<T>)
    ensures Ties(cmp, x, [y] + s) == if cmp(x, y) == 0 then [y] + Ties(cmp, x, s) else Ties(cmp, x, s)
  {
    assert ([y] + s)[1..] == s;
  }

  lemma TiedToOne<T(!new)>(cmp: Order<T>, x: T, y: T, z: T)
    requires TotalPreorder(cmp) && cmp(x, y) > 0
    ensures cmp(z, y) == 0 ==> cmp(z, x) != 0
  {
    assert cmp(z, y) == 0 && cmp(z, x) == 0 ==> cmp(x, z) <= 0 && cmp(z, y) <= 0;
  }

  /** An element before the place of x in s is passed over. */
  lemma TiesPassed<T>(cmp: Order<T>, x: T, y: T, s: seq<T>, t: seq<T>, z: T)
    requires cmp(z, y) == 0 ==> cmp(z, x) != 0
    requires Ties(cmp, z, t) == if cmp(z, x) == 0 then [x] + Ties(cmp, z, s) else Ties(cmp, z, s)
    ensures Ties(cmp, z, [y] + t) == if cmp(z, x) == 0 then [x] + Ties(cmp, z, [y] + s) else Ties(cmp, z, [y] + s)
  {
    TiesCons(cmp, z, y, s);
    TiesCons(cmp, z, y, t);
  }

  lemma {:induction false} InsertTies<T(!new)>(cmp: Order<T>, x: T, s: seq<T>, z: T)
    requires TotalPreorder(cmp) && Sorted(cmp, s)
    ensures Ties(cmp, z, Insert(cmp, x, s)) == if cmp(z, x) == 0 then [x] + Ties(cmp, z, s) else Ties(cmp, z, s)
  {
    if s == [] || cmp(x, s[0]) <= 0 {
      TiesCons(cmp, z, x, s);
      if s == [] { assert [x] + s == [x]; }
    } else {
      InsertTies(cmp, x, s[1..], z);
      assert s == [s[0]] + s[1..];
      TiedToOne(cmp, x, s[0], z);
      TiesPassed(cmp, x, s[0], s[1..], Insert(cmp, x, s[1..]), z);
    }
  }

  lemma {:induction false} StableSortSorts<T(!new)>(cmp: Order<T>, s: seq<T>)
    requires TotalPreorder(cmp)
    ensures StableSortOf(cmp, StableSort(cmp, s), s)
  {
    if s == [] {
    } else {
      StableSortSorts(cmp, s[1..]);
      InsertSorted(cmp, s[0], StableSort(cmp, s[1..]));
      forall z ensures Ties(cmp, z, StableSort(cmp, s)) == Ties(cmp, z, s) {
        InsertTies(cmp, s[0], StableSort(cmp, s[1..]), z);
        assert Ties(cmp, z, StableSort(cmp, s[1..])) == Ties(cmp, z, s[1..]);
      }
    }
  }

  /** Two sorted sequences whose ties agree start with the same element. */
  lemma SameHead<T(!new)>(cmp: Order<T>, a: seq<T>, b: seq<T>)
    requires TotalPreorder(cmp) && Sorted(cmp, a) && Sorted(cmp, b) && a != []
    requires forall x :: Ties(cmp, x, a) == Ties(cmp, x, b)
    ensures b != [] && a[0] == b[0]
  {
    TieOccurs(cmp, a, b);
    assert Ties(cmp, b[0], a) == Ties(cmp, b[0], b);
    TieOccurs(cmp, b, a);
    assert cmp(a[0], b[0]) == 0;
    assert Ties(cmp, a[0], a)[0] == a[0] && Ties(cmp, a[0], b)[0] == b[0];
  }

  /** The head of a is tied with some element of b, so b starts no higher. */
  lemma TieOccurs<T(!new)>(cmp: Order<T>, a: seq<T>, b: seq<T>)
    requires TotalPreorder(cmp) && Sorted(cmp, b) && a != [] && Ties(cmp, a[0], a) == Ties(cmp, a[0], b)
    ensures b != [] && cmp(b[0], a[0]) <= 0
  {
    var y := Ties(cmp, a[0], a)[0];
    FilterElements(z => cmp(a[0], z) == 0, b, y);
    assert y in b;
    var j :| 0 <= j < |b| && b[j] == y;
  }

  lemma TailsTie<T>(cmp: Order<T>, x: T, y: T, s: seq<T>, t: seq<T>)
    requires Ties(cmp, x, [y] + s) == Ties(cmp, x, [y] + t)
    ensures Ties(cmp, x, s) == Ties(cmp, x, t)
  {
    TiesCons(cmp, x, y, s);
    TiesCons(cmp, x, y, t);
    var u, v := Ties(cmp, x, s), Ties(cmp, x, t);
    if cmp(x, y) == 0 {
      assert ([y] + u)[1..] == u && ([y] + v)[1..] == v;
    }
  }

  /** There is only one stable sort of a sequence. */
  lemma {:induction false} StableSortUnique<T(!new)>(cmp: Order<T>, a: seq<T>, b: seq<T>)
    requires TotalPreorder(cmp) && Sorted(cmp, a) && Sorted(cmp, b)
    requires forall x :: Ties(cmp, x, a) == Ties(cmp, x, b)
    ensures a == b
    decreases |a|
  {
    if b != [] { assert Ties(cmp, b[0], a) == Ties(cmp, b[0], b); }
    if a == [] {
    } else {
      SameHead(cmp, a, b);
      forall x ensures Ties(cmp, x, a[1..]) == Ties(cmp, x, b[1..]) {
        assert Ties(cmp, x, a) == Ties(cmp, x, b);
        assert a == [a[0]] + a[1..] && b == [a[0]] + b[1..];
        TailsTie(cmp, x, a[0], a[1..], b[1..]);
      }
      StableSortUnique(cmp, a[1..], b[1..]);
    }
  }

  /** Any stable sort, Go's included, computes `StableSort`. */
  lemma AnyStableSort<T(!new)>(cmp: Order<T>, out: seq<T>, s: seq<T>)
    requires TotalPreorder(cmp)
    ensures StableSortOf(cmp, out, s) <==> out == StableSort(cmp, s)
  {
    StableSortSorts(cmp, s);
    if StableSortOf(cmp, out, s) {
      forall x ensures Ties(cmp, x, out) == Ties(cmp, x, StableSort(cmp, s)) {
        assert Ties(cmp, x, out) == Ties(cmp, x, s);
        assert Ties(cmp, x, StableSort(cmp, s)) == Ties(cmp, x, s);
      }
      StableSortUnique(cmp, out, StableSort(cmp, s));
    }
  }

  // ---------- filters and sorting commute ----------

  lemma {:induction false} FiltersCommute<T>(p: T -> bool, q: T -> bool, s: seq<T>)
    ensures Filter(p, Filter(q, s)) == Filter(q, Filter(p, s))
  {
    if s == [] {
    } else {
      FiltersCommute(p, q, s[1..]);
      assert p(s[0]) ==> ([s[0]] + Filter(p, s[1..]))[1..] == Filter(p, s[1..]);
      assert q(s[0]) ==> ([s[0]] + Filter(q, s[1..]))[1..] == Filter(q, s[1..]);
    }
  }

  lemma {:induction false} FilterStaysSorted<T(!new)>(cmp: Order<T>, p: T -> bool, s: seq<T>)
    requires Sorted(cmp, s)
    ensures Sorted(cmp, Filter(p, s))
  {
    if s == [] {
    } else {
      FilterStaysSorted(cmp, p, s[1..]);
      var r := Filter(p, s[1..]);
      forall j | 0 <= j < |r| ensures cmp(s[0], r[j]) <= 0 {
        FilterElements(p, s[1..], r[j]);
        assert r[j] in s[1..];
      }
    }
  }

  /** Sorting before filtering would give the same rows. */
  lemma SortThenFilter<T(!new)>(cmp: Order<T>, p: T -> bool, s: seq<T>)
    requires TotalPreorder(cmp)
    ensures Filter(p, StableSort(cmp, s)) == StableSort(cmp, Filter(p, s))
  {
    StableSortSorts(cmp, s);
    FilterStaysSorted(cmp, p, StableSort(cmp, s));
    forall x ensures Ties(cmp, x, Filter(p, StableSort(cmp, s))) == Ties(cmp, x, Filter(p, s)) {
      FiltersCommute(y => cmp(x, y) == 0, p, StableSort(cmp, s));
      FiltersCommute(y => cmp(x, y) == 0, p, s);
      assert Ties(cmp, x, StableSort(cmp, s)) == Ties(cmp, x, s);
    }
    AnyStableSort(cmp, Filter(p, StableSort(cmp, s)), Filter(p, s));
  }

  /** The order of `Where` calls does not matter: `perm` lists every filter. */
  lemma WhereOrderIrrelevant<T>(wheres: seq<T -> bool>, perm: seq<nat>, s: seq<T>)
    requires forall i :: 0 <= i < |perm| ==> perm[i] < |wheres|
    requires forall k :: 0 <= k < |wheres| ==> k in perm
    ensures Matching(seq(|perm|, i requires 0 <= i < |perm| => wheres[perm[i]]), s) == Matching(wheres, s)
  {
    var shuffled := seq(|perm|, i requires 0 <= i < |perm| => wheres[perm[i]]);
    forall n | 0 <= n < |s| ensures Keep(shuffled, s[n]) == Keep(wheres, s[n]) {
      if Keep(shuffled, s[n]) {
        forall k | 0 <= k < |wheres| ensures wheres[k](s[n]) {
          assert k in perm;
          var i :| 0 <= i < |perm| && perm[i] == k;
          assert shuffled[i](s[n]);
        }
      }
    }
    FilterSame(x => Keep(shuffled, x), x => Keep(wheres, x), s);
  }

  /** Where p then q keeps what one filter asking for both keeps. */
  lemma {:induction false} WhereAnds<T>(wheres: seq<T -> bool>, p: T -> bool, s: seq<T>)
    ensures Matching(wheres + [p], s) == Filter(p, Matching(wheres, s))
  {
    if s == [] {
    } else {
      WhereAnds(wheres, p, s[1..]);
      var x := s[0];
      assert Keep(wheres + [p], x) <==> Keep(wheres, x) && p(x) by {
        assert (wheres + [p])[|wheres|] == p;
        assert forall i :: 0 <= i < |wheres| ==> (wheres + [p])[i] == wheres[i];
      }
      assert Keep(wheres, x) ==> ([x] + Matching(wheres, s[1..]))[1..] == Matching(wheres, s[1..]);
    }
  }

  // ---------- pages ----------

  function Drop<T>(s: seq<T>, offset: int): seq<T> {
    if offset <= 0 then s else if offset >= |s| then [] else s[offset..]
  }

  function Take<T>(s: seq<T>, limit: int): seq<T> {
    if 0 <= limit < |s| then s[..limit] else s
  }

  function Ordered<T>(order: Option<Order<T>>, s: seq<T>): seq<T> {
    match order case None => s case Some(cmp) => StableSort(cmp, s)
  }

  /** The rows of a query. */
  function Result<T>(rows: seq<T>, wheres: seq<T -> bool>, order: Option<Order<T>>, offset: int, limit: int): seq<T> {
    Take(Drop(Ordered(order, Matching(wheres, rows)), offset), limit)
  }

  // ---------- what a query answers ----------

  /** kept is the rows at the positions `at`, in their order: all the rows that
      pass every filter. */
  ghost predicate Selects<T>(rows: seq<T>, wheres: seq<T -> bool>, kept: seq<T>, at: seq<nat>) {
    && |at| == |kept|
    && (forall i, j :: 0 <= i < j < |at| ==> at[i] < at[j])
    && (forall k :: 0 <= k < |at| ==> at[k] < |rows| && kept[k] == rows[at[k]])
    && (forall i: nat :: i < |rows| ==> (i in at <==> forall w :: 0 <= w < |wheres| ==> wheres[w](rows[i])))
  }

  /** Without an order t is what was kept; with one it is that, stably sorted. A
      comparison that is no total preorder promises nothing. */
  ghost predicate Arranges<T(!new)>(order: Option<Order<T>>, kept: seq<T>, t: seq<T>) {
    match order
    case None => t == kept
    case Some(cmp) => TotalPreorder(cmp) ==> StableSortOf(cmp, t, kept)
  }

  /** out is what is left of t without its first `offset` elements, at most `limit`
      of it; a negative number asks for nothing. */
  ghost predicate Window<T>(t: seq<T>, offset: int, limit: int, out: seq<T>) {
    var from := if offset <= 0 then 0 else if offset <= |t| then offset else |t|;
    var to := if limit < 0 || from + limit > |t| then |t| else from + limit;
    out == t[from..to]
  }

  ghost predicate IsAnswer<T(!new)>(
    rows: seq<T>, wheres: seq<T -> bool>, order: Option<Order<T>>, offset: int, limit: int, out: seq<T>)
  {
    exists kept, at, t :: Selects(rows, wheres, kept, at) && Arranges(order, kept, t) && Window(t, offset, limit, out)
  }

  lemma SelectedExactly<T>(rows: seq<T>, wheres: seq<T -> bool>, kept: seq<T>, at: seq<nat>)
    ensures Selects(rows, wheres, kept, at) <==> KeptInOrder(x => Keep(wheres, x), rows, kept, at)
    ensures Selects(rows, wheres, kept, at) ==> kept == Matching(wheres, rows)
  {
    if Selects(rows, wheres, kept, at) { KeptInOrderIsFilter(x => Keep(wheres, x), rows, kept, at); }
  }

  lemma ArrangedExactly<T(!new)>(order: Option<Order<T>>, kept: seq<T>, t: seq<T>)
    ensures Arranges(order, kept, Ordered(order, kept))
    ensures (order.Some? ==> TotalPreorder(order.value)) && Arranges(order, kept, t) ==> t == Ordered(order, kept)
  {
    if order.Some? && TotalPreorder(order.value) {
      AnyStableSort(order.value, t, kept);
      AnyStableSort(order.value, Ordered(order, kept), kept);
    }
  }

  lemma WindowExactly<T>(t: seq<T>, offset: int, limit: int, out: seq<T>)
    ensures Window(t, offset, limit, out) <==> out == Take(Drop(t, offset), limit)
  {
  }

  lemma ResultIsAnswer<T(!new)>(
    rows: seq<T>, wheres: seq<T -> bool>, order: Option<Order<T>>, offset: int, limit: int)
    ensures IsAnswer(rows, wheres, order, offset, limit, Result(rows, wheres, order, offset, limit))
  {
    var kept := Matching(wheres, rows);
    var t := Ordered(order, kept);
    var at := FilterKeepsOrder(x => Keep(wheres, x), rows);
    SelectedExactly(rows, wheres, kept, at);
    ArrangedExactly(order, kept, t);
    WindowExactly(t, offset, limit, Result(rows, wheres, order, offset, limit));
  }

  /** A query has one answer, unless its comparison is no total preorder. */
  lemma AnswerExactly<T(!new)>(
    rows: seq<T>, wheres: seq<T -> bool>, order: Option<Order<T>>, offset: int, limit: int, out: seq<T>)
    requires order.Some? ==> TotalPreorder(order.value)
    ensures IsAnswer(rows, wheres, order, offset, limit, out) <==> out == Result(rows, wheres, order, offset, limit)
  {
    ResultIsAnswer(rows, wheres, order, offset, limit);
    if IsAnswer(rows, wheres, order, offset, limit, out) {
      var kept, at, t :| Selects(rows, wheres, kept, at) && Arranges(order, kept, t) && Window(t, offset, limit, out);
      SelectedExactly(rows, wheres, kept, at);
      ArrangedExactly(order, kept, t);
      WindowExactly(t, offset, limit, out);
    }
  }

  // ---------- one page after another ----------

  /** The first n pages of the given size, one after another. */
  function Pages<T>(rows: seq<T>, wheres: seq<T -> bool>, order: Option<Order<T>>, size: nat, n: nat): seq<T> {
    if n == 0 then []
    else Pages(rows, wheres, order, size, n - 1) + Result(rows, wheres, order, (n - 1) * size, size)
  }

  lemma {:induction false} PagesAreAPrefix<T>(
    rows: seq<T>, wheres: seq<T -> bool>, order: Option<Order<T>>, size: nat, n: nat)
    requires size > 0
    ensures Pages(rows, wheres, order, size, n) == Take(Result(rows, wheres, order, 0, -1), n * size)
  {
    var whole := Result(rows, wheres, order, 0, -1);
    if n == 0 {
    } else {
      PagesAreAPrefix(rows, wheres, order, size, n - 1);
      Multiply(n, size);
      PageExtends(whole, (n - 1) * size, size);
    }
  }

  lemma Multiply(n: nat, size: nat)
    requires n > 0
    ensures 0 <= (n - 1) * size && n * size == (n - 1) * size + size
  {
  }

  lemma PageExtends<T>(s: seq<T>, from: nat, size: nat)
    ensures Take(s, from) + Take(Drop(s, from), size) == Take(s, from + size)
  {
  }

  /** For any positive page size, enough consecutive pages are the unpaged result. */
  lemma PagesConcatenate<T>(rows: seq<T>, wheres: seq<T -> bool>, order: Option<Order<T>>, size: nat, n: nat)
    requires size > 0 && n * size >= |Result(rows, wheres, order, 0, -1)|
    ensures Pages(rows, wheres, order, size, n) == Result(rows, wheres, order, 0, -1)
  {
    PagesAreAPrefix(rows, wheres, order, size, n);
  }

  // ---------- the builder ----------

  lemma InsertFrom<T>(cmp: Order<T>, x: T, s: seq<T>, at: nat)
    requires at <= |s|
    ensures if at < |s| && cmp(x, s[at]) > 0
            then s[..at] + Insert(cmp, x, s[at..]) == s[..at + 1] + Insert(cmp, x, s[at + 1..])
            else s[..at] + Insert(cmp, x, s[at..]) == s[..at] + ([x] + s[at..])
  {
    if at < |s| && cmp(x, s[at]) > 0 {
      assert s[at..][1..] == s[at + 1..];
      assert s[..at + 1] == s[..at] + [s[at]];
    }
  }

  /** `slices.SortStableFunc`, by insertion from the right. */
  method SortStableFunc<T>(s: seq<T>, cmp: Order<T>) returns (out: seq<T>)
    ensures out == StableSort(cmp, s)
  {
    out := [];
    var i := |s|;
    while i > 0
      invariant 0 <= i <= |s| && out == StableSort(cmp, s[i..])
    {
      i := i - 1;
      assert s[i..][1..] == s[i + 1..];
      var at: nat := 0;
      while at < |out| && cmp(s[i], out[at]) > 0
        invariant at <= |out|
        invariant Insert(cmp, s[i], out) == out[..at] + Insert(cmp, s[i], out[at..])
      {
        InsertFrom(cmp, s[i], out, at);
        at := at + 1;
      }
      InsertFrom(cmp, s[i], out, at);
      out := out[..at] + ([s[i]] + out[at..]);
    }
    assert s[0..] == s;
  }

  class Query<T(!new)> {
    var rows: seq<T>
    var wheres: seq<T -> bool>
    var order: Option<Order<T>>
    var limit: int
    var offset: int

    /** `DB.Query` on a snapshot of the rows. */
    constructor (rows: seq<T>)
      ensures this.rows == rows && wheres == [] && order == None && limit == -1 && offset == 0
    {
      this.rows := rows;
      wheres := [];
      order := None;
      limit := -1;
      offset := 0;
    }

    method Where(keep: T -> bool)
      modifies `wheres
      ensures wheres == old(wheres) + [keep]
    {
      wheres := wheres + [keep];
    }

    method OrderBy(cmp: Order<T>)
      modifies `order
      ensures order == Some(cmp)
    {
      order := Some(cmp);
    }

    method Limit(n: int)
      modifies `limit
      ensures limit == n
    {
      limit := n;
    }

    method Offset(n: int)
      modifies `offset
      ensures offset == n
    {
      offset := n;
    }

    method Keeps(value: T) returns (r: bool)
      ensures r <==> forall i :: 0 <= i < |wheres| ==> wheres[i](value)
    {
      for i := 0 to |wheres|
        invariant forall k :: 0 <= k < i ==> wheres[k](value)
      {
        if !wheres[i](value) {
          return false;
        }
      }
      return true;
    }

    method Rows() returns (out: seq<T>)
      ensures out == Result(rows, wheres, order, offset, limit)
      ensures IsAnswer(rows, wheres, order, offset, limit, out)
    {
      assert IsAnswer(rows, wheres, order, offset, limit, Result(rows, wheres, order, offset, limit)) by {
        ResultIsAnswer(rows, wheres, order, offset, limit);
      }
      out := [];
      for i := 0 to |rows|
        invariant out == Matching(wheres, rows[..i])
      {
        var keep := Keeps(rows[i]);
        MatchingStep(wheres, rows, i);
        if keep {
          out := out + [rows[i]];
        }
      }
      assert rows[..|rows|] == rows;
      if order.Some? {
        out := SortStableFunc(out, order.value);
      }
      if offset > 0 {
        if offset >= |out| {
          return [];
        }
        out := out[offset..];
      }
      if limit >= 0 && limit < |out| {
        out := out[..limit];
      }
    }

    /** Sets the limit to one, for good. */
    method First() returns (r: Option<T>)
      modifies `limit
      ensures limit == 1
      ensures exists all ::
        IsAnswer(rows, wheres, order, offset, -1, all) && r == if all == [] then None else Some(all[0])
    {
      ghost var all := Result(rows, wheres, order, offset, -1);
      ResultIsAnswer(rows, wheres, order, offset, -1);
      Limit(1);
      var found := Rows();
      if |found| == 0 {
        return None;
      }
      return Some(found[0]);
    }

    method Count() returns (n: nat)
      ensures exists all :: IsAnswer(rows, wheres, order, offset, limit, all) && n == |all|
    {
      var found := Rows();
      return |found|;
    }
  }
}
