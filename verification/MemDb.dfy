/** The table of memdb/db.go: a map and an order slice that together behave as an
    association list in insertion order. */
module MemDb {
  import opened Options

  datatype Row<+K, +T> = Row(key: K, value: T)

  // ---------- association lists ----------

  function Find<K(==), T>(l: seq<Row<K, T>>, k: K): Option<T> {
    if l == [] then None else if l[0].key == k then Some(l[0].value) else Find(l[1..], k)
  }

  /** Replaces the value of k where it stands, or appends a row. */
  function Put<K(==), T>(l: seq<Row<K, T>>, k: K, v: T): seq<Row<K, T>> {
    if l == [] then [Row(k, v)]
    else if l[0].key == k then [Row(k, v)] + l[1..]
    else [l[0]] + Put(l[1..], k, v)
  }

  function Remove<K(==), T>(l: seq<Row<K, T>>, k: K): seq<Row<K, T>> {
    if l == [] then [] else if l[0].key == k then l[1..] else [l[0]] + Remove(l[1..], k)
  }

  function Keys<K, T>(l: seq<Row<K, T>>): (r: seq<K>)
    ensures |r| == |l|
  {
    seq(|l|, i requires 0 <= i < |l| => l[i].key)
  }

  ghost predicate UniqueKeys<K, T>(l: seq<Row<K, T>>) {
    forall i, j :: 0 <= i < j < |l| ==> l[i].key != l[j].key
  }

  lemma {:induction false} FindAt<K, T>(l: seq<Row<K, T>>, i: nat)
    requires UniqueKeys(l) && i < |l|
    ensures Find(l, l[i].key) == Some(l[i].value)
  {
    if i == 0 {
    } else {
      FindAt(l[1..], i - 1);
    }
  }

  lemma {:induction false} FindNone<K, T>(l: seq<Row<K, T>>, k: K)
    ensures Find(l, k).None? <==> forall i :: 0 <= i < |l| ==> l[i].key != k
  {
    if l == [] {
    } else {
      FindNone(l[1..], k);
    }
  }

  /** Storing under a present key touches that row's value only. */
  lemma {:induction false} PutPresent<K, T>(l: seq<Row<K, T>>, i: nat, v: T)
    requires UniqueKeys(l) && i < |l|
    ensures Put(l, l[i].key, v) == l[i := Row(l[i].key, v)]
  {
    if i == 0 {
    } else {
      PutPresent(l[1..], i - 1, v);
      assert l == [l[0]] + l[1..] && l[1..][i - 1] == l[i];
    }
  }

  lemma {:induction false} PutAbsent<K, T>(l: seq<Row<K, T>>, k: K, v: T)
    requires Find(l, k).None?
    ensures Put(l, k, v) == l + [Row(k, v)]
  {
    if l == [] {
    } else {
      PutAbsent(l[1..], k, v);
    }
  }

  lemma {:induction false} RemoveAt<K, T>(l: seq<Row<K, T>>, i: nat)
    requires UniqueKeys(l) && i < |l|
    ensures Remove(l, l[i].key) == l[..i] + l[i + 1..]
  {
    if i == 0 {
    } else {
      RemoveAt(l[1..], i - 1);
      assert l[..i] == [l[0]] + l[1..][..i - 1];
    }
  }

  lemma {:induction false} RemoveAbsent<K, T>(l: seq<Row<K, T>>, k: K)
    requires Find(l, k).None?
    ensures Remove(l, k) == l
  {
    if l == [] {
    } else {
      RemoveAbsent(l[1..], k);
    }
  }

  // ---------- the table ----------

  /** The rows of a map in the given order. */
  function Listing<K, T>(order: seq<K>, rows: map<K, T>): (l: seq<Row<K, T>>)
    requires forall i :: 0 <= i < |order| ==> order[i] in rows
    ensures |l| == |order| && forall i :: 0 <= i < |l| ==> l[i] == Row(order[i], rows[order[i]])
  {
    seq(|order|, i requires 0 <= i < |order| => Row(order[i], rows[order[i]]))
  }

  class DB<K(==, !new), T> {
    const key: Option<T -> K>
    var rows: map<K, T>
    var order: seq<K>

    /** The order lists every key of the map exactly once. */
    ghost predicate Valid()
      reads this
    {
      && (forall i, j :: 0 <= i < j < |order| ==> order[i] != order[j])
      && (forall k :: k in order <==> k in rows)
    }

    ghost function Contents(): (l: seq<Row<K, T>>)
      requires Valid()
      reads this
      ensures UniqueKeys(l) && Keys(l) == order
    {
      Listing(order, rows)
    }

    lemma ContentsFind(k: K)
      requires Valid()
      ensures Find(Contents(), k) == if k in rows then Some(rows[k]) else None
    {
      if k in rows {
        var i :| 0 <= i < |order| && order[i] == k;
        FindAt(Contents(), i);
      } else {
        forall i | 0 <= i < |order| ensures Contents()[i].key != k { assert order[i] in order; }
        FindNone(Contents(), k);
      }
    }

    /** An empty table; a table with no key function only panics on Insert. */
    constructor (key: Option<T -> K>)
      ensures this.key == key && Valid() && Contents() == []
    {
      this.key := key;
      rows := map[];
      order := [];
    }

    method Set(k: K, value: T)
      requires Valid()
      modifies this
      ensures Valid() && Contents() == Put(old(Contents()), k, value)
    {
      ContentsFind(k);
      ghost var l := Contents();
      if k !in rows {
        PutAbsent(l, k, value);
        order := order + [k];
        rows := rows[k := value];
        assert Contents() == l + [Row(k, value)];
      } else {
        ghost var i :| 0 <= i < |order| && order[i] == k;
        PutPresent(l, i, value);
        rows := rows[k := value];
        assert Contents() == l[i := Row(k, value)];
      }
    }

    /** None is the panic on a table without a key function. */
    method Insert(value: T) returns (r: Option<K>)
      requires Valid()
      modifies this
      ensures Valid()
      ensures if key.None? then r == None && Contents() == old(Contents())
              else r == Some(key.value(value)) && Contents() == Put(old(Contents()), key.value(value), value)
    {
      if key.None? {
        return None;
      }
      var k := key.value(value);
      Set(k, value);
      return Some(k);
    }

    method Get(k: K) returns (r: Option<T>)
      requires Valid()
      ensures r == Find(Contents(), k)
    {
      ContentsFind(k);
      return if k in rows then Some(rows[k]) else None;
    }

    method Update(k: K, update: T -> T) returns (r: Option<T>)
      requires Valid()
      modifies this
      ensures Valid()
      ensures match old(Find(Contents(), k))
              case None => r == None && Contents() == old(Contents())
              case Some(v) => r == Some(update(v)) && Contents() == Put(old(Contents()), k, update(v))
    {
      ContentsFind(k);
      ghost var l := Contents();
      if k !in rows {
        return None;
      }
      var value := update(rows[k]);
      ghost var i :| 0 <= i < |order| && order[i] == k;
      PutPresent(l, i, value);
      rows := rows[k := value];
      assert Contents() == l[i := Row(k, value)];
      return Some(value);
    }

    method Delete(k: K) returns (ok: bool)
      requires Valid()
      modifies this
      ensures Valid() && Contents() == Remove(old(Contents()), k)
      ensures ok == old(Find(Contents(), k)).Some?
    {
      ContentsFind(k);
      ghost var l := Contents();
      if k !in rows {
        RemoveAbsent(l, k);
        return false;
      }
      rows := rows - {k};
      var i := 0;
      while order[i] != k
        invariant i < |order| && order == old(order) && k in order
        invariant forall j :: 0 <= j < i ==> order[j] != k
        decreases |order| - i
      {
        i := i + 1;
      }
      RemoveAt(l, i);
      DeletedOrder(order, i, k);
      DeletedListing(order, old(rows), i);
      order := order[..i] + order[i + 1..];
      return true;
    }

    method Len() returns (n: nat)
      requires Valid()
      ensures n == |Contents()|
    {
      SameSize(order, rows.Keys);
      return |rows|;
    }

    method All() returns (out: seq<T>)
      requires Valid()
      ensures |out| == |Contents()| && forall i :: 0 <= i < |out| ==> out[i] == Contents()[i].value
    {
      out := [];
      for i := 0 to |order|
        invariant |out| == i && forall k :: 0 <= k < i ==> out[k] == rows[order[k]]
      {
        assert order[i] in order;
        out := out + [rows[order[i]]];
      }
    }
  }

  lemma DeletedOrder<K(!new)>(order: seq<K>, i: nat, k: K)
    requires i < |order| && order[i] == k && forall a, b :: 0 <= a < b < |order| ==> order[a] != order[b]
    ensures var r := order[..i] + order[i + 1..];
      && (forall a, b :: 0 <= a < b < |r| ==> r[a] != r[b])
      && (forall x :: x in r <==> x in order && x != k)
  {
    var r := order[..i] + order[i + 1..];
    forall x | x in order && x != k ensures x in r {
      var a :| 0 <= a < |order| && order[a] == x;
      assert r[if a < i then a else a - 1] == x;
    }
  }

  lemma DeletedListing<K, T>(order: seq<K>, rows: map<K, T>, i: nat)
    requires i < |order| && forall a, b :: 0 <= a < b < |order| ==> order[a] != order[b]
    requires forall a :: 0 <= a < |order| ==> order[a] in rows
    ensures forall a :: 0 <= a < |order| && a != i ==> order[a] in rows - {order[i]}
    ensures Listing(order[..i] + order[i + 1..], rows - {order[i]}) ==
            Listing(order, rows)[..i] + Listing(order, rows)[i + 1..]
  {
  }

  lemma {:induction false} SameSize<K(!new)>(s: seq<K>, keys: set<K>)
    requires forall i, j :: 0 <= i < j < |s| ==> s[i] != s[j]
    requires forall k :: k in s <==> k in keys
    ensures |s| == |keys|
  {
    if s == [] {
      assert keys == {};
    } else {
      assert s[0] in s;
      forall k ensures k in s[1..] <==> k in keys - {s[0]} {
        if k in keys - {s[0]} {
          var i :| 0 <= i < |s| && s[i] == k;
          assert s[1..][i - 1] == k;
        }
      }
      SameSize(s[1..], keys - {s[0]});
    }
  }

  /** `New`: a table seeded by inserting the values one after another. */
  method New<K(==, !new), T>(key: T -> K, seed: seq<T>) returns (db: DB<K, T>)
    ensures fresh(db) && db.Valid() && db.key == Some(key)
    ensures db.Contents() == Run(Inserts(key, seed))
  {
    db := new DB(Some(key));
    for i := 0 to |seed|
      invariant fresh(db) && db.Valid() && db.key == Some(key)
      invariant db.Contents() == Run(Inserts(key, seed[..i]))
    {
      var k := db.Insert(seed[i]);
      assert Inserts(key, seed[..i + 1])[..i] == Inserts(key, seed[..i]);
    }
    assert seed[..|seed|] == seed;
  }

  // ---------- runs of operations ----------

  /** Insert and Set are both Store. */
  datatype Op<K, !T> = Store(k: K, v: T) | Change(k: K, update: T -> T) | Drop(k: K)

  function Apply<K(==), T>(op: Op<K, T>, l: seq<Row<K, T>>): seq<Row<K, T>> {
    match op
    case Store(k, v) => Put(l, k, v)
    case Change(k, update) => (match Find(l, k) case None => l case Some(v) => Put(l, k, update(v)))
    case Drop(k) => Remove(l, k)
  }

  /** The list after a run on an empty table. */
  function Run<K(==), T>(ops: seq<Op<K, T>>): seq<Row<K, T>> {
    if ops == [] then [] else Apply(ops[|ops| - 1], Run(ops[..|ops| - 1]))
  }

  function Inserts<K, T>(key: T -> K, seed: seq<T>): (r: seq<Op<K, T>>)
    ensures |r| == |seed|
  {
    seq(|seed|, i requires 0 <= i < |seed| => Store(key(seed[i]), seed[i]))
  }

  /** What the last writes to k left, without looking at any list. */
  function LastWrite<K(==), T>(ops: seq<Op<K, T>>, k: K): Option<T> {
    if ops == [] then None
    else
      var before := LastWrite(ops[..|ops| - 1], k);
      match ops[|ops| - 1]
      case Store(x, v) => if x == k then Some(v) else before
      case Change(x, update) => if x == k && before.Some? then Some(update(before.value)) else before
      case Drop(x) => if x == k then None else before
  }

  /** The step at which k was stored while absent, if it has not been dropped since. */
  function Born<K(==), T>(ops: seq<Op<K, T>>, k: K): Option<nat> {
    if ops == [] then None
    else
      var before := Born(ops[..|ops| - 1], k);
      match ops[|ops| - 1]
      case Store(x, _) => if x == k && before.None? then Some(|ops| - 1) else before
      case Change(_, _) => before
      case Drop(x) => if x == k then None else before
  }

  lemma {:induction false} BornIsWritten<K, T>(ops: seq<Op<K, T>>, k: K)
    ensures Born(ops, k).Some? <==> LastWrite(ops, k).Some?
    ensures Born(ops, k).Some? ==> Born(ops, k).value < |ops|
  {
    if ops == [] {
    } else {
      BornIsWritten(ops[..|ops| - 1], k);
    }
  }

  /** Upserting keeps every row in its place; a new key goes last. */
  lemma PutKeys<K, T>(l: seq<Row<K, T>>, k: K, v: T)
    requires UniqueKeys(l)
    ensures Keys(Put(l, k, v)) == if Find(l, k).Some? then Keys(l) else Keys(l) + [k]
    ensures Find(l, k).None? ==> k !in Keys(l)
  {
    FindNone(l, k);
    if Find(l, k).None? {
      PutAbsent(l, k, v);
    } else {
      var i :| 0 <= i < |l| && l[i].key == k;
      PutPresent(l, i, v);
    }
  }

  lemma KeysUnique<K, T>(l: seq<Row<K, T>>)
    ensures UniqueKeys(l) <==> forall i, j :: 0 <= i < j < |l| ==> Keys(l)[i] != Keys(l)[j]
  {
    if forall i, j :: 0 <= i < j < |l| ==> Keys(l)[i] != Keys(l)[j] {
      forall i, j | 0 <= i < j < |l| ensures l[i].key != l[j].key { assert Keys(l)[i] != Keys(l)[j]; }
    }
  }

  lemma PutKeeps<K(!new), T>(l: seq<Row<K, T>>, k: K, v: T)
    requires UniqueKeys(l)
    ensures UniqueKeys(Put(l, k, v))
    ensures forall x :: Find(Put(l, k, v), x) == if x == k then Some(v) else Find(l, x)
    ensures Keys(Put(l, k, v)) == if Find(l, k).Some? then Keys(l) else Keys(l) + [k]
  {
    PutKeys(l, k, v);
    KeysUnique(l);
    KeysUnique(Put(l, k, v));
    forall x ensures Find(Put(l, k, v), x) == if x == k then Some(v) else Find(l, x) {
      FindAfterPut(l, k, v, x);
    }
  }

  lemma {:induction false} FindAfterPut<K, T>(l: seq<Row<K, T>>, k: K, v: T, x: K)
    ensures Find(Put(l, k, v), x) == if x == k then Some(v) else Find(l, x)
  {
    if l == [] {
    } else {
      FindAfterPut(l[1..], k, v, x);
    }
  }

  lemma RemoveUnique<K, T>(l: seq<Row<K, T>>, k: K)
    requires UniqueKeys(l)
    ensures UniqueKeys(Remove(l, k))
  {
    FindNone(l, k);
    if Find(l, k).None? {
      RemoveAbsent(l, k);
    } else {
      var n :| 0 <= n < |l| && l[n].key == k;
      RemoveAt(l, n);
    }
  }

  lemma RemoveKeeps<K(!new), T>(l: seq<Row<K, T>>, k: K)
    requires UniqueKeys(l)
    ensures UniqueKeys(Remove(l, k))
    ensures forall x :: Find(Remove(l, k), x) == if x == k then None else Find(l, x)
  {
    RemoveUnique(l, k);
    forall x ensures Find(Remove(l, k), x) == if x == k then None else Find(l, x) {
      FindAfterRemove(l, k, x);
    }
  }

  lemma {:induction false} FindAfterRemove<K, T>(l: seq<Row<K, T>>, k: K, x: K)
    requires UniqueKeys(l)
    ensures Find(Remove(l, k), x) == if x == k then None else Find(l, x)
  {
    if l == [] {
    } else if l[0].key == k {
      FindNone(l[1..], k);
    } else {
      FindAfterRemove(l[1..], k, x);
    }
  }

  ghost predicate InBirthOrder<K, T>(ops: seq<Op<K, T>>, l: seq<Row<K, T>>) {
    && (forall i :: 0 <= i < |l| ==> Born(ops, l[i].key).Some?)
    && (forall i, j :: 0 <= i < j < |l| ==> Born(ops, l[i].key).value < Born(ops, l[j].key).value)
  }

  /** After any run: no key twice, every key maps to its last write, and the rows
      stand in the order in which their keys were stored while absent. */
  lemma {:induction false} RunRefines<K(!new), T>(ops: seq<Op<K, T>>)
    ensures UniqueKeys(Run(ops))
    ensures forall k :: Find(Run(ops), k) == LastWrite(ops, k)
    ensures InBirthOrder(ops, Run(ops))
  {
    if ops == [] {
    } else {
      var front, op := ops[..|ops| - 1], ops[|ops| - 1];
      var l := Run(front);
      RunRefines(front);
      match op
      case Store(k, v) =>
        PutKeeps(l, k, v);
        StoredInBirthOrder(ops, l, k, v);
      case Change(k, update) =>
        if Find(l, k).Some? {
          var v := update(Find(l, k).value);
          PutKeeps(l, k, v);
          StoredInBirthOrder(ops, l, k, v);
        }
      case Drop(k) =>
        RemoveKeeps(l, k);
        DroppedInBirthOrder(ops, l, k);
    }
  }

  lemma StoredInBirthOrder<K(!new), T>(ops: seq<Op<K, T>>, l: seq<Row<K, T>>, k: K, v: T)
    requires ops != [] && !ops[|ops| - 1].Drop? && ops[|ops| - 1].k == k
    requires ops[|ops| - 1].Store? || Find(l, k).Some?
    requires UniqueKeys(l) && InBirthOrder(ops[..|ops| - 1], l)
    requires forall x :: Find(l, x) == LastWrite(ops[..|ops| - 1], x)
    ensures InBirthOrder(ops, Put(l, k, v))
  {
    var front := ops[..|ops| - 1];
    BornIsWritten(front, k);
    FindNone(l, k);
    forall i | 0 <= i < |l|
      ensures Born(ops, l[i].key) == Born(front, l[i].key) && Born(front, l[i].key).value < |front|
    {
      BornIsWritten(front, l[i].key);
    }
    if Find(l, k).None? {
      PutAbsent(l, k, v);
    } else {
      var i :| 0 <= i < |l| && l[i].key == k;
      PutPresent(l, i, v);
    }
  }

  lemma {:induction false} BirthOrderWithout<K, T>(ops: seq<Op<K, T>>, l: seq<Row<K, T>>, n: nat)
    requires n < |l| && InBirthOrder(ops, l)
    ensures InBirthOrder(ops, l[..n] + l[n + 1..])
  {
    var r := l[..n] + l[n + 1..];
    forall i, j | 0 <= i < j < |r| ensures Born(ops, r[i].key).value < Born(ops, r[j].key).value {
      var a, b := if i < n then i else i + 1, if j < n then j else j + 1;
      assert r[i] == l[a] && r[j] == l[b];
    }
  }

  lemma {:induction false} BirthOrderAfterDrop<K, T>(ops: seq<Op<K, T>>, r: seq<Row<K, T>>, k: K)
    requires ops != [] && ops[|ops| - 1] == Drop(k) && InBirthOrder(ops[..|ops| - 1], r)
    requires forall i :: 0 <= i < |r| ==> r[i].key != k
    ensures InBirthOrder(ops, r)
  {
    forall i | 0 <= i < |r| ensures Born(ops, r[i].key) == Born(ops[..|ops| - 1], r[i].key) {}
  }

  lemma {:induction false} DroppedInBirthOrder<K, T>(ops: seq<Op<K, T>>, l: seq<Row<K, T>>, k: K)
    requires ops != [] && ops[|ops| - 1] == Drop(k)
    requires UniqueKeys(l) && InBirthOrder(ops[..|ops| - 1], l)
    ensures InBirthOrder(ops, Remove(l, k))
  {
    FindNone(l, k);
    if Find(l, k).None? {
      RemoveAbsent(l, k);
    } else {
      var n :| 0 <= n < |l| && l[n].key == k;
      RemoveAt(l, n);
      BirthOrderWithout(ops[..|ops| - 1], l, n);
    }
    FindAfterRemove(l, k, k);
    FindNone(Remove(l, k), k);
    BirthOrderAfterDrop(ops, Remove(l, k), k);
  }

  /** Dropping a key and storing it again moves it to the end. */
  lemma ReinsertMovesToEnd<K(!new), T>(l: seq<Row<K, T>>, k: K, v: T)
    requires UniqueKeys(l)
    ensures Put(Remove(l, k), k, v) == Remove(l, k) + [Row(k, v)]
  {
    RemoveKeeps(l, k);
    PutAbsent(Remove(l, k), k, v);
  }
}
