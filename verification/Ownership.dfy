/** Who holds which backing array and map: a heap in which each is held in one
    place only. */
module Ownership {
  import opened Values

  /** The backing arrays and maps a value holds itself. */
  ghost function Storage(v: Value): set<Addr> {
    set x | x in Refs(v) && !x.Ptr? :: x.a
  }

  ghost predicate Apart(vs: seq<Value>) {
    forall i, j :: 0 <= i < j < |vs| ==> Storage(vs[i]) !! Storage(vs[j])
  }

  /** No backing array and no map is held twice inside v. */
  ghost predicate Unshared(v: Value) {
    match v
    case Struct(_, fs) => Apart(fs) && forall i :: 0 <= i < |fs| ==> Unshared(fs[i])
    case Array(_, es) => Apart(es) && forall i :: 0 <= i < |es| ==> Unshared(es[i])
    case Iface(d) => Unshared(d)
    case _ => true
  }

  /** The values an object holds; of a table first the keys, then the values. */
  function Parts(o: Object): (vs: seq<Value>) {
    match o
    case Cell(v) => [v]
    case Backing(elems) => elems
    case Table(es) =>
      seq(|es|, i requires 0 <= i < |es| => es[i].key) + seq(|es|, i requires 0 <= i < |es| => es[i].val)
  }

  ghost predicate UnsharedParts(vs: seq<Value>) {
    Apart(vs) && forall i :: 0 <= i < |vs| ==> Unshared(vs[i])
  }

  ghost function ObjectStorage(o: Object): set<Addr> {
    set i, a | 0 <= i < |Parts(o)| && a in Storage(Parts(o)[i]) :: a
  }

  /** From address lo on, and counting w, each backing array and map is held in
      one place at most. */
  ghost predicate Exclusive(h: seq<Object>, lo: nat, w: Value) {
    && Unshared(w)
    && (forall o :: lo <= o < |h| ==> UnsharedParts(Parts(h[o])) && ObjectStorage(h[o]) !! Storage(w))
    && (forall o, o' :: lo <= o < o' < |h| ==> ObjectStorage(h[o]) !! ObjectStorage(h[o']))
  }

  /** Map keys are compared, so they hold no slices and no maps. */
  lemma {:induction false} KeysHoldPointersOnly(k: Value, x: Value)
    requires Comparable(k) && x in Refs(k)
    ensures x.Ptr?
  {
    match k
    case Struct(_, fs) =>
      var i :| 0 <= i < |fs| && x in Refs(fs[i]);
      KeysHoldPointersOnly(fs[i], x);
    case Array(_, es) =>
      var i :| 0 <= i < |es| && x in Refs(es[i]);
      KeysHoldPointersOnly(es[i], x);
    case Iface(d) => KeysHoldPointersOnly(d, x);
    case _ =>
  }

  lemma KeysHoldNoStorage(k: Value)
    requires Comparable(k)
    ensures Storage(k) == {} && Unshared(k)
  {
    forall x | x in Refs(k) ensures x.Ptr? { KeysHoldPointersOnly(k, x); }
    NoStorageUnshared(k);
  }

  lemma PlainIsUnshared(v: Value)
    requires Refs(v) == {}
    ensures Storage(v) == {} && Unshared(v)
  {
    NoStorageUnshared(v);
  }

  lemma {:induction false} NoStorageUnshared(v: Value)
    requires Storage(v) == {}
    ensures Unshared(v)
  {
    match v
    case Struct(_, fs) =>
      forall i | 0 <= i < |fs| ensures Storage(fs[i]) == {} && Unshared(fs[i]) {
        FieldStorage(v, i);
        NoStorageUnshared(fs[i]);
      }
    case Array(_, es) =>
      forall i | 0 <= i < |es| ensures Storage(es[i]) == {} && Unshared(es[i]) {
        FieldStorage(v, i);
        NoStorageUnshared(es[i]);
      }
    case Iface(d) =>
      assert Storage(d) == Storage(v);
      NoStorageUnshared(d);
    case _ =>
  }

  lemma FieldStorage(v: Value, i: nat)
    requires (v.Struct? && i < |v.fields|) || (v.Array? && i < |v.elems|)
    ensures Storage(if v.Struct? then v.fields[i] else v.elems[i]) <= Storage(v)
  {
    var f := if v.Struct? then v.fields[i] else v.elems[i];
    forall x | x in Refs(f) ensures x in Refs(v) {}
  }
}
