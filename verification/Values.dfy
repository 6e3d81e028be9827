/** Go values as reflection sees them: each value carries enough of its dynamic
    type to answer the questions `needsSnapshot` and `fixIndirections` ask. */
module Values {
  type Addr = nat
  type TypeId = nat

  /** Pointer, slice and map types are names: their element types may be recursive.
      Opaque types are channels and functions. */
  datatype Ty =
    | ScalarTy
    | OpaqueTy
    | PtrTy(id: TypeId)
    | SliceTy(id: TypeId)
    | MapTy(id: TypeId)
    | IfaceTy
    | StructTy(id: TypeId, fields: seq<Ty>)
    | ArrayTy(len: nat, elem: Ty)

  datatype Value =
    | Scalar(n: int)
    | Opaque(id: nat)
    | Nil(ty: Ty)
    | Ptr(t: TypeId, a: Addr)
    | Slice(t: TypeId, a: Addr, off: nat, len: nat, cap: nat)
    | Map(t: TypeId, a: Addr)
    | Struct(t: TypeId, fields: seq<Value>)
    | Array(elem: Ty, elems: seq<Value>)
    | Iface(dyn: Value)

  datatype Entry = Entry(key: Value, val: Value)

  /** A heap object: a variable some pointer may reach, the backing array of
      slices, or a map. The order of a table's entries is the order in which
      one iteration over the map visits them. */
  datatype Object =
    | Cell(v: Value)
    | Backing(elems: seq<Value>)
    | Table(entries: seq<Entry>)

  function TypeOf(v: Value): Ty {
    match v
    case Scalar(_) => ScalarTy
    case Opaque(_) => OpaqueTy
    case Nil(ty) => ty
    case Ptr(t, _) => PtrTy(t)
    case Slice(t, _, _, _, _) => SliceTy(t)
    case Map(t, _) => MapTy(t)
    case Struct(t, fs) => StructTy(t, seq(|fs|, i requires 0 <= i < |fs| => TypeOf(fs[i])))
    case Array(elem, es) => ArrayTy(|es|, elem)
    case Iface(_) => IfaceTy
  }

  /** Array elements have the declared element type, and only the kinds that
      have a nil are nil. */
  ghost predicate WellTyped(v: Value) {
    match v
    case Nil(ty) => ty.PtrTy? || ty.SliceTy? || ty.MapTy? || ty.IfaceTy?
    case Struct(_, fs) => forall i :: 0 <= i < |fs| ==> WellTyped(fs[i])
    case Array(elem, es) => forall i :: 0 <= i < |es| ==> WellTyped(es[i]) && TypeOf(es[i]) == elem
    case Iface(d) => WellTyped(d)
    case _ => true
  }

  predicate IsRef(x: Value) {
    x.Ptr? || x.Slice? || x.Map?
  }

  /** The references a value holds itself, through any nesting of structs,
      arrays and interfaces but without following any of them. */
  ghost function Refs(v: Value): (refs: set<Value>)
    ensures forall x :: x in refs ==> IsRef(x)
  {
    match v
    case Struct(_, fs) => set i, x | 0 <= i < |fs| && x in Refs(fs[i]) :: x
    case Array(_, es) => set i, x | 0 <= i < |es| && x in Refs(es[i]) :: x
    case Iface(d) => Refs(d)
    case _ => if IsRef(v) then {v} else {}
  }

  /** `needsSnapshot`: can a value of this type hold an indirection? */
  predicate NeedsSnapshot(ty: Ty) {
    match ty
    case PtrTy(_) => true
    case SliceTy(_) => true
    case MapTy(_) => true
    case IfaceTy => true
    case StructTy(_, fs) => exists i :: 0 <= i < |fs| && NeedsSnapshot(fs[i])
    case ArrayTy(_, elem) => NeedsSnapshot(elem)
    case _ => false
  }

  function ZeroValue(ty: Ty): Value {
    match ty
    case ScalarTy => Scalar(0)
    case OpaqueTy => Opaque(0)
    case StructTy(t, fs) => Struct(t, seq(|fs|, i requires 0 <= i < |fs| => ZeroValue(fs[i])))
    case ArrayTy(n, elem) => Array(elem, seq(n, _ => ZeroValue(elem)))
    case _ => Nil(ty)
  }

  lemma {:induction false} ZeroValueTyped(ty: Ty)
    ensures WellTyped(ZeroValue(ty)) && TypeOf(ZeroValue(ty)) == ty
  {
    match ty
    case StructTy(_, fs) =>
      forall i | 0 <= i < |fs| ensures WellTyped(ZeroValue(fs[i])) && TypeOf(ZeroValue(fs[i])) == fs[i] {
        ZeroValueTyped(fs[i]);
      }
      assert TypeOf(ZeroValue(ty)).fields == fs;
    case ArrayTy(_, elem) => ZeroValueTyped(elem);
    case _ =>
  }

  /** The type holds an indirection outside every zero-length array. */
  predicate HoldsIndirection(ty: Ty) {
    match ty
    case PtrTy(_) => true
    case SliceTy(_) => true
    case MapTy(_) => true
    case IfaceTy => true
    case StructTy(_, fs) => exists i :: 0 <= i < |fs| && HoldsIndirection(fs[i])
    case ArrayTy(n, elem) => n > 0 && HoldsIndirection(elem)
    case _ => false
  }

  /** Only such a type has a value that holds a reference. */
  lemma {:induction false} ReferenceNeedsIndirection(v: Value)
    requires WellTyped(v) && Refs(v) != {}
    ensures HoldsIndirection(TypeOf(v)) && NeedsSnapshot(TypeOf(v))
  {
    match v
    case Struct(_, fs) =>
      var y :| y in Refs(v);
      var i :| 0 <= i < |fs| && y in Refs(fs[i]);
      ReferenceNeedsIndirection(fs[i]);
      assert TypeOf(v).fields[i] == TypeOf(fs[i]);
    case Array(_, es) =>
      var y :| y in Refs(v);
      var i :| 0 <= i < |es| && y in Refs(es[i]);
      ReferenceNeedsIndirection(es[i]);
    case _ =>
  }

  /** The fast path is sound: a type it rejects holds no reference at any depth. */
  lemma RejectedTypesHoldNoReference(v: Value)
    requires WellTyped(v) && !NeedsSnapshot(TypeOf(v))
    ensures Refs(v) == {}
  {
    if Refs(v) != {} { ReferenceNeedsIndirection(v); }
  }

  lemma StructHolding(t: TypeId, fs: seq<Ty>, i: nat, x: Value) returns (v: Value)
    requires i < |fs| && WellTyped(x) && TypeOf(x) == fs[i] && Refs(x) != {}
    ensures WellTyped(v) && TypeOf(v) == StructTy(t, fs) && Refs(v) != {}
  {
    forall k | 0 <= k < |fs| ensures WellTyped(ZeroValue(fs[k])) && TypeOf(ZeroValue(fs[k])) == fs[k] {
      ZeroValueTyped(fs[k]);
    }
    var vs := seq(|fs|, k requires 0 <= k < |fs| => ZeroValue(fs[k]))[i := x];
    v := Struct(t, vs);
    assert TypeOf(v).fields == fs;
    var y :| y in Refs(x);
    assert y in Refs(vs[i]);
    assert y in Refs(v);
  }

  /** And every such type has one. */
  lemma {:induction false} IndirectionCanHoldReference(ty: Ty) returns (v: Value)
    requires HoldsIndirection(ty)
    ensures WellTyped(v) && TypeOf(v) == ty && Refs(v) != {}
  {
    match ty
    case PtrTy(t) => v := Ptr(t, 0); assert v in Refs(v);
    case SliceTy(t) => v := Slice(t, 0, 0, 0, 0); assert v in Refs(v);
    case MapTy(t) => v := Map(t, 0); assert v in Refs(v);
    case IfaceTy => v := Iface(Ptr(0, 0)); assert Ptr(0, 0) in Refs(v);
    case StructTy(t, fs) =>
      var i :| 0 <= i < |fs| && HoldsIndirection(fs[i]);
      var x := IndirectionCanHoldReference(fs[i]);
      v := StructHolding(t, fs, i, x);
    case ArrayTy(n, elem) =>
      var x := IndirectionCanHoldReference(elem);
      v := Array(elem, seq(n, _ => x));
      var y :| y in Refs(x);
      assert y in Refs(v.elems[0]);
      assert y in Refs(v);
  }

  ghost predicate CanHoldReference(ty: Ty) {
    exists v :: WellTyped(v) && TypeOf(v) == ty && Refs(v) != {}
  }

  lemma CanHoldReferenceExactly(ty: Ty)
    ensures CanHoldReference(ty) <==> HoldsIndirection(ty)
  {
    if HoldsIndirection(ty) {
      var v := IndirectionCanHoldReference(ty);
    }
    if CanHoldReference(ty) {
      var v :| WellTyped(v) && TypeOf(v) == ty && Refs(v) != {};
      ReferenceNeedsIndirection(v);
    }
  }

  /** `needsSnapshot` gives the right answer exactly for the types it rejects and
      those with an indirection outside zero-length arrays. */
  lemma NeedsSnapshotExact(ty: Ty)
    ensures (NeedsSnapshot(ty) <==> CanHoldReference(ty)) <==> (NeedsSnapshot(ty) ==> HoldsIndirection(ty))
  {
    CanHoldReferenceExactly(ty);
    if HoldsIndirection(ty) {
      var v := IndirectionCanHoldReference(ty);
      ReferenceNeedsIndirection(v);
    }
  }

  /** It is over-cautious on a zero-length array of pointers. */
  lemma NeedsSnapshotOvercautious(t: TypeId)
    ensures NeedsSnapshot(ArrayTy(0, PtrTy(t))) && !CanHoldReference(ArrayTy(0, PtrTy(t)))
  {
    CanHoldReferenceExactly(ArrayTy(0, PtrTy(t)));
  }

  /** What Go lets a map key hold: keys are compared, so no slice and no map. */
  ghost predicate Comparable(v: Value) {
    match v
    case Slice(_, _, _, _, _) => false
    case Map(_, _) => false
    case Nil(ty) => !ty.SliceTy? && !ty.MapTy?
    case Struct(_, fs) => forall i :: 0 <= i < |fs| ==> Comparable(fs[i])
    case Array(_, es) => forall i :: 0 <= i < |es| ==> Comparable(es[i])
    case Iface(d) => Comparable(d)
    case _ => true
  }

  ghost predicate DistinctKeys(entries: seq<Entry>) {
    forall i, j :: 0 <= i < j < |entries| ==> entries[i].key != entries[j].key
  }

  /** The object holds v directly. */
  ghost predicate Holds(o: Object, v: Value) {
    match o
    case Cell(x) => v == x
    case Backing(elems) => v in elems
    case Table(entries) => exists i :: 0 <= i < |entries| && (v == entries[i].key || v == entries[i].val)
  }

  /** The keys of a map differ and can be compared. */
  ghost predicate ProperKeys(o: Object) {
    o.Table? ==> DistinctKeys(o.entries) && forall i :: 0 <= i < |o.entries| ==> Comparable(o.entries[i].key)
  }

  /** The memory every component of the model shares: addresses are indices. */
  class Memory {
    var objs: seq<Object>

    constructor ()
      ensures objs == []
    {
      objs := [];
    }

    method Alloc(o: Object) returns (a: Addr)
      modifies this
      ensures a == |old(objs)| && objs == old(objs) + [o]
    {
      a := |objs|;
      objs := objs + [o];
    }

    method Store(a: Addr, o: Object)
      requires a < |objs|
      modifies this
      ensures objs == old(objs)[a := o]
    {
      objs := objs[a := o];
    }
  }
}
