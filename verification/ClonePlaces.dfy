/** Where in a clone a walk ends: the object it last entered, the slot of that
    object, and the position inside the slot. */
module ClonePlaces {
  import opened Options
  import opened Values
  import opened Ownership
  import opened Cloning
  import opened Positions

  /** One act of cloning. */
  datatype Copy = Copy(
    src: seq<Object>, dst: seq<Object>, origin: Origins, pins: Pins, region: set<Value>, v: Value, w: Value)

  ghost predicate IsCopy(c: Copy) {
    && IsClone(c.src, c.dst, c.origin, c.pins, c.v, c.w)
    && Region(c.src, c.pins, c.region) && HeldIn(c.src, c.pins, c.region, c.v)
  }

  /** Where a path through the clone ends. */
  function End(c: Copy, p: Path): Option<Value> {
    Walk(c.dst, c.pins, c.w, p)
  }

  /** Where a step through a reference ends among the parts of the object. */
  function Slot(o: Object, s: Step): nat {
    match s
    case Deref => 0
    case Index(i) => i
    case EntryKey(i) => i
    case EntryValue(i) => if o.Table? then |o.entries| + i else 0
    case _ => 0
  }

  /** References met in a clone are to new objects, each of one kind and type. */
  lemma EndIsNew(c: Copy, p: Path)
    requires IsCopy(c) && End(c, p).Some? && IsRef(End(c, p).value) && !Pinned(c.pins, End(c, p).value)
    ensures var x := End(c, p).value;
      && |c.src| <= x.a < |c.dst| && x.a in c.origin
      && (x.Ptr? ==> c.dst[x.a].Cell? && c.origin[x.a].Ptr? && c.origin[x.a].t == x.t)
      && (x.Slice? ==> c.dst[x.a].Backing? && x.off == 0 && x.cap == x.len)
      && (x.Map? ==> c.dst[x.a].Table?)
  {
    WalkTogether(c.src, c.dst, c.origin, c.pins, c.region, c.v, c.w, p);
    var x := End(c, p).value;
    assert Finished(c.src, c.dst, c.origin, c.pins, x.a);
  }

  /** The value at the end of p leads through a reference on by step s. */
  ghost predicate Hops(c: Copy, p: Path, s: Step) {
    End(c, p).Some? && IsRef(End(c, p).value) && Take(c.dst, c.pins, End(c, p).value, s).Some?
  }

  ghost function Entered(c: Copy, p: Path, s: Step): Object
    requires Hops(c, p, s)
  {
    c.dst[End(c, p).value.a]
  }

  ghost function Next(c: Copy, p: Path, s: Step): Value
    requires Hops(c, p, s)
  {
    Take(c.dst, c.pins, End(c, p).value, s).value
  }

  lemma SlotHolds(h: seq<Object>, pins: Pins, x: Value, s: Step)
    requires IsRef(x) && Take(h, pins, x, s).Some? && (x.Slice? ==> x.off == 0)
    ensures x.a < |h| && Slot(h[x.a], s) < |Parts(h[x.a])|
    ensures Parts(h[x.a])[Slot(h[x.a], s)] == Take(h, pins, x, s).value
  {
  }

  lemma StepIntoObject(c: Copy, p: Path, s: Step)
    requires IsCopy(c) && Hops(c, p, s)
    ensures var o := Entered(c, p, s); Slot(o, s) < |Parts(o)| && Parts(o)[Slot(o, s)] == Next(c, p, s)
  {
    EndIsNew(c, p);
    SlotHolds(c.dst, c.pins, End(c, p).value, s);
  }

  /** The object the path last entered holds its end. */
  lemma HeldByObject(c: Copy, p: Path, s: Step, r: Path)
    requires IsCopy(c) && Hops(c, p, s)
    requires Part(Next(c, p, s), r).Some? && IsStorage(Part(Next(c, p, s), r).value)
    ensures Part(Next(c, p, s), r).value.a in Storage(Next(c, p, s))
    ensures Part(Next(c, p, s), r).value.a in ObjectStorage(Entered(c, p, s))
  {
    StepIntoObject(c, p, s);
    PartInStorage(Next(c, p, s), r);
  }

  lemma ObjectsApart(c: Copy, o: Addr, o': Addr, a: Addr)
    requires IsCopy(c) && |c.src| <= o < |c.dst| && |c.src| <= o' < |c.dst|
    requires a in ObjectStorage(c.dst[o]) && a in ObjectStorage(c.dst[o'])
    ensures o == o' && UnsharedParts(Parts(c.dst[o])) && a !in Storage(c.w)
  {
  }

  /** Two slots of an object hold different backing arrays and maps. */
  lemma OneSlot(o: Object, i: nat, j: nat, r: Path, r': Path)
    requires UnsharedParts(Parts(o)) && i < |Parts(o)| && j < |Parts(o)|
    requires SameEnd(Parts(o)[i], r, Parts(o)[j], r')
    ensures i == j && r == r'
  {
    PartInStorage(Parts(o)[i], r);
    PartInStorage(Parts(o)[j], r');
    OnePosition(Parts(o)[i], r, r');
  }

  lemma SlotsApart(c: Copy, p: Path, s: Step, q: Path, s': Step)
    requires IsCopy(c) && Hops(c, p, s) && Hops(c, q, s')
    requires End(c, p).value.a == End(c, q).value.a && Slot(Entered(c, p, s), s) == Slot(Entered(c, p, s), s')
    ensures s == s'
  {
    EndIsNew(c, p);
    EndIsNew(c, q);
  }

  /** Paths that end in one backing array or map last entered one object, by the
      same step, and are the same from there on. */
  lemma LastHopsAgree(c: Copy, p: Path, s: Step, q: Path, s': Step, r: Path, r': Path)
    requires IsCopy(c) && Hops(c, p, s) && Hops(c, q, s') && SameEnd(Next(c, p, s), r, Next(c, q, s'), r')
    ensures End(c, p).value.a == End(c, q).value.a && s == s' && r == r'
  {
    HeldByObject(c, p, s, r);
    HeldByObject(c, q, s', r');
    EndIsNew(c, p);
    EndIsNew(c, q);
    ObjectsApart(c, End(c, p).value.a, End(c, q).value.a, Part(Next(c, p, s), r).value.a);
    StepIntoObject(c, p, s);
    StepIntoObject(c, q, s');
    OneSlot(Entered(c, p, s), Slot(Entered(c, p, s), s), Slot(Entered(c, p, s), s'), r, r');
    SlotsApart(c, p, s, q, s');
  }

  lemma RootOrObject(c: Copy, r: Path, q: Path, s: Step, r': Path)
    requires IsCopy(c) && Hops(c, q, s)
    ensures !SameEnd(c.w, r, Next(c, q, s), r')
  {
    if SameEnd(c.w, r, Next(c, q, s), r') {
      PartInStorage(c.w, r);
      HeldByObject(c, q, s, r');
      EndIsNew(c, q);
    }
  }
}
