/** How far a run of the cloner has come, as a value, and what each step of the
    run keeps. */
module CloneProgress {
  import opened Values
  import opened Ownership
  import opened Cloning
  import opened Separation

  datatype VisitKey = VisitKey(ptr: Addr, typ: TypeId)

  function KeyFor(x: Value): VisitKey
    requires x.Ptr?
  {
    VisitKey(x.a, x.t)
  }

  /** The pointers among some references, as visit keys. */
  ghost function KeysOf(refs: set<Value>): set<VisitKey> {
    set x | x in refs && x.Ptr? :: KeyFor(x)
  }

  /** The heap, the visited table, where each new object comes from, and which new
      object holds a new backing array or map. */
  datatype Progress = Progress(
    dst: seq<Object>, visited: map<VisitKey, Addr>, origin: Origins, holder: map<Addr, Addr>)

  /** Nothing already allocated is written, and the tables only grow. */
  ghost predicate Grows(s: Progress, s': Progress) {
    && s.dst <= s'.dst
    && Extends(s.origin, s'.origin)
    && s.visited.Keys <= s'.visited.Keys
    && HolderGrows(s.holder, s'.holder, |s.dst|)
  }

  ghost predicate HolderGrows(small: map<Addr, Addr>, big: map<Addr, Addr>, n: nat) {
    && (forall a :: a in small ==> a in big && big[a] == small[a])
    && (forall a :: a in big ==> a in small || n <= a)
  }

  /** Pointers in `grey` have an entry in the visited table but their clone is
      still being filled. */
  ghost predicate Black(origin: Origins, grey: set<VisitKey>, o: Addr) {
    o in origin && (origin[o].Ptr? ==> KeyFor(origin[o]) !in grey)
  }

  ghost predicate Sound(src: seq<Object>, pins: Pins, region: set<Value>, s: Progress, grey: set<VisitKey>) {
    && src <= s.dst
    && (forall o :: o in s.origin <==> |src| <= o < |s.dst|)
    && OriginsIn(s.origin, pins, region)
    && Indexed(s.visited, s.origin)
    && Settled(src, s.dst, s.origin, pins, grey)
    && Housed(s.dst, s.origin, s.holder, grey)
  }

  /** The visited table and the origins of cells are inverses. */
  ghost predicate Indexed(visited: map<VisitKey, Addr>, origin: Origins) {
    && (forall o :: o in origin && origin[o].Ptr? ==> KeyFor(origin[o]) in visited && visited[KeyFor(origin[o])] == o)
    && (forall k :: k in visited ==> visited[k] in origin && origin[visited[k]] == Ptr(k.typ, k.ptr))
  }

  lemma IndexedAdd(visited: map<VisitKey, Addr>, origin: Origins, v: Value, o: Addr)
    requires Indexed(visited, origin) && v.Ptr? && KeyFor(v) !in visited && o !in origin
    ensures Indexed(visited[KeyFor(v) := o], origin[o := v])
  {
  }

  ghost predicate SettledAt(
    src: seq<Object>, dst: seq<Object>, origin: Origins, pins: Pins, grey: set<VisitKey>, o: Addr)
  {
    Black(origin, grey, o) ==> Finished(src, dst, origin, pins, o)
  }

  /** Every new object but the grey cells is a finished copy. */
  ghost predicate Settled(src: seq<Object>, dst: seq<Object>, origin: Origins, pins: Pins, grey: set<VisitKey>) {
    forall o :: SettledAt(src, dst, origin, pins, grey, o)
  }

  ghost predicate HousedAt(
    dst: seq<Object>, origin: Origins, holder: map<Addr, Addr>, grey: set<VisitKey>, o: Addr)
  {
    Black(origin, grey, o) && o < |dst| ==>
      && UnsharedParts(Parts(dst[o]))
      && forall a :: a in ObjectStorage(dst[o]) ==> a in holder && holder[a] == o
  }

  /** What a new object holds of new backing arrays and maps, no other holds. */
  ghost predicate Housed(dst: seq<Object>, origin: Origins, holder: map<Addr, Addr>, grey: set<VisitKey>) {
    (forall a :: a in holder ==> a < |dst|) && forall o :: HousedAt(dst, origin, holder, grey, o)
  }

  /** At the end, with w in nobody's hands yet, each is held in one place. */
  lemma AllHoused(src: seq<Object>, pins: Pins, region: set<Value>, s: Progress, w: Value)
    requires Sound(src, pins, region, s, {}) && Loose(w, |src|, s) && PinsWithin(pins, |src|)
    ensures CopiedGraph(src, s.dst, s.origin, pins)
    ensures Exclusive(s.dst, |src|, w)
  {
    forall o | o in s.origin ensures Finished(src, s.dst, s.origin, pins, o) {
      assert SettledAt(src, s.dst, s.origin, pins, {}, o);
    }
    forall o | |src| <= o < |s.dst|
      ensures UnsharedParts(Parts(s.dst[o]))
      ensures forall a :: a in ObjectStorage(s.dst[o]) ==> a in s.holder && s.holder[a] == o
    {
      assert HousedAt(s.dst, s.origin, s.holder, {}, o);
    }
  }

  // ---------- values being fixed ----------

  /** w holds backing arrays and maps allocated from lo on, each once, that no
      object holds yet. */
  ghost predicate Loose(w: Value, lo: nat, s: Progress) {
    Unshared(w) && forall a :: a in Storage(w) ==> lo <= a < |s.dst| && a !in s.holder
  }

  /** w is what the cloner makes of v, started when the heap had size lo. */
  ghost predicate Fixed(pins: Pins, s: Progress, v: Value, w: Value, lo: nat) {
    Renamed(s.origin, pins, v, w) && Loose(w, lo, s)
  }

  lemma FixedStays(pins: Pins, s: Progress, s': Progress, v: Value, w: Value, lo: nat)
    requires Fixed(pins, s, v, w, lo) && Grows(s, s')
    ensures Fixed(pins, s', v, w, lo)
  {
    RenamedExtends(s.origin, s'.origin, pins, v, w);
  }

  lemma PlainIsFixed(pins: Pins, s: Progress, v: Value, lo: nat)
    requires Refs(v) == {}
    ensures Fixed(pins, s, v, v, lo)
  {
    PlainRenamesToItself(s.origin, pins, v);
    PlainIsUnshared(v);
  }

  ghost predicate FixedAt(pins: Pins, s: Progress, vs: seq<Value>, ws: seq<Value>, k: nat, lo: nat) {
    k < |vs| && k < |ws| && Fixed(pins, s, vs[k], ws[k], lo)
  }

  ghost predicate StorageApart(ws: seq<Value>, j: nat, k: nat) {
    j < |ws| && k < |ws| && Storage(ws[j]) !! Storage(ws[k])
  }

  /** A sequence being fixed in place: the first i elements are done, and share no
      backing array and no map whatever their sources shared. */
  ghost predicate FixedUpTo(pins: Pins, s: Progress, vs: seq<Value>, ws: seq<Value>, i: nat, lo: nat) {
    && i <= |ws| == |vs|
    && (forall k :: 0 <= k < i ==> FixedAt(pins, s, vs, ws, k, lo))
    && ws[i..] == vs[i..]
    && (forall j, k :: 0 <= j < k < i ==> StorageApart(ws, j, k))
  }

  lemma OneMoreFixed(
    pins: Pins, s: Progress, s': Progress, vs: seq<Value>, ws: seq<Value>, i: nat, lo: nat, w: Value)
    requires FixedUpTo(pins, s, vs, ws, i, lo) && i < |vs| && Grows(s, s')
    requires lo <= |s.dst| && Fixed(pins, s', vs[i], w, |s.dst|)
    ensures FixedUpTo(pins, s', vs, ws[i := w], i + 1, lo)
  {
    var ws' := ws[i := w];
    forall k | 0 <= k < i ensures FixedAt(pins, s', vs, ws', k, lo) && StorageApart(ws', k, i) {
      assert FixedAt(pins, s, vs, ws, k, lo);
      FixedStays(pins, s, s', vs[k], ws[k], lo);
    }
    forall j, k | 0 <= j < k < i ensures StorageApart(ws', j, k) { assert StorageApart(ws, j, k); }
    assert FixedAt(pins, s', vs, ws', i, lo);
    assert ws'[i + 1..] == ws[i..][1..] == vs[i + 1..];
  }

  lemma FixedApart(pins: Pins, s: Progress, vs: seq<Value>, ws: seq<Value>, lo: nat)
    requires FixedUpTo(pins, s, vs, ws, |vs|, lo)
    ensures Apart(ws)
  {
    forall j, k | 0 <= j < k < |ws| ensures Storage(ws[j]) !! Storage(ws[k]) { assert StorageApart(ws, j, k); }
  }

  lemma FixedStruct(pins: Pins, s: Progress, t: TypeId, vs: seq<Value>, ws: seq<Value>, lo: nat)
    requires FixedUpTo(pins, s, vs, ws, |vs|, lo)
    ensures Fixed(pins, s, Struct(t, vs), Struct(t, ws), lo)
  {
    FixedApart(pins, s, vs, ws, lo);
    var w := Struct(t, ws);
    forall a | a in Storage(w) ensures lo <= a < |s.dst| && a !in s.holder {
      var k, x :| 0 <= k < |ws| && x in Refs(ws[k]) && !x.Ptr? && x.a == a;
      assert a in Storage(ws[k]) && FixedAt(pins, s, vs, ws, k, lo);
    }
    forall k | 0 <= k < |ws| ensures Renamed(s.origin, pins, vs[k], ws[k]) && Unshared(ws[k]) {
      assert FixedAt(pins, s, vs, ws, k, lo);
    }
  }

  lemma FixedArray(pins: Pins, s: Progress, elem: Ty, vs: seq<Value>, ws: seq<Value>, lo: nat)
    requires FixedUpTo(pins, s, vs, ws, |vs|, lo)
    ensures Fixed(pins, s, Array(elem, vs), Array(elem, ws), lo)
  {
    FixedApart(pins, s, vs, ws, lo);
    var w := Array(elem, ws);
    forall a | a in Storage(w) ensures lo <= a < |s.dst| && a !in s.holder {
      var k, x :| 0 <= k < |ws| && x in Refs(ws[k]) && !x.Ptr? && x.a == a;
      assert a in Storage(ws[k]) && FixedAt(pins, s, vs, ws, k, lo);
    }
    forall k | 0 <= k < |ws| ensures Renamed(s.origin, pins, vs[k], ws[k]) && Unshared(ws[k]) {
      assert FixedAt(pins, s, vs, ws, k, lo);
    }
  }

  // ---------- objects being made ----------

  lemma FinishedStays(src: seq<Object>, s: Progress, s': Progress, pins: Pins, o: Addr)
    requires Finished(src, s.dst, s.origin, pins, o) && Extends(s.origin, s'.origin)
    requires o < |s'.dst| && s'.dst[o] == s.dst[o]
    ensures Finished(src, s'.dst, s'.origin, pins, o)
  {
    CopyExtends(src, s.origin, s'.origin, pins, s.origin[o], s.dst[o]);
  }

  /** An object that stays as it is stays finished and keeps what it holds. */
  lemma ObjectStays(
    src: seq<Object>, pins: Pins, s: Progress, s': Progress, grey: set<VisitKey>, grey': set<VisitKey>, o: Addr)
    requires SettledAt(src, s.dst, s.origin, pins, grey, o) && HousedAt(s.dst, s.origin, s.holder, grey, o)
    requires Extends(s.origin, s'.origin) && HolderGrows(s.holder, s'.holder, 0)
    requires o in s.origin && (Black(s'.origin, grey', o) ==> Black(s.origin, grey, o))
    requires o < |s.dst| && o < |s'.dst| && s'.dst[o] == s.dst[o]
    ensures SettledAt(src, s'.dst, s'.origin, pins, grey', o) && HousedAt(s'.dst, s'.origin, s'.holder, grey', o)
  {
    if Black(s'.origin, grey', o) { FinishedStays(src, s, s', pins, o); }
  }

  /** Entering a pointer in the visited table leaves only its own cell unfinished. */
  lemma Reserved(
    src: seq<Object>, pins: Pins, region: set<Value>, s: Progress, grey: set<VisitKey>, v: Value, o: Object)
    requires Sound(src, pins, region, s, grey)
    requires v.Ptr? && v in region && !Pinned(pins, v) && KeyFor(v) !in s.visited
    ensures var n := |s.dst|;
      Sound(src, pins, region,
        Progress(s.dst + [o], s.visited[KeyFor(v) := n], s.origin[n := v], s.holder), grey + {KeyFor(v)})
  {
    var n, key := |s.dst|, KeyFor(v);
    var s' := Progress(s.dst + [o], s.visited[key := n], s.origin[n := v], s.holder);
    IndexedAdd(s.visited, s.origin, v, n);
    forall o
      ensures SettledAt(src, s'.dst, s'.origin, pins, grey + {key}, o)
      ensures HousedAt(s'.dst, s'.origin, s'.holder, grey + {key}, o)
    {
      assert SettledAt(src, s.dst, s.origin, pins, grey, o) && HousedAt(s.dst, s.origin, s.holder, grey, o);
      if o in s.origin { ObjectStays(src, pins, s, s', grey, grey + {key}, o); }
    }
  }

  /** The holder of everything in a set of addresses. */
  ghost function Holding(holder: map<Addr, Addr>, addrs: set<Addr>, o: Addr): map<Addr, Addr> {
    holder + map a | a in addrs :: o
  }

  lemma HoldingGrows(holder: map<Addr, Addr>, addrs: set<Addr>, o: Addr, lo: nat)
    requires forall a :: a in addrs ==> lo <= a && a !in holder
    ensures HolderGrows(holder, Holding(holder, addrs, o), lo)
    ensures forall a :: a in addrs ==> a in Holding(holder, addrs, o) && Holding(holder, addrs, o)[a] == o
    ensures forall a :: a in Holding(holder, addrs, o) ==> a in holder || a in addrs
  {
  }

  lemma OneMoreOrigin(src: seq<Object>, pins: Pins, region: set<Value>, s: Progress, v: Value)
    requires (forall o :: o in s.origin <==> |src| <= o < |s.dst|) && |src| <= |s.dst|
    requires OriginsIn(s.origin, pins, region) && Indexed(s.visited, s.origin)
    requires IsRef(v) && !v.Ptr? && v in region
    ensures var origin := s.origin[|s.dst| := v];
      && Extends(s.origin, origin) && OriginsIn(origin, pins, region) && Indexed(s.visited, origin)
      && (forall o :: o in origin <==> |src| <= o < |s.dst| + 1)
  {
  }

  /** Publishing a filled backing array or map. */
  lemma Published(
    src: seq<Object>, pins: Pins, region: set<Value>, s: Progress, grey: set<VisitKey>, v: Value, o: Object, lo: nat)
    requires Sound(src, pins, region, s, grey) && LooseParts(Parts(o), lo, s)
    requires IsRef(v) && !v.Ptr? && v in region && Resolves(src, v) && CopyOf(src, s.origin, pins, v, o)
    ensures var n := |s.dst|;
      Sound(src, pins, region,
        Progress(s.dst + [o], s.visited, s.origin[n := v], Holding(s.holder, ObjectStorage(o), n)), grey)
  {
    var n := |s.dst|;
    var s' := Progress(s.dst + [o], s.visited, s.origin[n := v], Holding(s.holder, ObjectStorage(o), n));
    OneMoreOrigin(src, pins, region, s, v);
    LooseObject(o, lo, s);
    HoldingGrows(s.holder, ObjectStorage(o), n, 0);
    forall o'
      ensures SettledAt(src, s'.dst, s'.origin, pins, grey, o')
      ensures HousedAt(s'.dst, s'.origin, s'.holder, grey, o')
    {
      if o' in s.origin {
        assert SettledAt(src, s.dst, s.origin, pins, grey, o') && HousedAt(s.dst, s.origin, s.holder, grey, o');
        ObjectStays(src, pins, s, s', grey, grey, o');
      } else if o' == n {
        PublishedLast(src, pins, s, s', grey, v, o);
      }
    }
  }

  lemma PublishedLast(
    src: seq<Object>, pins: Pins, s: Progress, s': Progress, grey: set<VisitKey>, v: Value, o: Object)
    requires IsRef(v) && Resolves(src, v) && CopyOf(src, s.origin, pins, v, o) && UnsharedParts(Parts(o))
    requires s'.dst == s.dst + [o] && s'.origin == s.origin[|s.dst| := v] && |s.dst| !in s.origin
    requires forall a :: a in ObjectStorage(o) ==> a in s'.holder && s'.holder[a] == |s.dst|
    ensures SettledAt(src, s'.dst, s'.origin, pins, grey, |s.dst|)
    ensures HousedAt(s'.dst, s'.origin, s'.holder, grey, |s.dst|)
  {
    CopyExtends(src, s.origin, s'.origin, pins, v, o);
    assert s'.dst[|s.dst|] == o;
  }

  /** The parts of an object to be: fresh, in nobody's hands, nothing twice. */
  ghost predicate LooseParts(vs: seq<Value>, lo: nat, s: Progress) {
    Apart(vs) && forall i :: 0 <= i < |vs| ==> Loose(vs[i], lo, s)
  }

  lemma LooseObject(o: Object, lo: nat, s: Progress)
    requires LooseParts(Parts(o), lo, s)
    ensures UnsharedParts(Parts(o))
    ensures forall a :: a in ObjectStorage(o) ==> lo <= a < |s.dst| && a !in s.holder
  {
    forall a | a in ObjectStorage(o) ensures lo <= a < |s.dst| && a !in s.holder {
      var i :| 0 <= i < |Parts(o)| && a in Storage(Parts(o)[i]);
      assert Loose(Parts(o)[i], lo, s);
    }
    forall i | 0 <= i < |Parts(o)| ensures Unshared(Parts(o)[i]) { assert Loose(Parts(o)[i], lo, s); }
  }

  /** Filling the cell of a grey pointer turns it black. */
  lemma Filled(
    src: seq<Object>, pins: Pins, region: set<Value>, s: Progress, grey: set<VisitKey>, out: Addr, x: Value, lo: nat)
    requires out in s.origin && s.origin[out].Ptr? && Resolves(src, s.origin[out])
    requires Sound(src, pins, region, s, grey + {KeyFor(s.origin[out])})
    requires Fixed(pins, s, src[s.origin[out].a].v, x, lo)
    ensures Sound(src, pins, region,
      Progress(s.dst[out := Cell(x)], s.visited, s.origin, Holding(s.holder, Storage(x), out)), grey)
  {
    var key := KeyFor(s.origin[out]);
    var s' := Progress(s.dst[out := Cell(x)], s.visited, s.origin, Holding(s.holder, Storage(x), out));
    HoldingGrows(s.holder, Storage(x), out, 0);
    assert ObjectStorage(Cell(x)) == Storage(x) by {
      assert Parts(Cell(x))[0] == x;
    }
    forall o
      ensures SettledAt(src, s'.dst, s'.origin, pins, grey, o)
      ensures HousedAt(s'.dst, s'.origin, s'.holder, grey, o)
    {
      assert SettledAt(src, s.dst, s.origin, pins, grey + {key}, o);
      assert HousedAt(s.dst, s.origin, s.holder, grey + {key}, o);
      if o in s.origin && o != out { ObjectStays(src, pins, s, s', grey + {key}, grey, o); }
    }
  }

  /** From before a cell was reserved until it is filled. */
  lemma FilledGrows(
    s: Progress, reserved: Progress, now: Progress, pins: Pins, o: Object, v: Value, key: VisitKey, x: Value)
    requires reserved == Progress(s.dst + [o], s.visited[key := |s.dst|], s.origin[|s.dst| := v], s.holder)
    requires v.Ptr? && !Pinned(pins, v) && |s.dst| !in s.origin
    requires Grows(reserved, now) && Loose(x, |reserved.dst|, now)
    ensures var n := |s.dst|;
      var filled := Progress(now.dst[n := Cell(x)], now.visited, now.origin, Holding(now.holder, Storage(x), n));
      && n in now.origin && now.origin[n] == v
      && Grows(s, filled) && Fixed(pins, filled, v, Ptr(v.t, n), n)
  {
    var n := |s.dst|;
    KeepsPrefix(s.dst, o, now.dst, Cell(x));
    HoldingGrows(now.holder, Storage(x), n, n);
    assert Storage(Ptr(v.t, n)) == {};
    assert n in reserved.origin && reserved.origin[n] == v;
  }

  lemma {:induction false} RankBound(region: set<Value>, rank: Value -> nat) returns (bound: nat)
    ensures forall x :: x in region ==> rank(x) < bound
  {
    if region == {} {
      bound := 0;
    } else {
      var x :| x in region;
      var rest := RankBound(region - {x}, rank);
      bound := rest + rank(x) + 1;
    }
  }

  lemma KeepsPrefix(before: seq<Object>, o: Object, after: seq<Object>, o': Object)
    requires before + [o] <= after
    ensures before <= after[|before| := o']
  {
    assert before <= before + [o];
  }

  lemma Shrinks(keys: set<VisitKey>, visited: set<VisitKey>, key: VisitKey)
    requires key in keys && key !in visited
    ensures keys - (visited + {key}) < keys - visited
  {
    assert key in keys - visited;
  }

  // ---------- slices and maps ----------

  /** The visible part of a slice, fixed, is what its new backing array holds. */
  lemma BackingCopied(
    src: seq<Object>, s: Progress, pins: Pins, v: Value, vs: seq<Value>, ws: seq<Value>, lo: nat)
    requires v.Slice? && Resolves(src, v) && vs == src[v.a].elems[v.off..v.off + v.len]
    requires FixedUpTo(pins, s, vs, ws, |vs|, lo)
    ensures CopyOf(src, s.origin, pins, v, Backing(ws))
  {
    forall i | 0 <= i < v.len ensures Renamed(s.origin, pins, src[v.a].elems[v.off + i], ws[i]) {
      assert FixedAt(pins, s, vs, ws, i, lo);
    }
  }

  /** `out.SetMapIndex(key, val)`: replaces an equal key, appends otherwise. */
  function SetMapIndex(entries: seq<Entry>, key: Value, val: Value): (r: seq<Entry>)
    ensures (forall i :: 0 <= i < |entries| ==> entries[i].key != key) ==> r == entries + [Entry(key, val)]
  {
    if entries == [] then [Entry(key, val)]
    else if entries[0].key == key then [Entry(key, val)] + entries[1..]
    else [entries[0]] + SetMapIndex(entries[1..], key, val)
  }

  /** The keys of a map in a source heap of n objects. */
  ghost predicate MapKeys(es: seq<Entry>, n: nat) {
    && DistinctKeys(es)
    && forall i :: 0 <= i < |es| ==> Comparable(es[i].key) && forall x :: x in Refs(es[i].key) ==> x.a < n
  }

  /** A cloned key never collides with the clone of an earlier key, so the new
      map gets one entry per source entry. */
  lemma EntryAdded(
    small: Origins, big: Origins, pins: Pins, n: nat, es: seq<Entry>, i: nat, out: seq<Entry>, key: Value,
    val: Value)
    requires i < |es| && MapKeys(es, n) && Extends(small, big)
    requires forall o :: o in big ==> n <= o
    requires EntriesRenamed(small, pins, es[..i], out)
    requires Renamed(big, pins, es[i].key, key) && Renamed(big, pins, es[i].val, val)
    ensures SetMapIndex(out, key, val) == out + [Entry(key, val)]
    ensures EntriesRenamed(big, pins, es[..i + 1], out + [Entry(key, val)])
  {
    EntriesExtend(small, big, pins, es[..i], out);
    assert es[..i + 1] == es[..i] + [es[i]];
    forall k | 0 <= k < |out| ensures out[k].key != key {
      assert es[..i][k] == es[k];
      if out[k].key == key {
        RenamingKeepsKeysApart(big, pins, n, es[k].key, es[i].key, key);
      }
    }
  }

  /** The first entries of a new map: keys and values are fixed, and the values
      share no backing array and no map. */
  ghost predicate EntriesFixed(pins: Pins, s: Progress, es: seq<Entry>, out: seq<Entry>, lo: nat) {
    && EntriesRenamed(s.origin, pins, es, out)
    && (forall k :: 0 <= k < |out| ==> KeyPlain(out[k].key) && Loose(out[k].val, lo, s))
    && (forall j, k :: 0 <= j < k < |out| ==> Storage(out[j].val) !! Storage(out[k].val))
  }

  ghost predicate KeyPlain(k: Value) {
    Storage(k) == {} && Unshared(k)
  }

  lemma OneMoreEntry(
    pins: Pins, s: Progress, s': Progress, n: nat, es: seq<Entry>, i: nat, out: seq<Entry>, key: Value, val: Value,
    lo: nat)
    requires i < |es| && EntriesFixed(pins, s, es[..i], out, lo) && Grows(s, s') && lo <= |s.dst|
    requires MapKeys(es, n) && forall o :: o in s'.origin ==> n <= o
    requires Renamed(s'.origin, pins, es[i].key, key) && Fixed(pins, s', es[i].val, val, |s.dst|)
    ensures SetMapIndex(out, key, val) == out + [Entry(key, val)]
    ensures EntriesFixed(pins, s', es[..i + 1], out + [Entry(key, val)], lo)
  {
    EntryAdded(s.origin, s'.origin, pins, n, es, i, out, key, val);
    RenamedKeepsType(s'.origin, pins, es[i].key, key);
    KeysHoldNoStorage(key);
    var out' := out + [Entry(key, val)];
    forall k | 0 <= k < |out'| ensures KeyPlain(out'[k].key) && Loose(out'[k].val, lo, s') {
      if k < |out| { assert KeyPlain(out[k].key) && Loose(out[k].val, lo, s); }
    }
    forall j, k | 0 <= j < k < |out'| ensures Storage(out'[j].val) !! Storage(out'[k].val) {
      if k == |out| { assert Loose(out[j].val, lo, s) && Loose(val, |s.dst|, s'); }
    }
  }

  lemma TableLoose(pins: Pins, s: Progress, es: seq<Entry>, out: seq<Entry>, lo: nat)
    requires EntriesFixed(pins, s, es, out, lo)
    ensures LooseParts(Parts(Table(out)), lo, s)
  {
    var vs, n := Parts(Table(out)), |out|;
    forall k | 0 <= k < |vs| ensures Loose(vs[k], lo, s) && (k < n ==> Storage(vs[k]) == {}) {
      if k < n {
        assert KeyPlain(out[k].key);
      } else {
        assert vs[k] == out[k - n].val && Loose(out[k - n].val, lo, s);
      }
    }
    forall j, k | 0 <= j < k < |vs| ensures Storage(vs[j]) !! Storage(vs[k]) {
      if n <= j { assert vs[j] == out[j - n].val && vs[k] == out[k - n].val; }
    }
  }

  lemma BackingLoose(pins: Pins, s: Progress, vs: seq<Value>, ws: seq<Value>, lo: nat)
    requires FixedUpTo(pins, s, vs, ws, |vs|, lo)
    ensures LooseParts(Parts(Backing(ws)), lo, s)
  {
    FixedApart(pins, s, vs, ws, lo);
    forall k | 0 <= k < |ws| ensures Loose(ws[k], lo, s) { assert FixedAt(pins, s, vs, ws, k, lo); }
  }

  /** Publishing an object; the new slice or map is in nobody's hands yet. */
  lemma PublishedGrows(s0: Progress, s: Progress, pins: Pins, o: Object, v: Value, w: Value)
    requires Grows(s0, s) && LooseParts(Parts(o), |s0.dst|, s)
    requires |s.dst| !in s.origin && forall a :: a in s.holder ==> a < |s.dst|
    requires match v
      case Slice(t, _, _, len, _) => w == Slice(t, |s.dst|, 0, len, len)
      case Map(t, _) => w == Map(t, |s.dst|)
      case _ => false
    ensures var n := |s.dst|;
      var now := Progress(s.dst + [o], s.visited, s.origin[n := v], Holding(s.holder, ObjectStorage(o), n));
      Grows(s0, now) && Fixed(pins, now, v, w, |s0.dst|)
  {
    var n := |s.dst|;
    LooseObject(o, |s0.dst|, s);
    HoldingGrows(s.holder, ObjectStorage(o), n, |s0.dst|);
    assert Refs(w) == {w};
  }
}
