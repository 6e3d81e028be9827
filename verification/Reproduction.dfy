/** What a clone is to a program that walks it, and exactly when it shares memory
    as its source does. */
module Reproduction {
  import opened Options
  import opened Values
  import opened Cloning
  import opened Sharing
  import opened ClonePlaces

  /** What a copy w of v is to a program, at two paths: it looks like v, shares a
      cell where v has the same pointer of the same type, shares a backing array or
      a map only where the paths to it meet in a pointer, and its slices have no
      spare capacity. */
  ghost predicate CopiedAt(
    h: seq<Object>, pins: Pins, v: Value, h': seq<Object>, pins': Pins, w: Value, p: Path, q: Path)
  {
    && Observe(h, pins, v, p) == Observe(h', pins', w, p)
    && (Aliased(h', pins', w, p, q) <==> Aliased(h, pins, v, p, q))
    && (SameCell(h', pins', w, p, q) <==> Aliased(h, pins, v, p, q))
    && (SameStorage(h', pins', w, p, q) <==> EndsInStorage(h, pins, v, p) && OnePlace(h, pins, v, p, q))
    && Trimmed(Walk(h', pins', w, p))
  }

  ghost predicate Reproduces(h: seq<Object>, pins: Pins, v: Value, h': seq<Object>, pins': Pins, w: Value) {
    forall p, q :: CopiedAt(h, pins, v, h', pins', w, p, q)
  }

  predicate Trimmed(x: Option<Value>) {
    x.Some? && x.value.Slice? ==> x.value.cap == x.value.len
  }

  /** A clone looks like its source along every path and shares pointers, cycles
      included, as its source does; its backing arrays and maps are shared only
      where a shared pointer leads to them. */
  lemma CloneReproduces(
    src: seq<Object>, dst: seq<Object>, origin: Origins, pins: Pins, region: set<Value>, v: Value, w: Value)
    requires IsClone(src, dst, origin, pins, v, w)
    requires Region(src, pins, region) && HeldIn(src, pins, region, v)
    ensures Reproduces(src, pins, v, dst, pins, w)
  {
    var c := Copy(src, dst, origin, pins, region, v, w);
    CloneHasSameShape(src, dst, origin, pins, region, v, w);
    forall p, q ensures CopiedAt(src, pins, v, dst, pins, w, p, q) {
      SharedCells(c, p, q);
      SharedEnds(c, p, q);
      if End(c, p).Some? && End(c, p).value.Slice? { EndIsNew(c, p); }
      assert Aliased(src, pins, v, p, q) <==> Aliased(dst, pins, w, p, q);
      assert Observe(src, pins, v, p) == Observe(dst, pins, w, p);
    }
  }

  /** A copy of what looks like v and shares pointers as v does is a copy of v. */
  lemma CopyOfSameShape(
    h1: seq<Object>, p1: Pins, v1: Value, h2: seq<Object>, p2: Pins, v2: Value, h3: seq<Object>, p3: Pins, v3: Value)
    requires SameShape(h1, p1, v1, h2, p2, v2) && Reproduces(h2, p2, v2, h3, p3, v3)
    ensures Reproduces(h1, p1, v1, h3, p3, v3)
  {
    forall p, q ensures CopiedAt(h1, p1, v1, h3, p3, v3, p, q) {
      assert CopiedAt(h2, p2, v2, h3, p3, v3, p, q);
      SamePlaces(h1, p1, v1, h2, p2, v2, p, q);
      SameEnds(h1, p1, v1, h2, p2, v2, p, q);
    }
  }

  lemma SameEnds(
    h1: seq<Object>, p1: Pins, v1: Value, h2: seq<Object>, p2: Pins, v2: Value, p: Path, q: Path)
    requires SameShape(h1, p1, v1, h2, p2, v2)
    ensures Observe(h1, p1, v1, p) == Observe(h2, p2, v2, p)
    ensures Aliased(h1, p1, v1, p, q) <==> Aliased(h2, p2, v2, p, q)
    ensures EndsInStorage(h1, p1, v1, p) <==> EndsInStorage(h2, p2, v2, p)
  {
    assert Observe(h1, p1, v1, p) == Observe(h2, p2, v2, p);
  }

  /** A copy stays one in any heap in which all walks from it end as before. */
  lemma CopyStays(
    h: seq<Object>, pins: Pins, v: Value, h1: seq<Object>, h2: seq<Object>, pins': Pins, w: Value)
    requires Reproduces(h, pins, v, h1, pins', w) && SameShape(h1, pins', w, h2, pins', w)
    requires forall p :: Walk(h2, pins', w, p) == Walk(h1, pins', w, p)
    ensures Reproduces(h, pins, v, h2, pins', w)
  {
    forall p, q ensures CopiedAt(h, pins, v, h2, pins', w, p, q) {
      assert CopiedAt(h, pins, v, h1, pins', w, p, q);
      assert Observe(h1, pins', w, p) == Observe(h2, pins', w, p);
      assert Walk(h2, pins', w, p) == Walk(h1, pins', w, p) && Walk(h2, pins', w, q) == Walk(h1, pins', w, q);
    }
  }

  // ---------- exactly when sharing survives ----------

  /** A copy shares backing arrays and maps as its source does exactly when the
      source shares them only through pointers. */
  lemma StorageSharingKept(h: seq<Object>, pins: Pins, v: Value, h': seq<Object>, pins': Pins, w: Value)
    requires Reproduces(h, pins, v, h', pins', w)
    ensures (forall p, q :: SameStorage(h', pins', w, p, q) <==> SameStorage(h, pins, v, p, q)) <==>
            (forall p, q :: SameStorage(h, pins, v, p, q) ==> OnePlace(h, pins, v, p, q))
  {
    forall p, q
      ensures SameStorage(h', pins', w, p, q) <==> EndsInStorage(h, pins, v, p) && OnePlace(h, pins, v, p, q)
    {
      assert CopiedAt(h, pins, v, h', pins', w, p, q);
    }
    forall p, q | EndsInStorage(h, pins, v, p) && OnePlace(h, pins, v, p, q) ensures SameStorage(h, pins, v, p, q) {
      OnePlaceIsShared(h, pins, v, p, q);
    }
  }

  /** It shares cells as its source does exactly when no two pointers of the source
      have the same address and different types. */
  lemma CellSharingKept(h: seq<Object>, pins: Pins, v: Value, h': seq<Object>, pins': Pins, w: Value)
    requires Reproduces(h, pins, v, h', pins', w)
    ensures (forall p, q :: SameCell(h', pins', w, p, q) <==> SameCell(h, pins, v, p, q)) <==>
            (forall p, q :: SameCell(h, pins, v, p, q) ==> Walk(h, pins, v, p).value.t == Walk(h, pins, v, q).value.t)
  {
    forall p, q ensures SameCell(h', pins', w, p, q) <==> Aliased(h, pins, v, p, q) {
      assert CopiedAt(h, pins, v, h', pins', w, p, q);
    }
  }

  /** A slice of the copy has its source's capacity exactly when that was all in use. */
  lemma CapacityKept(h: seq<Object>, pins: Pins, v: Value, h': seq<Object>, pins': Pins, w: Value, p: Path)
    requires Reproduces(h, pins, v, h', pins', w) && Walk(h, pins, v, p).Some? && Walk(h, pins, v, p).value.Slice?
    ensures var x, y := Walk(h, pins, v, p).value, Walk(h', pins', w, p);
      && y.Some? && y.value.Slice? && y.value.len == x.len
      && (y.value.cap == x.cap <==> x.cap == x.len)
  {
    assert CopiedAt(h, pins, v, h', pins', w, p, p);
  }
}
