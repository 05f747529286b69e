/**
 When the memory of two callers of `kmalloc` can overlap: exactly when an object size does
 not fit its blobs and the arena has a page besides one slab.
 */
module KallocOverlap {
  import opened Bits
  import opened Options
  import opened Bitmap
  import opened SlabLayout
  import opened SlabSpec
  import opened Kalloc
  import opened KallocRuns
  import BB = BuddyBlocks
  import BA = Buddy
  import SC = SlabCaches
  import BP = BuddyProperties

  /**
   In no run does the memory of two callers overlap if and only if every object size fits, or the
   arena has room for one slab and nothing else.
   */
  lemma ApartExact(n: nat, sizes: seq<nat>)
    requires SizesOk(sizes)
    ensures (forall s, g, h | Reachable(n, sizes, s) && IsLive(s, g) && IsLive(s, h) && g != h :: Separate(s, g, h))
            <==> n <= SLAB_PAGES || forall i | 0 <= i < |sizes| :: Fits(sizes[i])
  {
    hide Reachable, IsLive, Separate, Fits;
    if n <= SLAB_PAGES || forall i | 0 <= i < |sizes| :: Fits(sizes[i]) {
      forall s, g, h | Reachable(n, sizes, s) && IsLive(s, g) && IsLive(s, h) && g != h
        ensures Separate(s, g, h)
      {
        ReachableInv(n, sizes, s);
        if n <= SLAB_PAGES {
          SmallArena(n, s, g, h);
        } else {
          AllInside(n, sizes, s, g);
          AllInside(n, sizes, s, h);
          HandlesApart(n, s, g, h);
        }
      }
    } else {
      var i :| 0 <= i < |sizes| && !Fits(sizes[i]);
      var s := ReachOverlap(n, sizes, i);
    }
  }

  lemma AllInside(n: nat, sizes: seq<nat>, s: System, h: Handle)
    requires SizesOk(sizes) && SystemInv(n, s) && IsLive(s, h) && |s.caches| == |sizes|
    requires forall i | 0 <= i < |sizes| :: s.caches[i].objSize == sizes[i] && Fits(sizes[i])
    ensures Inside(s, h)
  {
    hide SystemInv, Fits, Used, Total;
    if h.Obj? {
      InsideUnlessLast(n, s, h.cache, h.o);
    }
  }

  /** An arena of at most one slab's pages has no room for a slab and another block. */
  lemma SmallArena(n: nat, s: System, g: Handle, h: Handle)
    requires n <= SLAB_PAGES && SystemInv(n, s) && IsLive(s, g) && IsLive(s, h) && g != h
    ensures Separate(s, g, h)
  {
    hide IsLive, Separate;
    if SameCache(g, h) || (g.Blk? && h.Blk?) {
      HandlesApart(n, s, g, h);
    } else {
      OtherBase(n, s, g, h);
      BaseLive(n, s, g);
      BaseLive(n, s, h);
      if g.Obj? {
        OneBlock(n, s.buddy, Base(g), Base(h));
      } else {
        OneBlock(n, s.buddy, Base(h), Base(g));
      }
    }
  }

  lemma BaseLive(n: nat, s: System, h: Handle)
    requires SystemInv(n, s) && IsLive(s, h)
    ensures Base(h) in s.buddy.live && (h.Obj? ==> s.buddy.live[Base(h)] == SC.SLAB_ORDER)
  {
    if h.Obj? {
      hide SystemInv;
      ObjectSlab(n, s, h.cache, h.o);
    }
  }

  lemma OneBlock(n: nat, b: BA.State, p: nat, q: nat)
    requires n <= SLAB_PAGES && BP.Accounted(n, b) && p in b.live && b.live[p] == SC.SLAB_ORDER && q in b.live
    ensures p == q
  {
    assert Pow2(4) == 16;
    assert BP.PageAccounted(n, b, p + 15) && BP.Owns(b, p, p + 15);
    assert BP.PageAccounted(n, b, q) && BP.Owns(b, q, q) && BP.Owns(b, p, q);
  }

  // ----- a run to the last object of a slab

  /** The slab at page 0 has handed out its first `j` objects, and the page behind it is held. */
  ghost predicate Filling(n: nat, s: System, k: nat, size: nat, j: nat) {
    && SystemInv(n, s) && k < |s.caches| && Sized(size) && j <= Total(size)
    && var c := s.caches[k];
    && c.objSize == size && c.spare == [] && 0 in c.slabs && c.slabs[0].free == Total(size) - j
    && (j < Total(size) ==> c.partial != [] && c.partial[0] == 0)
    && (forall i: nat | i < Total(size) :: Used(c.slabs, Object(0, i)) <==> i < j)
    && SLAB_PAGES in s.buddy.live && s.buddy.live[SLAB_PAGES] == 0
  }

  /** A slab for the cache, then one page, which is the one behind it. */
  lemma FillStart(n: nat, sizes: seq<nat>, k: nat) returns (t: System)
    requires SizesOk(sizes) && k < |sizes| && n > SLAB_PAGES
    ensures Reachable(n, sizes, t) && Filling(n, t, k, sizes[k], 0)
  {
    hide Reachable, Initial, Step, AfterGrow, SystemInv, Filling, Total, BB.Run, BB.Interval;
    ReachInitial(n, sizes);
    var s1 := FirstStep(n, sizes, k);
    ReachStep(n, sizes, Initial(n, sizes), FirstSlab(k, 0), s1);
    t := SecondStep(n, s1);
    ReachStep(n, sizes, s1, FromBuddy(BA.PAGE_SIZE, SLAB_PAGES, 0), t);
    ReachableInv(n, sizes, t);
    StartFilling(n, t, k, sizes[k]);
  }

  lemma FirstStep(n: nat, sizes: seq<nat>, k: nat) returns (t: System)
    requires SizesOk(sizes) && k < |sizes| && n > SLAB_PAGES
    ensures Step(Initial(n, sizes), FirstSlab(k, 0), t)
    ensures && |t.caches| == |sizes| && t.caches[k] == AfterGrow(NewCache(sizes[k]), 0)
            && t.buddy.free == BB.Interval(0, n) - BB.Run(0, SC.SLAB_ORDER) && t.buddy.live == map[0 := SC.SLAB_ORDER]
  {
    hide BB.Available, BB.Run, BB.Interval, NewSlab, Total;
    var s := Initial(n, sizes);
    var b := BA.State(s.buddy.free - BB.Run(0, SC.SLAB_ORDER), map[0 := SC.SLAB_ORDER]);
    t := System(s.caches[k := AfterGrow(NewCache(sizes[k]), 0)], b);
    FirstRun(n);
    assert s.buddy.live[0 := SC.SLAB_ORDER] == b.live;
    assert BA.Step(s.buddy, BA.Event.Alloc(Some(0), SC.SLAB_ORDER), b);
  }

  lemma SecondStep(n: nat, s: System) returns (t: System)
    requires n > SLAB_PAGES && s.buddy.live == map[0 := SC.SLAB_ORDER]
    requires s.buddy.free == BB.Interval(0, n) - BB.Run(0, SC.SLAB_ORDER)
    ensures t.caches == s.caches && t.buddy.live == map[0 := SC.SLAB_ORDER, SLAB_PAGES := 0]
    ensures Step(s, FromBuddy(BA.PAGE_SIZE, SLAB_PAGES, 0), t)
  {
    hide BB.Available, BB.Run, BB.Interval;
    FirstRun(n);
    t := System(s.caches, BA.State(s.buddy.free - BB.Run(SLAB_PAGES, 0), s.buddy.live[SLAB_PAGES := 0]));
    assert BA.Step(s.buddy, BA.Event.Alloc(Some(SLAB_PAGES), 0), t.buddy);
  }

  lemma StartFilling(n: nat, t: System, k: nat, size: nat)
    requires SystemInv(n, t) && Sized(size) && k < |t.caches| && t.caches[k] == AfterGrow(NewCache(size), 0)
    requires t.buddy.live == map[0 := SC.SLAB_ORDER, SLAB_PAGES := 0]
    ensures Filling(n, t, k, size, 0)
  {
    hide SystemInv, Used, Total;
    NewUnused(size);
  }

  lemma FirstRun(n: nat)
    requires n > SLAB_PAGES
    ensures BB.Available(BB.Interval(0, n), 0, SC.SLAB_ORDER)
    ensures BB.Available(BB.Interval(0, n) - BB.Run(0, SC.SLAB_ORDER), SLAB_PAGES, 0)
    ensures BA.IsOrder(BA.PAGE_SIZE, 0)
  {
    assert Pow2(4) == 16 && Pow2(0) == 1;
    hide Pow2;
  }

  lemma NewUnused(size: nat)
    requires Sized(size)
    ensures var c := AfterGrow(NewCache(size), 0);
            forall i: nat :: !Used(c.slabs, Object(0, i))
  {
    NewSlabOk(size);
  }

  /** Whatever the low-water test does, the next object of the slab at page 0 can be handed out. */
  lemma FillNext(n: nat, sizes: seq<nat>, s: System, k: nat, size: nat, j: nat) returns (t: System)
    requires SizesOk(sizes) && Reachable(n, sizes, s) && Filling(n, s, k, size, j) && j < Total(size)
    ensures Reachable(n, sizes, t) && Filling(n, t, k, size, j + 1)
  {
    hide Reachable, SystemInv, Used, Total, SC.Supplied, SC.Served, SC.Ready, AfterTake, CanTake, SizesOk, Sized;
    var c, o := s.caches[k], Object(0, j);
    FillingCache(n, s, k, size, j);
    var how, b := Supply(n, s, k);
    NextServed(c, s.buddy, j, how, b);
    t := System(s.caches[k := AfterTake(SC.Ready(c, how), j)], b);
    var e := FromCache(size, k, o, how);
    assert Step(s, e, t);
    ReachStep(n, sizes, s, e, t);
    StepKeeps(n, s, e, t);
    NextFilling(c, s.buddy, j, how, b);
  }

  /** The part of `Filling` that concerns the cache alone. */
  ghost predicate FillingFront(c: Cache, b: BA.State, j: nat) {
    && c.objSize > 0 && Inv(c) && SC.Backed(c.slabs, b.live) && c.spare == [] && 0 in c.slabs
    && j < Total(c.objSize) == c.slabs[0].total <= 8 * |c.slabs[0].bm|
    && c.slabs[0].free == Total(c.objSize) - j && c.partial != [] && c.partial[0] == 0 && c.free > 0
    && (forall i: nat | i < Total(c.objSize) :: Used(c.slabs, Object(0, i)) <==> i < j)
    && SLAB_PAGES in b.live && b.live[SLAB_PAGES] == 0
  }

  lemma FillingCache(n: nat, s: System, k: nat, size: nat, j: nat)
    requires Filling(n, s, k, size, j) && j < Total(size)
    ensures FillingFront(s.caches[k], s.buddy, j)
  {
    hide Total, Used, Sorted, BP.Accounted;
    var c := s.caches[k];
    assert CacheOk(c, s.buddy);
    assert SlabOk(size, c.slabs[0]);
    SlabSize(size, c.slabs[0]);
  }

  lemma Supply(n: nat, s: System, k: nat) returns (how: SC.Supply, b: BA.State)
    requires SystemInv(n, s) && k < |s.caches| && s.caches[k].objSize > 0 && s.caches[k].spare == []
    ensures SC.Supplied(s.caches[k], s.buddy, how, b) && !how.Reused?
  {
    var c := s.caches[k];
    if c.free >= Total(c.objSize) || SC.NoBlob(s.buddy) {
      return SC.InService, s.buddy;
    }
    var p: nat :| BB.Available(s.buddy.free, p, SC.SLAB_ORDER);
    FreeNotLive(n, s.buddy, p);
    assert CacheOk(c, s.buddy);
    how := SC.Fresh(p);
    b := BA.State(s.buddy.free - BB.Run(p, SC.SLAB_ORDER), s.buddy.live[p := SC.SLAB_ORDER]);
  }

  lemma FreeNotLive(n: nat, b: BA.State, p: nat)
    requires BP.Accounted(n, b) && BB.Available(b.free, p, SC.SLAB_ORDER)
    ensures p !in b.live
  {
    assert p in BB.Run(p, SC.SLAB_ORDER);
    assert BP.PageAccounted(n, b, p);
    assert p in b.live ==> BP.Owns(b, p, p);
  }

  lemma ReadyFront(c: Cache, b: BA.State, j: nat, how: SC.Supply, b': BA.State)
    requires FillingFront(c, b, j) && SC.Supplied(c, b, how, b') && !how.Reused?
    ensures var mid := SC.Ready(c, how);
            && CanTake(mid) && mid.partial[0] == 0 && mid.slabs[0] == c.slabs[0] && mid.spare == []
            && SLAB_PAGES in b'.live && b'.live[SLAB_PAGES] == 0
  {
    hide Inv, Used, Total, NewSlab, BB.Available;
  }

  lemma NextServed(c: Cache, b: BA.State, j: nat, how: SC.Supply, b': BA.State)
    requires FillingFront(c, b, j) && SC.Supplied(c, b, how, b') && !how.Reused?
    ensures CanTake(SC.Ready(c, how)) && SC.Served(c, b, Object(0, j), how, AfterTake(SC.Ready(c, how), j), b')
  {
    hide Inv, Total, SC.Supplied, SC.Ready, CanTake, AfterTake, Bit;
    ReadyFront(c, b, j, how, b');
    FrontBits(c, b, j);
  }

  lemma FrontBits(c: Cache, b: BA.State, j: nat)
    requires FillingFront(c, b, j)
    ensures var s := c.slabs[0];
            j in ClearBits(s.bm, s.total) && forall i: nat | i < j :: Get(s.bm, s.total, i)
  {
    hide Inv, Total, Bit;
    forall i: nat | i <= j
      ensures Bit(c.slabs[0].bm, i) <==> i < j
    {
      assert Used(c.slabs, Object(0, i)) <==> i < j;
    }
  }

  lemma NextFilling(c: Cache, b: BA.State, j: nat, how: SC.Supply, b': BA.State)
    requires FillingFront(c, b, j) && SC.Supplied(c, b, how, b') && !how.Reused?
    requires CanTake(SC.Ready(c, how)) && SC.Served(c, b, Object(0, j), how, AfterTake(SC.Ready(c, how), j), b')
    ensures var t := AfterTake(SC.Ready(c, how), j);
            && t.objSize == c.objSize && t.spare == [] && 0 in t.slabs && t.slabs[0].free == Total(c.objSize) - (j + 1)
            && (j + 1 < Total(c.objSize) ==> t.partial != [] && t.partial[0] == 0)
            && (forall i: nat | i < Total(c.objSize) :: Used(t.slabs, Object(0, i)) <==> i < j + 1)
    ensures SLAB_PAGES in b'.live && b'.live[SLAB_PAGES] == 0
  {
    hide Inv, Total, SC.Supplied, SC.Served, SC.Ready, Used, Set, InUse;
    ReadyFront(c, b, j, how, b');
    var t := AfterTake(SC.Ready(c, how), j);
    SC.ServedKeeps(c, b, Object(0, j), how, t, b');
    SlabsInUse(c.slabs, t.slabs);
    hide AfterTake;
    forall i: nat | i < Total(c.objSize)
      ensures Used(t.slabs, Object(0, i)) <==> i < j + 1
    {
      assert Used(c.slabs, Object(0, i)) <==> i < j;
    }
  }

  lemma {:induction false} FillAll(n: nat, sizes: seq<nat>, k: nat, j: nat) returns (t: System)
    requires SizesOk(sizes) && k < |sizes| && n > SLAB_PAGES && j <= Total(sizes[k])
    ensures Reachable(n, sizes, t) && Filling(n, t, k, sizes[k], j)
  {
    hide Reachable, Filling, SizesOk, Total;
    if j == 0 {
      t := FillStart(n, sizes, k);
    } else {
      var s := FillAll(n, sizes, k, j - 1);
      t := FillNext(n, sizes, s, k, sizes[k], j - 1);
    }
  }

  /** Every cache can be led to hand out the last object of a slab whose next page belongs to another caller. */
  lemma ReachOverlap(n: nat, sizes: seq<nat>, k: nat) returns (s: System)
    requires SizesOk(sizes) && k < |sizes| && n > SLAB_PAGES
    ensures var g, h := Obj(k, Object(0, Total(sizes[k]) - 1)), Blk(SLAB_PAGES);
            && Reachable(n, sizes, s) && IsLive(s, g) && IsLive(s, h)
            && (Separate(s, g, h) <==> Fits(sizes[k]))
  {
    s := FillAll(n, sizes, k, Total(sizes[k]));
    var o := Object(0, Total(sizes[k]) - 1);
    if SLAB_PAGES in SlabPages(s.caches) {
      SlabIsBlock(n, s, SLAB_PAGES);
      assert false;
    }
    InsideUnlessLast(n, s, k, o);
    BehindExact(n, s, k, o);
  }

  /** 24-byte objects on 32 pages: the last object of a slab reaches 16 bytes into the page of another caller. */
  lemma PoolOverlap() returns (s: System)
    ensures var g, h := Obj(0, Object(0, 2713)), Blk(16);
            Reachable(32, [24], s) && IsLive(s, g) && IsLive(s, h) && EndOf(s, g) == AddrOf(s, h) + 16
  {
    hide Reachable, IsLive, Fits, AddrOf, SizeOf, SystemInv, Separate, Address, AllocSize;
    PoolTotal(24);
    Pool24();
    s := ReachOverlap(32, [24], 0);
    ReachableInv(32, [24], s);
    PoolEnd(s);
  }

  lemma PoolEnd(s: System)
    requires |s.caches| == 1 && s.caches[0].objSize == 24
    ensures EndOf(s, Obj(0, Object(0, 2713))) == AddrOf(s, Blk(16)) + 16
  {
    Pool24();
    hide Offset;
    AllocUnchanged(24);
    hide AllocSize;
    LastEnd(Offset(24), 24, 2714);
  }
}
