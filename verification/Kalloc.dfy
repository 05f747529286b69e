/**
 The dispatch of `kalloc.c` between the slab pools and the buddy allocator: which of them
 serves a request, and why the page flag sends every address back to the one it came from.
 */
module Kalloc {
  import opened Bits
  import opened Options
  import opened SlabLayout
  import opened SlabSpec
  import BB = BuddyBlocks
  import BA = Buddy
  import SC = SlabCaches
  import BP = BuddyProperties

  const MAX_POOL_SIZE: nat := 4096

  /** Who serves a request: nobody, a pool, or the buddy allocator. */
  datatype Route = Refused | Pool(index: nat) | Blocks

  /** The route of a request: the smallest pool that holds it, else blocks of a size the buddy allocator accepts. */
  predicate Routed(size: nat, r: Route) {
    match r
    case Refused => size == 0 || size > BA.BLOB_SIZE
    case Pool(i) => 0 < size <= MAX_POOL_SIZE && i < |KMALLOC_SIZES| && size <= KMALLOC_SIZES[i]
                    && forall j: nat | j < i :: KMALLOC_SIZES[j] < size
    case Blocks => MAX_POOL_SIZE < size <= BA.BLOB_SIZE
  }

  /** There is exactly one route for every size. */
  lemma OneRoute(size: nat, q: Route, r: Route)
    requires Routed(size, q) && Routed(size, r)
    ensures q == r
  {
  }

  method Size2Index(size: nat) returns (i: nat)
    ensures i < |KMALLOC_SIZES|
    ensures forall j: nat | j < i :: KMALLOC_SIZES[j] < size
    ensures size <= MAX_POOL_SIZE ==> size <= KMALLOC_SIZES[i]
  {
    i := 0;
    while i < |KMALLOC_SIZES| - 1
      invariant i < |KMALLOC_SIZES|
      invariant forall j: nat | j < i :: KMALLOC_SIZES[j] < size
    {
      if size <= KMALLOC_SIZES[i] {
        break;
      }
      i := i + 1;
    }
  }

  /** The head of `kmalloc`. */
  method Choose(size: nat) returns (r: Route)
    ensures Routed(size, r)
  {
    if size == 0 {
      return Refused;
    }
    if size <= MAX_POOL_SIZE {
      var i := Size2Index(size);
      return Pool(i);
    } else if size <= BA.PAGE_SIZE * 2048 {
      return Blocks;
    }
    return Refused;
  }

  // ----- several caches on one buddy allocator

  /** All slab caches, the `kmalloc` pools among them, and the buddy allocator below them. */
  datatype System = System(caches: seq<Cache>, buddy: BA.State)

  /** What a caller holds: an object of a cache, or a block. */
  datatype Handle = Obj(cache: nat, o: Object) | Blk(start: nat)

  function SlabPages(caches: seq<Cache>): set<nat> {
    set i, p | 0 <= i < |caches| && p in caches[i].slabs :: p
  }

  ghost predicate CacheOk(c: Cache, b: BA.State) {
    Inv(c) && SC.Backed(c.slabs, b.live)
  }

  predicate Apart(c: Cache, d: Cache) {
    forall p | p in c.slabs :: p !in d.slabs
  }

  /**
   Every cache is in order and backed by order-4 blocks, no two caches share a slab, and every page
   is accounted for.
   */
  ghost predicate SystemInv(n: nat, s: System) {
    && BP.Accounted(n, s.buddy)
    && (forall i | 0 <= i < |s.caches| :: CacheOk(s.caches[i], s.buddy))
    && (forall i, j | 0 <= i < |s.caches| && 0 <= j < |s.caches| && i != j :: Apart(s.caches[i], s.caches[j]))
  }

  /** Handed out by `kmalloc` and not yet returned. */
  predicate IsLive(s: System, h: Handle) {
    match h
    case Obj(i, o) => i < |s.caches| && Used(s.caches[i].slabs, o)
    case Blk(a) => a in s.buddy.live && a !in SlabPages(s.caches)
  }

  function AddrOf(s: System, h: Handle): nat {
    match h
    case Obj(i, o) => if i < |s.caches| && s.caches[i].objSize > 0 then SC.AddressOf(s.caches[i].objSize, o) else 0
    case Blk(a) => a * SC.PAGE_SIZE
  }

  /** The bytes that a caller got, with the rounding of objects to 8 bytes and of blocks to whole runs. */
  function SizeOf(s: System, h: Handle): nat {
    match h
    case Obj(i, o) => if i < |s.caches| && s.caches[i].objSize > 0 then AllocSize(s.caches[i].objSize) else 0
    case Blk(a) => if a in s.buddy.live then Pow2(s.buddy.live[a]) * SC.PAGE_SIZE else 0
  }

  function EndOf(s: System, h: Handle): nat {
    AddrOf(s, h) + SizeOf(s, h)
  }

  // ----- the page flag

  /** `PM_SLAB`: set by `slab_init` on every page of the blob. */
  predicate Flagged(slabs: set<nat>, page: nat) {
    exists p :: p in slabs && p <= page < p + SLAB_PAGES
  }

  /** What the invariant says of an object in use: its index is in range and its slab is an aligned block. */
  lemma ObjectSlab(n: nat, s: System, i: nat, o: Object)
    requires SystemInv(n, s) && i < |s.caches| && Used(s.caches[i].slabs, o)
    ensures var c := s.caches[i];
            && Sized(c.objSize) && o.index < Total(c.objSize)
            && o.page * SC.PAGE_SIZE % BLOB == 0 && o.page in s.buddy.live && s.buddy.live[o.page] == SC.SLAB_ORDER
  {
    var c := s.caches[i];
    hide Sorted, Counted, Total, BP.PageAccounted;
    assert CacheOk(c, s.buddy);
    assert SlabOk(c.objSize, c.slabs[o.page]);
    SlabSize(c.objSize, c.slabs[o.page]);
    SC.BlobAligned(o.page);
  }

  /** The address of an object leads back to its header and its index, in any cache. */
  lemma ObjectPlace(n: nat, s: System, i: nat, o: Object)
    requires SystemInv(n, s) && i < |s.caches| && Used(s.caches[i].slabs, o)
    ensures s.caches[i].objSize > 0
    ensures var size, addr := s.caches[i].objSize, AddrOf(s, Obj(i, o));
            && SC.BlobOf(addr) == o.page * SC.PAGE_SIZE && SC.BlobOf(addr) + Offset(size) <= addr
            && SC.IndexIn(size, SC.BlobOf(addr), addr) == o.index
            && o.page <= addr / SC.PAGE_SIZE < o.page + SLAB_PAGES
  {
    hide SystemInv, Used, Total;
    ObjectSlab(n, s, i, o);
    SC.AddressPlace(s.caches[i].objSize, o);
  }

  /** An object in use starts on a page that is flagged. */
  lemma ObjectFlagged(n: nat, s: System, i: nat, o: Object)
    requires SystemInv(n, s) && IsLive(s, Obj(i, o))
    ensures Flagged(SlabPages(s.caches), AddrOf(s, Obj(i, o)) / SC.PAGE_SIZE)
  {
    hide SystemInv;
    ObjectPlace(n, s, i, o);
    assert o.page in SlabPages(s.caches);
  }

  /** A block that the buddy allocator handed out for anything but a slab does not start on a flagged page. */
  lemma BlockNotFlagged(n: nat, s: System, a: nat)
    requires SystemInv(n, s) && IsLive(s, Blk(a))
    ensures !Flagged(SlabPages(s.caches), a)
  {
    forall p | p in SlabPages(s.caches)
      ensures !(p <= a < p + SLAB_PAGES)
    {
      SlabIsBlock(n, s, p);
      RunsApart(n, s.buddy, p, a);
    }
  }

  lemma SlabIsBlock(n: nat, s: System, p: nat)
    requires SystemInv(n, s) && p in SlabPages(s.caches)
    ensures p in s.buddy.live && s.buddy.live[p] == SC.SLAB_ORDER && Pow2(SC.SLAB_ORDER) == SLAB_PAGES
  {
    hide BP.Accounted, Inv;
    var i :| 0 <= i < |s.caches| && p in s.caches[i].slabs;
    assert CacheOk(s.caches[i], s.buddy);
    assert Pow2(4) == 16;
  }

  /** Two live blocks occupy disjoint intervals of pages. */
  lemma RunsApart(n: nat, b: BA.State, g: nat, h: nat)
    requires BP.Accounted(n, b) && g in b.live && h in b.live && g != h
    ensures g + Pow2(b.live[g]) <= h || h + Pow2(b.live[h]) <= g
  {
    var p := if g < h then h else g;
    assert BP.PageAccounted(n, b, p);
    assert g <= p < g + Pow2(b.live[g]) ==> BP.Owns(b, g, p);
    assert h <= p < h + Pow2(b.live[h]) ==> BP.Owns(b, h, p);
  }

  // ----- requests and returns

  datatype Event =
    | FromCache(size: nat, cache: nat, o: Object, how: SC.Supply)
    | FromBuddy(size: nat, start: nat, order: nat)
    | FirstSlab(cache: nat, page: nat)
    | Null
    | Kfree(addr: nat)

  /** What a cache of objects of this size is asked for: one object, or a size that `kmalloc` sends to such a pool. */
  ghost predicate Asks(objSize: nat, size: nat) {
    size == objSize || exists i: nat :: Routed(size, Pool(i)) && KMALLOC_SIZES[i] == objSize
  }

  /** `kmem_cache_free` through the header that aligning the address down finds. */
  ghost predicate Returned(s: System, i: nat, addr: nat, t: System) {
    && i < |s.caches| && s.caches[i].objSize > 0
    && var c, base := s.caches[i], SC.BlobOf(addr);
    && base / SC.PAGE_SIZE in c.slabs && base + Offset(c.objSize) <= addr
    && var o := Object(base / SC.PAGE_SIZE, SC.IndexIn(c.objSize, base, addr));
    && Used(c.slabs, o) && t == System(s.caches[i := AfterGive(c, o)], s.buddy)
  }

  /** What `kfree` does: the flag of the address's page decides between the header's cache and the buddy allocator. */
  ghost predicate Freed(s: System, addr: nat, t: System) {
    if Flagged(SlabPages(s.caches), addr / SC.PAGE_SIZE)
    then exists i: nat :: Returned(s, i, addr, t)
    else BA.Step(s.buddy, BA.Event.Free(addr / SC.PAGE_SIZE), t.buddy) && t.caches == s.caches
  }

  /**
   One call of `kmalloc`, `kfree`, or of the allocators below it, or the slab that
   `kmem_cache_init` puts into a cache at the start; only addresses that are held are freed.
   */
  ghost predicate Step(s: System, e: Event, t: System) {
    match e
    case FromCache(size, i, o, how) =>
      && i < |s.caches| == |t.caches| && Asks(s.caches[i].objSize, size) && t.caches == s.caches[i := t.caches[i]]
      && SC.Served(s.caches[i], s.buddy, o, how, t.caches[i], t.buddy)
    case FromBuddy(size, a, k) =>
      && BA.PAGE_SIZE <= size <= BA.BLOB_SIZE && BA.IsOrder(size, k)
      && t.caches == s.caches && BA.Step(s.buddy, BA.Event.Alloc(Some(a), k), t.buddy)
    case FirstSlab(i, p) =>
      && i < |s.caches| && s.caches[i].objSize > 0 && s.caches[i].slabs == map[]
      && t.caches == s.caches[i := AfterGrow(s.caches[i], p)]
      && BA.Step(s.buddy, BA.Event.Alloc(Some(p), SC.SLAB_ORDER), t.buddy)
    case Null => t == s
    case Kfree(addr) =>
      (exists h :: IsLive(s, h) && AddrOf(s, h) == addr) && Freed(s, addr, t)
  }

  /**
   `kfree` sends every address that is held back to where it came from: the same cache and object,
   or the same block.
   */
  lemma FreeRoute(n: nat, s: System, h: Handle, t: System)
    requires SystemInv(n, s) && IsLive(s, h) && Freed(s, AddrOf(s, h), t)
    ensures match h
            case Obj(i, o) => t == System(s.caches[i := AfterGive(s.caches[i], o)], s.buddy)
            case Blk(a) => t.caches == s.caches && BA.Step(s.buddy, BA.Event.Free(a), t.buddy)
  {
    match h
    case Obj(i, o) => FreeObject(n, s, i, o, t);
    case Blk(a) => BlockNotFlagged(n, s, a);
  }

  /** `kfree` of any address that is held succeeds. */
  lemma FreeSucceeds(n: nat, s: System, h: Handle)
    requires SystemInv(n, s) && IsLive(s, h)
    ensures exists t :: Freed(s, AddrOf(s, h), t)
  {
    hide SystemInv, IsLive, AddrOf, Freed;
    match h
    case Obj(i, o) => ObjectReturns(n, s, i, o);
    case Blk(a) => BlockReturns(n, s, a);
  }

  lemma ObjectReturns(n: nat, s: System, i: nat, o: Object)
    requires SystemInv(n, s) && IsLive(s, Obj(i, o))
    ensures exists t :: Freed(s, AddrOf(s, Obj(i, o)), t)
  {
    hide SystemInv, Used, SC.BlobOf, SC.IndexIn, Offset, AfterGive, AddrOf, Flagged;
    var addr := AddrOf(s, Obj(i, o));
    ObjectFlagged(n, s, i, o);
    ObjectPlace(n, s, i, o);
    var t := System(s.caches[i := AfterGive(s.caches[i], o)], s.buddy);
    assert Object(SC.BlobOf(addr) / SC.PAGE_SIZE, SC.IndexIn(s.caches[i].objSize, SC.BlobOf(addr), addr)) == o;
    assert o.page in s.caches[i].slabs by { UsedPlaced(s.caches[i].slabs, o); }
    assert Returned(s, i, addr, t);
    hide Returned;
    assert Freed(s, addr, t);
  }

  lemma UsedPlaced(slabs: map<nat, Slab>, o: Object)
    requires Used(slabs, o)
    ensures o.page in slabs
  {
  }

  lemma BlockReturns(n: nat, s: System, a: nat)
    requires SystemInv(n, s) && IsLive(s, Blk(a))
    ensures exists t :: Freed(s, AddrOf(s, Blk(a)), t)
  {
    hide SystemInv, Flagged, SlabPages;
    BlockNotFlagged(n, s, a);
    var b := BA.State(s.buddy.free + BB.Run(a, s.buddy.live[a]), s.buddy.live - {a});
    assert Freed(s, AddrOf(s, Blk(a)), System(s.caches, b));
  }

  lemma FreeObject(n: nat, s: System, i: nat, o: Object, t: System)
    requires SystemInv(n, s) && IsLive(s, Obj(i, o)) && Freed(s, AddrOf(s, Obj(i, o)), t)
    ensures t == System(s.caches[i := AfterGive(s.caches[i], o)], s.buddy)
  {
    hide SystemInv, Used, SC.BlobOf, SC.IndexIn, Offset, AfterGive;
    var addr := AddrOf(s, Obj(i, o));
    ObjectFlagged(n, s, i, o);
    ObjectPlace(n, s, i, o);
    hide AddrOf, Flagged;
    var j: nat :| Returned(s, j, addr, t);
    OneOwner(n, s, i, j, o);
  }

  lemma OneOwner(n: nat, s: System, i: nat, j: nat, o: Object)
    requires SystemInv(n, s) && i < |s.caches| && j < |s.caches|
    requires Used(s.caches[i].slabs, o) && o.page in s.caches[j].slabs
    ensures i == j
  {
    assert i != j ==> Apart(s.caches[i], s.caches[j]);
  }

  // ----- every call keeps the invariant

  /** A change to one cache and additions to the buddy allocator's live blocks. */
  lemma OthersKeep(n: nat, s: System, i: nat, t: System)
    requires SystemInv(n, s) && i < |s.caches| && |t.caches| == |s.caches| && t.caches == s.caches[i := t.caches[i]]
    requires BP.Accounted(n, t.buddy) && CacheOk(t.caches[i], t.buddy)
    requires forall p | p in s.buddy.live :: p in t.buddy.live && t.buddy.live[p] == s.buddy.live[p]
    requires forall p | p in t.caches[i].slabs :: p in s.caches[i].slabs || p !in s.buddy.live
    ensures SystemInv(n, t)
  {
    hide BP.Accounted, Inv;
    forall j | 0 <= j < |t.caches|
      ensures CacheOk(t.caches[j], t.buddy)
    {
      assert CacheOk(s.caches[j], s.buddy);
    }
    forall j | 0 <= j < |t.caches| && j != i
      ensures Apart(t.caches[i], t.caches[j]) && Apart(t.caches[j], t.caches[i])
    {
      assert CacheOk(s.caches[j], s.buddy) && Apart(s.caches[i], s.caches[j]) && Apart(s.caches[j], s.caches[i]);
    }
  }

  /** A change to the buddy allocator alone that leaves the slabs' blocks live. */
  lemma BuddyKeeps(n: nat, s: System, t: System)
    requires SystemInv(n, s) && t.caches == s.caches && BP.Accounted(n, t.buddy)
    requires forall p | p in SlabPages(s.caches) :: p in t.buddy.live && t.buddy.live[p] == SC.SLAB_ORDER
    ensures SystemInv(n, t)
  {
    hide BP.Accounted, Inv;
    forall j | 0 <= j < |t.caches|
      ensures CacheOk(t.caches[j], t.buddy)
    {
      assert CacheOk(s.caches[j], s.buddy);
      forall p | p in s.caches[j].slabs
        ensures p in t.buddy.live && t.buddy.live[p] == SC.SLAB_ORDER
      {
        assert p in SlabPages(s.caches);
      }
    }
  }

  lemma ServeKeeps(n: nat, s: System, size: nat, i: nat, o: Object, how: SC.Supply, t: System)
    requires SystemInv(n, s) && Step(s, FromCache(size, i, o, how), t)
    ensures SystemInv(n, t)
  {
    hide BP.Accounted, SC.Served, Inv;
    assert CacheOk(s.caches[i], s.buddy);
    SC.ServedKeeps(s.caches[i], s.buddy, o, how, t.caches[i], t.buddy);
    ServeAccounted(n, s, size, i, o, how, t);
    assert forall p | p in t.caches[i].slabs :: p in t.caches[i].slabs.Keys;
    OthersKeep(n, s, i, t);
  }

  lemma ServeAccounted(n: nat, s: System, size: nat, i: nat, o: Object, how: SC.Supply, t: System)
    requires BP.Accounted(n, s.buddy) && Step(s, FromCache(size, i, o, how), t)
    ensures BP.Accounted(n, t.buddy)
  {
    hide BP.Accounted, BA.Step, SC.Ready, AfterTake, CanTake;
    if how.Fresh? {
      BP.StepAccounted(n, s.buddy, BA.Event.Alloc(Some(how.page), SC.SLAB_ORDER), t.buddy);
    }
  }

  lemma SlabKeeps(n: nat, s: System, i: nat, p: nat, t: System)
    requires SystemInv(n, s) && Step(s, FirstSlab(i, p), t)
    ensures SystemInv(n, t)
  {
    hide BP.Accounted, Inv, NewSlab;
    assert CacheOk(s.caches[i], s.buddy);
    GrowKeeps(s.caches[i], p);
    BP.StepAccounted(n, s.buddy, BA.Event.Alloc(Some(p), SC.SLAB_ORDER), t.buddy);
    hide Apart, SystemInv, BB.Available;
    assert forall q | q in t.caches[i].slabs :: q == p;
    OthersKeep(n, s, i, t);
  }

  lemma BlockKeeps(n: nat, s: System, size: nat, a: nat, k: nat, t: System)
    requires SystemInv(n, s) && Step(s, FromBuddy(size, a, k), t)
    ensures SystemInv(n, t)
  {
    BP.StepAccounted(n, s.buddy, BA.Event.Alloc(Some(a), k), t.buddy);
    forall p | p in SlabPages(s.caches)
      ensures p in t.buddy.live && t.buddy.live[p] == SC.SLAB_ORDER
    {
      SlabIsBlock(n, s, p);
    }
    hide SystemInv, BP.Accounted;
    BuddyKeeps(n, s, t);
  }

  lemma FreeKeeps(n: nat, s: System, h: Handle, t: System)
    requires SystemInv(n, s) && IsLive(s, h) && Freed(s, AddrOf(s, h), t)
    ensures SystemInv(n, t)
  {
    hide Freed, AddrOf, BA.Step, AfterGive, Used, BP.Accounted, SlabPages, Inv, Apart;
    FreeRoute(n, s, h, t);
    match h
    case Obj(i, o) =>
      assert CacheOk(s.caches[i], s.buddy);
      GiveBacked(s.caches[i], s.buddy, o);
      OthersKeep(n, s, i, t);
    case Blk(a) =>
      BP.StepAccounted(n, s.buddy, BA.Event.Free(a), t.buddy);
      BlocksLeft(n, s, a, t);
      BuddyKeeps(n, s, t);
  }

  lemma GiveBacked(c: Cache, b: BA.State, o: Object)
    requires CacheOk(c, b) && Used(c.slabs, o)
    ensures CacheOk(AfterGive(c, o), b) && AfterGive(c, o).slabs.Keys == c.slabs.Keys
    ensures forall p | p in AfterGive(c, o).slabs :: p in c.slabs
    ensures AfterGive(c, o).objSize == c.objSize && InUse(AfterGive(c, o).slabs) == InUse(c.slabs) - {o}
  {
    hide Inv, InUse;
    GiveKeeps(c, o);
  }

  lemma BlocksLeft(n: nat, s: System, a: nat, t: System)
    requires SystemInv(n, s) && IsLive(s, Blk(a)) && BA.Step(s.buddy, BA.Event.Free(a), t.buddy)
    ensures forall p | p in SlabPages(s.caches) :: p in t.buddy.live && t.buddy.live[p] == SC.SLAB_ORDER
  {
    forall p | p in SlabPages(s.caches)
      ensures p in t.buddy.live && t.buddy.live[p] == SC.SLAB_ORDER
    {
      SlabIsBlock(n, s, p);
    }
  }

  /** Every call of `kmalloc` and `kfree` keeps all caches in order, backed and apart. */
  lemma StepKeeps(n: nat, s: System, e: Event, t: System)
    requires SystemInv(n, s) && Step(s, e, t)
    ensures SystemInv(n, t)
  {
    match e
    case FromCache(size, i, o, how) => ServeKeeps(n, s, size, i, o, how, t);
    case FromBuddy(size, a, k) => BlockKeeps(n, s, size, a, k, t);
    case FirstSlab(i, p) => SlabKeeps(n, s, i, p, t);
    case Null =>
    case Kfree(addr) =>
      hide SystemInv, Freed;
      var h :| IsLive(s, h) && AddrOf(s, h) == addr;
      FreeKeeps(n, s, h, t);
  }

  // ----- what callers hold

  lemma PagesAfter(s: System, i: nat, t: System, p: nat)
    requires i < |s.caches| == |t.caches| && t.caches == s.caches[i := t.caches[i]]
    ensures p in SlabPages(t.caches) ==> p in t.caches[i].slabs || p in SlabPages(s.caches)
    ensures p in SlabPages(s.caches) ==> p in s.caches[i].slabs || p in SlabPages(t.caches)
  {
    if p in SlabPages(t.caches) {
      var j :| 0 <= j < |t.caches| && p in t.caches[j].slabs;
      assert j != i ==> p in s.caches[j].slabs;
    }
    if p in SlabPages(s.caches) {
      var j :| 0 <= j < |s.caches| && p in s.caches[j].slabs;
      assert j != i ==> p in t.caches[j].slabs;
    }
  }

  /** The slab pages after one cache changed. */
  lemma SamePages(s: System, i: nat, t: System, more: set<nat>)
    requires i < |s.caches| == |t.caches| && t.caches == s.caches[i := t.caches[i]]
    requires t.caches[i].slabs.Keys == s.caches[i].slabs.Keys + more
    ensures SlabPages(t.caches) == SlabPages(s.caches) + more
  {
    forall p: nat
      ensures p in SlabPages(t.caches) <==> p in SlabPages(s.caches) || p in more
    {
      PagesAfter(s, i, t, p);
      assert p in t.caches[i].slabs <==> p in t.caches[i].slabs.Keys;
      assert p in s.caches[i].slabs <==> p in s.caches[i].slabs.Keys;
      assert p in s.caches[i].slabs ==> p in SlabPages(s.caches);
      assert p in t.caches[i].slabs ==> p in SlabPages(t.caches);
    }
  }

  /** A served request adds exactly its object to what callers hold. */
  lemma ServeHandles(n: nat, s: System, size: nat, i: nat, o: Object, how: SC.Supply, t: System, h: Handle)
    requires SystemInv(n, s) && Step(s, FromCache(size, i, o, how), t)
    ensures !IsLive(s, Obj(i, o)) && (IsLive(t, h) <==> IsLive(s, h) || h == Obj(i, o))
    ensures AddrOf(t, h) == AddrOf(s, h)
  {
    hide BP.Accounted, SC.Served, Inv, Used, Apart, SlabPages, InUse;
    assert CacheOk(s.caches[i], s.buddy);
    SC.ServedKeeps(s.caches[i], s.buddy, o, how, t.caches[i], t.buddy);
    SamePages(s, i, t, if how.Fresh? then {how.page} else {});
    SlabsInUse(s.caches[i].slabs, t.caches[i].slabs);
    LivePages(n, s);
    hide SystemInv;
    assert t.caches[i].objSize == s.caches[i].objSize;
  }

  lemma LivePages(n: nat, s: System)
    requires SystemInv(n, s)
    ensures forall p | p in SlabPages(s.caches) :: p in s.buddy.live
  {
    forall p | p in SlabPages(s.caches)
      ensures p in s.buddy.live
    {
      SlabIsBlock(n, s, p);
    }
    hide SystemInv;
  }

  lemma SlabsInUse(a: map<nat, Slab>, b: map<nat, Slab>)
    ensures forall o: Object :: o in InUse(a) <==> Used(a, o)
    ensures forall o: Object :: o in InUse(b) <==> Used(b, o)
  {
  }

  lemma BlockHandles(n: nat, s: System, size: nat, a: nat, k: nat, t: System, h: Handle)
    requires SystemInv(n, s) && Step(s, FromBuddy(size, a, k), t)
    ensures !IsLive(s, Blk(a)) && (IsLive(t, h) <==> IsLive(s, h) || h == Blk(a))
    ensures AddrOf(t, h) == AddrOf(s, h)
  {
    LivePages(n, s);
    hide SystemInv, SlabPages, Used, BB.Available;
  }

  lemma SlabHandles(n: nat, s: System, i: nat, p: nat, t: System, h: Handle)
    requires SystemInv(n, s) && Step(s, FirstSlab(i, p), t)
    ensures (IsLive(t, h) <==> IsLive(s, h)) && AddrOf(t, h) == AddrOf(s, h)
  {
    hide BP.Accounted, Inv, NewSlab, Used, Apart, SlabPages, InUse;
    assert CacheOk(s.caches[i], s.buddy);
    GrowKeeps(s.caches[i], p);
    SamePages(s, i, t, {p});
    SlabsInUse(s.caches[i].slabs, t.caches[i].slabs);
    LivePages(n, s);
    hide SystemInv, BB.Available;
  }

  /** A return takes exactly what was at its address. */
  lemma FreeHandles(n: nat, s: System, g: Handle, t: System, h: Handle)
    requires SystemInv(n, s) && IsLive(s, g) && Freed(s, AddrOf(s, g), t)
    ensures (IsLive(t, h) <==> IsLive(s, h) && h != g) && AddrOf(t, h) == AddrOf(s, h)
  {
    FreeRoute(n, s, g, t);
    hide SystemInv, Freed, SlabPages, Used, AfterGive, BA.Step, AddrOf;
    match g
    case Obj(i, o) => GiveHandles(n, s, i, o, t, h);
    case Blk(a) => ReleaseHandles(s, a, t, h);
  }

  lemma GiveHandles(n: nat, s: System, i: nat, o: Object, t: System, h: Handle)
    requires SystemInv(n, s) && IsLive(s, Obj(i, o))
    requires t == System(s.caches[i := AfterGive(s.caches[i], o)], s.buddy)
    ensures (IsLive(t, h) <==> IsLive(s, h) && h != Obj(i, o)) && AddrOf(t, h) == AddrOf(s, h)
  {
    hide Used, Inv, BP.Accounted, AfterGive, InUse;
    assert CacheOk(s.caches[i], s.buddy);
    GiveBacked(s.caches[i], s.buddy, o);
    SamePages(s, i, t, {});
    SlabsInUse(s.caches[i].slabs, t.caches[i].slabs);
    hide SlabPages, SystemInv;
  }

  lemma ReleaseHandles(s: System, a: nat, t: System, h: Handle)
    requires IsLive(s, Blk(a)) && t.caches == s.caches && BA.Step(s.buddy, BA.Event.Free(a), t.buddy)
    ensures (IsLive(t, h) <==> IsLive(s, h) && h != Blk(a)) && AddrOf(t, h) == AddrOf(s, h)
  {
    hide SlabPages, Used;
  }

  // ----- no two callers share memory

  /** The memory ends inside the blob or block that it starts in. */
  predicate Inside(s: System, h: Handle) {
    match h
    case Obj(i, o) => i < |s.caches| && s.caches[i].objSize > 0
                      && EndsInside(s.caches[i].objSize, o.page * SC.PAGE_SIZE, o.index)
    case Blk(_) => true
  }

  predicate Separate(s: System, g: Handle, h: Handle) {
    EndOf(s, g) <= AddrOf(s, h) || EndOf(s, h) <= AddrOf(s, g)
  }

  /** Only the last object of a slab can end outside its blob, and only if the object size does not fit. */
  lemma InsideUnlessLast(n: nat, s: System, i: nat, o: Object)
    requires SystemInv(n, s) && IsLive(s, Obj(i, o))
    ensures Inside(s, Obj(i, o)) <==> o.index + 1 < Total(s.caches[i].objSize) || Fits(s.caches[i].objSize)
  {
    hide SystemInv, Used, Total, Fits, EndsInside;
    ObjectSlab(n, s, i, o);
    var size, base := s.caches[i].objSize, o.page * SC.PAGE_SIZE;
    AllEndInside(size, base);
    forall j: nat | j + 1 < Total(size)
      ensures EndsInside(size, base, j)
    {
      OnlyLastOverruns(size, base, j);
    }
  }

  predicate SameCache(g: Handle, h: Handle) {
    g.Obj? && h.Obj? && g.cache == h.cache
  }

  /** The first page of the block that a handle's memory lies in. */
  function Base(h: Handle): nat {
    match h
    case Obj(_, o) => o.page
    case Blk(a) => a
  }

  lemma Extent(n: nat, s: System, h: Handle)
    requires SystemInv(n, s) && IsLive(s, h) && Inside(s, h)
    ensures var b := Base(h);
            && b in s.buddy.live && b * SC.PAGE_SIZE <= AddrOf(s, h)
            && EndOf(s, h) <= (b + Pow2(s.buddy.live[b])) * SC.PAGE_SIZE
  {
    match h
    case Obj(i, o) =>
      hide SystemInv, Used, Total, AllocSize, Offset;
      ObjectSlab(n, s, i, o);
      StartsInBlob(s.caches[i].objSize, o.page * SC.PAGE_SIZE, o.index);
      assert Pow2(4) == 16;
    case Blk(a) =>
  }

  lemma SameCacheApart(n: nat, s: System, i: nat, a: Object, b: Object)
    requires SystemInv(n, s) && IsLive(s, Obj(i, a)) && IsLive(s, Obj(i, b)) && a != b
    ensures Separate(s, Obj(i, a), Obj(i, b))
  {
    hide SystemInv, Used, Total, AllocSize, Offset;
    ObjectSlab(n, s, i, a);
    ObjectSlab(n, s, i, b);
    ObjectsDisjoint(s.caches[i].objSize, a.page * SC.PAGE_SIZE, a.index, b.page * SC.PAGE_SIZE, b.index);
  }

  lemma OtherBase(n: nat, s: System, g: Handle, h: Handle)
    requires SystemInv(n, s) && IsLive(s, g) && IsLive(s, h) && g != h && !SameCache(g, h)
    ensures Base(g) != Base(h)
  {
    match (g, h)
    case (Obj(i, a), Obj(j, b)) =>
      if a.page == b.page {
        OneOwner(n, s, i, j, a);
      }
    case (Obj(i, a), Blk(b)) => assert a.page in SlabPages(s.caches);
    case (Blk(a), Obj(i, b)) => assert b.page in SlabPages(s.caches);
    case (Blk(a), Blk(b)) =>
  }

  /**
   What two callers hold never overlaps: objects of one cache always, objects and blocks of any
   origin if each ends inside its own blob or block.
   */
  lemma HandlesApart(n: nat, s: System, g: Handle, h: Handle)
    requires SystemInv(n, s) && IsLive(s, g) && IsLive(s, h) && g != h
    requires SameCache(g, h) || (Inside(s, g) && Inside(s, h))
    ensures Separate(s, g, h)
  {
    hide IsLive, Inside, EndOf, AddrOf;
    if SameCache(g, h) {
      SameCacheApart(n, s, g.cache, g.o, h.o);
    } else {
      OtherBase(n, s, g, h);
      Extent(n, s, g);
      Extent(n, s, h);
      RunsApart(n, s.buddy, Base(g), Base(h));
      hide SystemInv, Pow2;
      Scaled(Base(g), Pow2(s.buddy.live[Base(g)]), Base(h));
      Scaled(Base(h), Pow2(s.buddy.live[Base(h)]), Base(g));
    }
  }

  lemma Scaled(a: nat, k: nat, b: nat)
    ensures a + k <= b ==> (a + k) * SC.PAGE_SIZE <= b * SC.PAGE_SIZE
  {
  }

  /** An object and the live block right behind its blob are apart exactly when the object ends inside the blob. */
  lemma BehindExact(n: nat, s: System, i: nat, o: Object)
    requires SystemInv(n, s) && IsLive(s, Obj(i, o)) && IsLive(s, Blk(o.page + SLAB_PAGES))
    ensures Separate(s, Obj(i, o), Blk(o.page + SLAB_PAGES)) <==> Inside(s, Obj(i, o))
  {
    hide SystemInv, Used, Total, AllocSize, Offset, SlabPages;
    ObjectSlab(n, s, i, o);
    StartsInBlob(s.caches[i].objSize, o.page * SC.PAGE_SIZE, o.index);
  }
}
