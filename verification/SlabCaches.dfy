/**
 `slab.c`: a cache of equal objects in 64 KB blobs taken from the buddy allocator.  The
 object is `struct kmem_cache`; its lock is held throughout each method, and the
 allocator below does not re-enter it.  Addresses are bytes from the buddy base.
 */
module SlabCaches {
  import opened Bits
  import opened LinkedLists
  import opened Options
  import opened Bitmap
  import opened SlabLayout
  import opened SlabSpec
  import BB = BuddyBlocks
  import BA = Buddy

  const PAGE_SIZE: nat := 4096
  const SLAB_ORDER: nat := 4
  const ENOMEM: int := 12

  /** Every slab's blob is a block the buddy allocator has handed out. */
  ghost predicate Backed(slabs: map<nat, Slab>, live: map<nat, nat>) {
    forall p | p in slabs :: p in live && live[p] == SLAB_ORDER
  }

  function AddressOf(objSize: nat, o: Object): nat
    requires objSize > 0
  {
    Address(objSize, o.page * PAGE_SIZE, o.index)
  }

  /** `SLAB_ALIGN_DOWN`. */
  function BlobOf(addr: nat): nat {
    addr - addr % BLOB
  }

  /** The index `slab_free` computes for an address in the slab at `base`. */
  function IndexIn(objSize: nat, base: nat, addr: nat): nat
    requires objSize > 0 && base + Offset(objSize) <= addr
  {
    Quotient(addr - base - Offset(objSize), AllocSize(objSize))
  }

  function Quotient(x: nat, d: nat): nat
    requires d > 0
  {
    x / d
  }

  lemma BlobOrder(size: nat, k: nat)
    requires size == BLOB
    ensures BA.IsOrder(size, k) <==> k == SLAB_ORDER
  {
    assert Pow2(4) == 16 && Pow2(3) == 8;
    if BA.IsOrder(size, k) {
      BA.OrderUnique(size, k, SLAB_ORDER);
    }
  }

  /** Blocks of the buddy allocator start at multiples of the blob size. */
  lemma BlobStart(pg: seq<BB.Page>, p: nat)
    requires BB.Tiled(pg) && p in BB.Live(pg) && BB.Live(pg)[p] == SLAB_ORDER
    ensures p * PAGE_SIZE % BLOB == 0
  {
    BlobAligned(p);
  }

  lemma BlobAligned(p: nat)
    requires Aligned(p, SLAB_ORDER)
    ensures p * PAGE_SIZE % BLOB == 0
  {
    assert Pow2(4) == 16;
    DownIsMod(p, SLAB_ORDER);
  }

  /** `buddy_alloc(SLAB_BLOB_SIZE)`. */
  method NewBlob(buddy: BA.BuddyAllocator) returns (page: Option<nat>)
    requires buddy.Valid()
    modifies buddy, buddy.pages, buddy.lists
    ensures buddy.Valid()
    ensures page.Some? <==> exists a: nat :: BB.Available(old(BB.FreePages(buddy.pages[..])), a, SLAB_ORDER)
    ensures BA.Step(old(buddy.View()), BA.Event.Alloc(page, SLAB_ORDER), buddy.View())
    ensures page.None? ==> BB.FreePages(buddy.pages[..]) == old(BB.FreePages(buddy.pages[..]))
                           && BB.Live(buddy.pages[..]) == old(BB.Live(buddy.pages[..]))
    ensures page.Some? ==>
              && page.value !in old(BB.Live(buddy.pages[..]))
              && BB.FreePages(buddy.pages[..]) == old(BB.FreePages(buddy.pages[..])) - BB.Run(page.value, SLAB_ORDER)
              && BB.Live(buddy.pages[..]) == old(BB.Live(buddy.pages[..]))[page.value := SLAB_ORDER]
  {
    hide BA.BuddyAllocator.Valid, BB.Live, BB.FreePages, BB.Available;
    ghost var order;
    page, order := buddy.Alloc(BLOB);
    assert BA.PAGE_SIZE <= BLOB <= BA.BLOB_SIZE;
    BlobOrder(BLOB, order);
  }

  /** A request takes at most one blob from the buddy allocator, and makes exactly that one a slab. */
  ghost predicate Grown(keys: set<nat>, free: set<nat>, live: map<nat, nat>, grown: Option<nat>,
                        keys': set<nat>, free': set<nat>, live': map<nat, nat>)
  {
    match grown
    case None => keys' == keys && free' == free && live' == live
    case Some(p) => p !in live && keys' == keys + {p}
                    && free' == free - BB.Run(p, SLAB_ORDER) && live' == live[p := SLAB_ORDER]
  }

  /** What a request did before it took its object: nothing, put a spare slab back, or added a slab. */
  datatype Supply = InService | Reused | Fresh(page: nat)

  function Page(how: Supply): Option<nat> {
    if how.Fresh? then Some(how.page) else None
  }

  /** The cache that the object is taken from. */
  function Ready(c: Cache, how: Supply): Cache
    requires c.objSize > 0
  {
    match how
    case InService => c
    case Reused => if c.spare != [] && c.spare[0] in c.slabs then AfterReuse(c) else c
    case Fresh(p) => AfterGrow(c, p)
  }

  /** The low-water test, and what the buddy allocator saw of it. */
  ghost predicate Supplied(c: Cache, b: BA.State, how: Supply, b': BA.State)
    requires c.objSize > 0
  {
    match how
    case InService => b' == b && (c.free < Total(c.objSize) ==> c.spare == [] && NoBlob(b))
    case Reused => c.free < Total(c.objSize) && c.spare != [] && c.spare[0] in c.slabs && b' == b
    case Fresh(p) =>
      && c.free < Total(c.objSize) && c.spare == [] && p !in c.slabs
      && BA.Step(b, BA.Event.Alloc(Some(p), SLAB_ORDER), b')
  }

  /** The buddy allocator has no aligned run for a slab. */
  ghost predicate NoBlob(b: BA.State) {
    forall a: nat :: !BB.Available(b.free, a, SLAB_ORDER)
  }

  /** One request served: what it did to the cache and to the buddy allocator. */
  ghost predicate Served(c: Cache, b: BA.State, o: Object, how: Supply, c': Cache, b': BA.State) {
    && c.objSize > 0 && Supplied(c, b, how, b')
    && var mid := Ready(c, how);
    && CanTake(mid) && o.page == mid.partial[0]
    && var s := mid.slabs[o.page];
    && o.index in ClearBits(s.bm, s.total) && (forall j: nat | j < o.index :: Get(s.bm, s.total, j))
    && c' == AfterTake(mid, o.index)
  }

  /** A request served keeps the cache in order, backs it, and brings exactly its object into use. */
  lemma ServedKeeps(c: Cache, b: BA.State, o: Object, how: Supply, c': Cache, b': BA.State)
    requires Inv(c) && Backed(c.slabs, b.live) && Served(c, b, o, how, c', b')
    ensures Inv(c') && Backed(c'.slabs, b'.live) && c'.objSize == c.objSize
    ensures o !in InUse(c.slabs) && InUse(c'.slabs) == InUse(c.slabs) + {o}
    ensures if how.Fresh?
            then how.page !in b.live && b'.live == b.live[how.page := SLAB_ORDER]
                && c'.slabs.Keys == c.slabs.Keys + {how.page}
            else b' == b && c'.slabs.Keys == c.slabs.Keys
  {
    hide Inv, InUse, Total, ClearBits, Set, Ready, AfterTake, CanTake, Backed;
    var mid := Ready(c, how);
    ReadyKeeps(c, how);
    MidTotal(mid);
    TakeFirst(mid, o);
    StillBacked(c, b, how, c', b');
  }

  lemma TakeFirst(c: Cache, o: Object)
    requires Inv(c) && CanTake(c) && o.page == c.partial[0] && c.slabs[o.page].total == Total(c.objSize)
    requires o.index in ClearBits(c.slabs[o.page].bm, c.slabs[o.page].total)
    ensures var c' := AfterTake(c, o.index);
            && Inv(c') && c'.objSize == c.objSize && c'.slabs.Keys == c.slabs.Keys
            && o !in InUse(c.slabs) && InUse(c'.slabs) == InUse(c.slabs) + {o}
  {
    hide Inv, InUse, Total, ClearBits, Set;
    TakeKeeps(c, o.index);
    TakeKeys(c, o.index);
    assert Object(c.partial[0], o.index) == o;
  }

  lemma StillBacked(c: Cache, b: BA.State, how: Supply, c': Cache, b': BA.State)
    requires Backed(c.slabs, b.live) && c.objSize > 0 && Supplied(c, b, how, b')
    requires c'.slabs.Keys == if how.Fresh? then c.slabs.Keys + {how.page} else c.slabs.Keys
    ensures Backed(c'.slabs, b'.live)
    ensures how.Fresh? ==> how.page !in b.live && b'.live == b.live[how.page := SLAB_ORDER]
  {
    hide BB.Available;
    forall p | p in c'.slabs
      ensures p in b'.live && b'.live[p] == SLAB_ORDER
    {
      assert p in c'.slabs.Keys;
      assert p in c.slabs.Keys ==> p in c.slabs;
    }
  }

  lemma ReadyKeeps(c: Cache, how: Supply)
    requires Inv(c) && (how.Fresh? ==> how.page !in c.slabs)
    ensures var mid := Ready(c, how);
            && Inv(mid) && mid.objSize == c.objSize && InUse(mid.slabs) == InUse(c.slabs)
            && mid.slabs.Keys == if how.Fresh? then c.slabs.Keys + {how.page} else c.slabs.Keys
  {
    match how
    case InService =>
    case Reused =>
      if c.spare != [] {
        ReuseKeeps(c);
      }
    case Fresh(p) =>
      hide Inv, InUse, NewSlab, Total;
      GrowKeeps(c, p);
  }

  lemma MidTotal(c: Cache)
    requires Inv(c) && CanTake(c)
    ensures c.slabs[c.partial[0]].total == Total(c.objSize)
  {
    hide Total, Sorted, Counted;
    assert SlabOk(c.objSize, c.slabs[c.partial[0]]);
  }

  lemma TakeKeys(c: Cache, i: nat)
    requires CanTake(c)
    ensures AfterTake(c, i).slabs.Keys == c.slabs.Keys && AfterTake(c, i).objSize == c.objSize
  {
    hide Set;
  }

  class SlabCache {
    const objSize: nat
    const low: nat
    const buddy: BA.BuddyAllocator
    var total: nat
    var free: nat
    var partial: seq<nat>
    var full: seq<nat>
    var spare: seq<nat>
    var slabs: map<nat, Slab>

    ghost function Snapshot(): Cache
      reads this
    {
      Cache(objSize, total, free, partial, full, spare, slabs)
    }

    ghost predicate Valid()
      reads this, buddy, buddy.pages, buddy.lists
    {
      && buddy.Valid() && Inv(Snapshot())
      && Sized(objSize) && low == Total(objSize)
      && Backed(slabs, BB.Live(buddy.pages[..]))
    }

    ghost function Free(): set<nat>
      reads buddy, buddy.pages
    {
      BB.FreePages(buddy.pages[..])
    }

    ghost function Live(): map<nat, nat>
      reads buddy, buddy.pages
    {
      BB.Live(buddy.pages[..])
    }

    /** `kmem_cache_init` without the initial slab. */
    constructor (objSize: nat, buddy: BA.BuddyAllocator)
      requires Sized(objSize) && buddy.Valid()
      ensures Valid() && this.objSize == objSize && this.buddy == buddy
      ensures slabs == map[] && total == 0 && free == 0
    {
      this.objSize := objSize;
      this.buddy := buddy;
      low := ObjectNum(AllocSize(objSize));
      total := 0;
      free := 0;
      partial := [];
      full := [];
      spare := [];
      slabs := map[];
      new;
      assert Times(0, Total(objSize)) == 0;
    }

    /** A new slab from the buddy allocator, initialised and put into service. */
    method Expand() returns (page: Option<nat>)
      requires Valid()
      modifies this, buddy, buddy.pages, buddy.lists
      ensures Valid()
      ensures page.Some? <==> exists a: nat :: BB.Available(old(Free()), a, SLAB_ORDER)
      ensures page.None? ==> Snapshot() == old(Snapshot()) && Free() == old(Free()) && Live() == old(Live())
      ensures page.Some? ==>
                && page.value !in old(Live()) && Snapshot() == AfterGrow(old(Snapshot()), page.value)
                && InUse(slabs) == InUse(old(slabs))
                && Free() == old(Free()) - BB.Run(page.value, SLAB_ORDER)
                && Live() == old(Live())[page.value := SLAB_ORDER]
                && partial == old(partial) + [page.value] && full == old(full) && spare == old(spare)
                && total == old(total) + Total(objSize) && free == old(free) + Total(objSize)
      ensures BA.Step(old(buddy.View()), BA.Event.Alloc(page, SLAB_ORDER), buddy.View())
    {
      hide Inv, BA.BuddyAllocator.Valid, BB.Live, BB.FreePages, BB.Available, Total, NewSlab, InUse;
      ghost var before := Free();
      page := NewBlob(buddy);
      assert page.Some? <==> exists a: nat :: BB.Available(before, a, SLAB_ORDER);
      if page.None? {
        return;
      }
      var p := page.value;
      assert p !in slabs;
      GrowKeeps(Snapshot(), p);
      slabs := slabs[p := NewSlab(objSize)];
      partial := partial + [p];
      total := total + Total(objSize);
      free := free + Total(objSize);
      assert Snapshot() == AfterGrow(old(Snapshot()), p);
    }

    /**
     `kmem_cache_alloc_nolock`.  It fails exactly when no object is free, no spare slab is left
     and the buddy allocator has no blob; otherwise one object that was not in use comes into use.
     */
    method Alloc() returns (mem: Option<nat>, ghost o: Object, ghost how: Supply)
      requires Valid()
      modifies this, buddy, buddy.pages, buddy.lists
      ensures Valid()
      ensures mem.None? <==> old(free) == 0 && old(spare) == []
                             && !exists a: nat :: BB.Available(old(Free()), a, SLAB_ORDER)
      ensures mem.None? ==> Snapshot() == old(Snapshot()) && Free() == old(Free()) && Live() == old(Live())
      ensures mem.Some? ==>
                && mem.value == AddressOf(objSize, o) && o !in InUse(old(slabs))
                && InUse(slabs) == InUse(old(slabs)) + {o}
      ensures mem.Some? ==> Served(old(Snapshot()), old(buddy.View()), o, how, Snapshot(), buddy.View())
      ensures how.Reused? <==> old(free) < low && old(spare) != []
      ensures how.Fresh? <==>
                old(free) < low && old(spare) == [] && exists a: nat :: BB.Available(old(Free()), a, SLAB_ORDER)
      ensures Grown(old(slabs.Keys), old(Free()), old(Live()), Page(how), slabs.Keys, Free(), Live())
    {
      hide Inv, BA.BuddyAllocator.Valid, InUse, Total, ClearBits, CanTake, BB.Live, BB.FreePages, BB.Available;
      hide Grown, Supplied, Ready;
      how := Refill();
      if free == 0 {
        return None, Object(0, 0), how;
      }
      mem, o := Take();
      hide AfterTake;
      assert Served(old(Snapshot()), old(buddy.View()), o, how, Snapshot(), buddy.View());
    }

    /** The low-water test: when objects run low, a spare slab is reused or a new one added if there is any. */
    method Refill() returns (ghost how: Supply)
      requires Valid()
      modifies this, buddy, buddy.pages, buddy.lists
      ensures Valid() && Snapshot() == Ready(old(Snapshot()), how) && InUse(slabs) == InUse(old(slabs))
      ensures free == 0 <==> old(free) == 0 && old(spare) == []
                             && !exists a: nat :: BB.Available(old(Free()), a, SLAB_ORDER)
      ensures Supplied(old(Snapshot()), old(buddy.View()), how, buddy.View())
      ensures how.Reused? <==> old(free) < low && old(spare) != []
      ensures how.Fresh? <==>
                old(free) < low && old(spare) == [] && exists a: nat :: BB.Available(old(Free()), a, SLAB_ORDER)
      ensures free == 0 ==> Snapshot() == old(Snapshot()) && Free() == old(Free()) && Live() == old(Live())
      ensures Grown(old(slabs.Keys), old(Free()), old(Live()), Page(how), slabs.Keys, Free(), Live())
    {
      hide Inv, BA.BuddyAllocator.Valid, InUse, Total, BB.Live, BB.FreePages, BB.Available;
      how := InService;
      if free < low {
        if spare != [] {
          Reuse();
          how := Reused;
        } else {
          var page := Expand();
          if page.Some? {
            how := Fresh(page.value);
          }
        }
      }
    }

    /** The first spare slab moves to the partial list. */
    method Reuse()
      requires Valid() && spare != []
      modifies this
      ensures old(spare[0]) in old(slabs) && Valid() && free > 0 && Snapshot() == AfterReuse(old(Snapshot()))
      ensures partial == [old(spare)[0]] + old(partial) && spare == old(spare)[1..] && full == old(full)
      ensures free == old(free) + slabs[old(spare)[0]].free && total == old(total) + slabs[old(spare)[0]].total
    {
      hide BA.BuddyAllocator.Valid, BB.Live, Inv, Total;
      ReuseKeeps(Snapshot());
      var s := slabs[spare[0]];
      partial := [spare[0]] + partial;
      spare := spare[1..];
      total := total + s.total;
      free := free + s.free;
    }

    /** `slab_alloc` from the first partial slab. */
    method Take() returns (mem: Option<nat>, ghost o: Object)
      requires Valid() && free > 0
      modifies this
      ensures Valid() && mem == Some(AddressOf(objSize, o)) && slabs.Keys == old(slabs.Keys)
      ensures CanTake(old(Snapshot())) && Snapshot() == AfterTake(old(Snapshot()), o.index)
      ensures o.page == old(partial)[0] && free == old(free) - 1 && total == old(total) && spare == old(spare)
      ensures if old(slabs)[o.page].free == 1 then partial == old(partial)[1..] && full == [o.page] + old(full)
              else partial == old(partial) && full == old(full)
      ensures var s := old(slabs)[o.page];
              o.index in ClearBits(s.bm, s.total) && forall j: nat | j < o.index :: Get(s.bm, s.total, j)
      ensures o !in InUse(old(slabs)) && InUse(slabs) == InUse(old(slabs)) + {o}
    {
      hide BA.BuddyAllocator.Valid, BB.Live, Inv, Total, SlabOk, InUse;
      RoomInFront(Snapshot());
      SearchEnds(objSize, slabs[partial[0]]);
      SlabSize(objSize, slabs[partial[0]]);
      hide Bit, Set;
      var page := partial[0];
      var s := slabs[page];
      slabs := slabs[page := s.(free := s.free - 1)];
      if s.free == 1 {
        partial := partial[1..];
        full := [page] + full;
      }
      var idx := FindNextClear(s.bm, s.total, 0);
      // the panic on broken metadata
      assert idx < s.total;
      TakeKeeps(old(Snapshot()), idx);
      slabs := slabs[page := slabs[page].(bm := Set(s.bm, s.total, idx))];
      free := free - 1;
      o := Object(page, idx);
      assert Snapshot() == AfterTake(old(Snapshot()), idx);
      mem := Some(Address(objSize, page * PAGE_SIZE, idx));
    }

    /**
     `kmem_cache_free` of any object of the cache.  An object in use is returned.  For one that
     is not, only the cache's counter goes up, and the cache is no longer in a valid state.
     */
    method Give(addr: nat, ghost o: Object)
      requires Valid() && Placed(slabs, o) && addr == AddressOf(objSize, o)
      modifies this
      ensures Used(old(slabs), o) <==> Valid()
      ensures Used(old(slabs), o) ==>
                && InUse(slabs) == InUse(old(slabs)) - {o} && Snapshot() == AfterGive(old(Snapshot()), o)
                && free == old(free) + 1 && total == old(total) && spare == old(spare)
                && if old(slabs)[o.page].free == 0
                   then partial == [o.page] + old(partial) && full == Remove(old(full), o.page)
                   else partial == old(partial) && full == old(full)
      ensures !Used(old(slabs), o) ==> Snapshot() == old(Snapshot()).(free := old(free) + 1)
    {
      hide Inv, InUse, Used, Bit, Backed, Remove, AddressOf, Offset, Total, BB.Tiled, BB.Listed, BB.Live, BB.FreePages;
      GiveReady(Snapshot(), buddy.pages[..], o);
      hide BA.BuddyAllocator.Valid;
      var page, idx := Find(addr, o);
      var s := slabs[page];
      if !Get(s.bm, s.total, idx) {
        DoubleReturn(Snapshot());
        free := free + 1;
        assert Snapshot() == old(Snapshot()).(free := old(free) + 1);
        return;
      }
      // the panic on a broken counter
      assert s.free != s.total;
      if s.free == 0 {
        full, partial := Remove(full, page), [page] + partial;
      }
      slabs, free := slabs[page := Slab(s.total, s.free + 1, Bitmap.Clear(s.bm, s.total, idx))], free + 1;
      assert Snapshot() == AfterGive(old(Snapshot()), o);
    }

    /** The head of `slab_free`: slab and index of an address, with the checks that would panic. */
    method Find(addr: nat, ghost o: Object) returns (page: nat, idx: nat)
      requires Valid() && Placed(slabs, o) && addr == AddressOf(objSize, o)
      ensures page == o.page && idx == o.index
    {
      hide Inv, Offset, Total, AddressOf, BlobOf, IndexIn, InUse, Used, Bit, Get;
      hide BB.Tiled, BB.Listed, BB.Live, BB.FreePages;
      GiveReady(Snapshot(), buddy.pages[..], o);
      hide BA.BuddyAllocator.Valid, Backed, AfterGive;
      var base := BlobOf(addr);
      page := base / PAGE_SIZE;
      var s := slabs[page];
      assert base + Offset(objSize) <= addr;
      idx := IndexIn(objSize, base, addr);
      assert idx < s.total;
    }

    /** `kmem_cache_flush`; below the high-water mark it returns with its lock still held. */
    method Flush() returns (released: bool)
      requires Valid()
      modifies this
      ensures Snapshot() == AfterFlush(old(Snapshot())) && released == (old(free) >= 2 * low)
    {
      hide Inv, BA.BuddyAllocator.Valid, BB.Live, Backed, Total, Remove, Kept, MovedOnto, NoDup, Empty;
      if free < 2 * low {
        return false;
      }
      ghost var before := Snapshot();
      PartialOnce(before);
      var list := partial;
      FlushStart(slabs, list, spare);
      for i := 0 to |list|
        invariant partial == Kept(slabs, list[..i]) + list[i..] && spare == MovedOnto(slabs, list[..i], before.spare)
        invariant Snapshot() == before.(partial := partial, spare := spare)
      {
        FlushStep(slabs, list, i, before.spare);
        if Empty(slabs, list[i]) {
          partial, spare := Remove(partial, list[i]), [list[i]] + spare;
        }
      }
      assert list[..|list|] == list && list[|list|..] == [];
      assert partial == Kept(slabs, list);
      released := true;
    }
  }

  lemma PartialOnce(c: Cache)
    requires Inv(c)
    ensures NoDup(c.partial)
  {
  }

  lemma FlushStart(slabs: map<nat, Slab>, list: seq<nat>, spare: seq<nat>)
    ensures Kept(slabs, list[..0]) + list[0..] == list && MovedOnto(slabs, list[..0], spare) == spare
  {
  }

  lemma FlushStep(slabs: map<nat, Slab>, list: seq<nat>, i: nat, spare: seq<nat>)
    requires i < |list| && NoDup(list)
    ensures var p := list[i];
            var kept, kept' := Kept(slabs, list[..i]) + list[i..], Kept(slabs, list[..i + 1]) + list[i + 1..];
            var done, done' := MovedOnto(slabs, list[..i], spare), MovedOnto(slabs, list[..i + 1], spare);
            if Empty(slabs, p) then kept' == Remove(kept, p) && done' == [p] + done else kept' == kept && done' == done
  {
    var kept := Kept(slabs, list[..i]);
    KeptMembers(slabs, list[..i], list[i]);
    RemoveMiddle(kept, list[i], list[i + 1..]);
    assert list[..i + 1][..i] == list[..i] && list[i..] == [list[i]] + list[i + 1..];
    assert kept + [list[i]] + list[i + 1..] == kept + list[i..];
    assert kept + [] == kept;
  }

  /** `kmem_cache_init`. */
  method KmemCacheInit(objSize: nat, buddy: BA.BuddyAllocator, withInitial: bool)
    returns (cache: SlabCache, ret: int)
    requires Sized(objSize) && buddy.Valid()
    modifies buddy, buddy.pages, buddy.lists
    ensures fresh(cache) && cache.Valid() && cache.objSize == objSize && cache.buddy == buddy
    ensures ret == 0 || ret == -ENOMEM
    ensures ret == -ENOMEM <==>
              withInitial && !exists a: nat :: BB.Available(old(BB.FreePages(buddy.pages[..])), a, SLAB_ORDER)
    ensures InUse(cache.slabs) == {} && cache.free == cache.total
    ensures cache.total == (if withInitial && ret == 0 then Total(objSize) else 0)
  {
    hide Total, InUse, BB.FreePages, BB.Live, BB.Available, Inv, BA.BuddyAllocator.Valid;
    cache := new SlabCache(objSize, buddy);
    NoObjects(cache.slabs);
    ret := 0;
    if withInitial {
      var page := cache.Expand();
      if page.None? {
        ret := -ENOMEM;
      }
    }
  }

  lemma NoObjects(slabs: map<nat, Slab>)
    requires slabs == map[]
    ensures InUse(slabs) == {}
  {
  }

  /** What `Give` finds and leaves. */
  lemma GiveReady(c: Cache, pg: seq<BB.Page>, o: Object)
    requires Inv(c) && BB.Tiled(pg) && Backed(c.slabs, BB.Live(pg)) && Placed(c.slabs, o)
    ensures var s := c.slabs[o.page]; s.total <= 8 * |s.bm| && (Used(c.slabs, o) <==> Get(s.bm, s.total, o.index))
    ensures var addr := AddressOf(c.objSize, o); var base := BlobOf(addr);
            && base == o.page * PAGE_SIZE && base + Offset(c.objSize) <= addr
            && IndexIn(c.objSize, base, addr) == o.index
    ensures Used(c.slabs, o) ==>
              && c.slabs[o.page].free < c.slabs[o.page].total
              && Inv(AfterGive(c, o)) && Backed(AfterGive(c, o).slabs, BB.Live(pg))
              && InUse(AfterGive(c, o).slabs) == InUse(c.slabs) - {o}
  {
    Located(c, pg, o);
    if Used(c.slabs, o) {
      GivenFree(c, o);
      hide Inv, BB.Live, InUse, Offset, AddressOf, BlobOf, IndexIn;
      GiveKeeps(c, o);
    }
  }

  lemma GivenFree(c: Cache, o: Object)
    requires Inv(c) && Used(c.slabs, o)
    ensures c.slabs[o.page].free < c.slabs[o.page].total
  {
    hide Total, Sorted, Counted;
    GivenSlabOk(c.objSize, c.slabs[o.page], o.index);
  }

  lemma InPage(at: nat, p: nat)
    requires p * PAGE_SIZE <= at < p * PAGE_SIZE + BLOB
    ensures p <= at / PAGE_SIZE < p + SLAB_PAGES
  {
  }

  lemma AddressPlace(size: nat, o: Object)
    requires Sized(size) && o.index < Total(size) && o.page * PAGE_SIZE % BLOB == 0
    ensures var addr := AddressOf(size, o);
            && BlobOf(addr) == o.page * PAGE_SIZE && BlobOf(addr) + Offset(size) <= addr
            && IndexIn(size, BlobOf(addr), addr) == o.index
            && o.page <= addr / PAGE_SIZE < o.page + SLAB_PAGES
  {
    hide Total, Offset, AllocSize, Address;
    StartsInBlob(size, o.page * PAGE_SIZE, o.index);
    InPage(AddressOf(size, o), o.page);
  }

  /** The address of an object leads back to its slab and its index. */
  lemma Located(c: Cache, pg: seq<BB.Page>, o: Object)
    requires Inv(c) && BB.Tiled(pg) && Backed(c.slabs, BB.Live(pg)) && Placed(c.slabs, o)
    ensures var s := c.slabs[o.page]; s.total <= 8 * |s.bm|
    ensures var addr := AddressOf(c.objSize, o); var base := BlobOf(addr);
            && base == o.page * PAGE_SIZE && base + Offset(c.objSize) <= addr
            && IndexIn(c.objSize, base, addr) == o.index
  {
    hide Total, Sorted, Counted;
    var s := c.slabs[o.page];
    assert SlabOk(c.objSize, s);
    SlabSize(c.objSize, s);
    hide SlabOk, BB.Live, BB.Tiled, Sized;
    BlobStart(pg, o.page);
    AddressPlace(c.objSize, o);
  }

  /**
   Objects in use at the same time do not overlap, and each starts past its own slab's
   metadata; this holds for every object size.  Each ends inside its blob if it fits.
   */
  lemma LiveObjectsApart(c: Cache, pg: seq<BB.Page>, a: Object, b: Object)
    requires Inv(c) && BB.Tiled(pg) && Backed(c.slabs, BB.Live(pg))
    requires a in InUse(c.slabs) && b in InUse(c.slabs) && a != b
    ensures AddressOf(c.objSize, a) + AllocSize(c.objSize) <= AddressOf(c.objSize, b)
         || AddressOf(c.objSize, b) + AllocSize(c.objSize) <= AddressOf(c.objSize, a)
    ensures a.page * PAGE_SIZE + HEADER + BitmapSize(Total(c.objSize)) <= AddressOf(c.objSize, a)
    ensures Fits(c.objSize) ==>
              AddressOf(c.objSize, a) + AllocSize(c.objSize) <= (a.page + SLAB_PAGES) * PAGE_SIZE
  {
    hide Sorted, Counted, Total;
    assert SlabOk(c.objSize, c.slabs[a.page]) && SlabOk(c.objSize, c.slabs[b.page]);
    SlabSize(c.objSize, c.slabs[a.page]);
    SlabSize(c.objSize, c.slabs[b.page]);
    BlobStart(pg, a.page);
    BlobStart(pg, b.page);
    hide SlabOk, BB.Live, BB.Tiled, Fits;
    var pa, pb := a.page * PAGE_SIZE, b.page * PAGE_SIZE;
    ObjectsDisjoint(c.objSize, pa, a.index, pb, b.index);
    StartsInBlob(c.objSize, pa, a.index);
    if Fits(c.objSize) {
      AllEndInside(c.objSize, pa);
      assert EndsInside(c.objSize, pa, a.index);
    }
  }
}
