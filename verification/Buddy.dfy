/**
 The buddy page allocator: its static tables as the fields of one object, its operations
 as methods on them.  Descriptor allocation (`alloc_mem_block`) is taken to succeed
 without re-entering the allocator, and a block descriptor is represented by the start
 page it stores.
 */
module Buddy {
  import opened Bits
  import opened LinkedLists
  import opened BuddyBlocks
  import opened MathLib
  import opened Options

  const PAGE_SHIFT: nat := 12
  const PAGE_SIZE: nat := 4096
  const BLOB_SIZE: nat := 2048 * 4096

  /** The `p` of the merge scan: NULL, a list head, or a node. */
  datatype Cursor = Null | Head(order: nat) | Node(start: nat)

  /** The order of the smallest block that holds `size` bytes. */
  ghost predicate IsOrder(size: nat, k: nat) {
    size <= PAGE_SIZE * Pow2(k) && (k > 0 ==> PAGE_SIZE * Pow2(k - 1) < size)
  }

  lemma OrderUnique(size: nat, j: nat, k: nat)
    requires IsOrder(size, j) && IsOrder(size, k)
    ensures j == k
  {
    if j < k {
      Pow2Monotone(j, k - 1);
    } else if k < j {
      Pow2Monotone(k, j - 1);
    }
  }

  method Size2Order(size: nat) returns (order: nat)
    requires PAGE_SIZE <= size <= BLOB_SIZE
    ensures order <= MAX_ORDER && IsOrder(size, order)
  {
    Power64();
    var log := Log2Ceil(size);
    LogRange(size, log);
    order := log - PAGE_SHIFT;
  }

  lemma LogRange(size: nat, log: nat)
    requires PAGE_SIZE <= size <= BLOB_SIZE
    requires size <= Pow2(log) && (log > 0 ==> Pow2(log - 1) < size)
    ensures PAGE_SHIFT <= log <= PAGE_SHIFT + MAX_ORDER && IsOrder(size, log - PAGE_SHIFT)
  {
    assert Pow2(12) == PAGE_SIZE by { assert Pow2(6) == 64; Pow2Add(6, 6); }
    assert Pow2(23) == BLOB_SIZE by { assert Pow2(11) == 2048; Pow2Add(12, 11); }
    if log < 12 {
      Pow2Monotone(log, 12);
    } else if log > 23 {
      Pow2Monotone(23, log - 1);
    }
    Pow2Add(12, log - 12);
    if log > 12 {
      Pow2Add(12, log - 13);
    }
  }

  // ----- what a caller sees

  /** The free pages and the live blocks. */
  datatype State = State(free: set<nat>, live: map<nat, nat>)

  datatype Event = Alloc(addr: Option<nat>, order: nat) | Refuse | Free(start: nat)

  /** One request or return: NULL only when nothing is available, otherwise exactly the granted block changes hands. */
  ghost predicate Step(s: State, e: Event, t: State) {
    match e
    case Alloc(addr, order) =>
      && Granted(s.free, s.live, addr, order, t.free, t.live)
      && (addr.None? ==> forall a: nat :: !Available(s.free, a, order))
    case Refuse => t == s
    case Free(addr) =>
      && addr in s.live
      && t == State(s.free + Run(addr, s.live[addr]), s.live - {addr})
  }

  lemma DifferenceSize(s: set<nat>, t: set<nat>)
    requires t <= s
    ensures |s - t| == |s| - |t|
  {
    assert s == (s - t) + t;
  }

  class BuddyAllocator {
    const pages: array<Page>
    const lists: array<seq<nat>>
    var freePages: nat

    ghost predicate Valid()
      reads this, pages, lists
    {
      && pages as object != lists
      && Inv(pages[..], lists[..])
      && freePages == |FreePages(pages[..])|
    }

    ghost function View(): State
      reads this, pages
    {
      State(FreePages(pages[..]), Live(pages[..]))
    }

    /** `buddy_init` over `blobs` blobs, on the page table left by `pm_pages_init`. */
    constructor (blobs: nat)
      ensures Valid() && fresh(pages) && fresh(lists)
      ensures FreePages(pages[..]) == Interval(0, blobs * BLOB_PAGES) && Live(pages[..]) == map[]
    {
      pages := new Page[blobs * BLOB_PAGES](_ => INTERIOR);
      lists := new seq<nat>[MAX_ORDER + 1](_ => []);
      freePages := 0;
      new;
      var p, b := 0, 0;
      while p < pages.Length
        invariant p == b * BLOB_PAGES && b <= blobs && freePages == p
        invariant forall q: nat | q < pages.Length :: pages[q] == Initial(q, p)
        invariant forall k: nat | k < MAX_ORDER :: lists[k] == []
        invariant NoDup(lists[MAX_ORDER]) && lists[..] == lists[..][MAX_ORDER := lists[MAX_ORDER]]
        invariant forall q: nat :: q in lists[MAX_ORDER] <==> q < p && Aligned(q, MAX_ORDER)
      {
        BlobStart(b);
        pages[p] := FreeHead(p, MAX_ORDER);
        freePages := freePages + BLOB_PAGES;
        lists[MAX_ORDER] := lists[MAX_ORDER] + [p];
        p := p + BLOB_PAGES;
        b := b + 1;
      }
      BlobStart(blobs);
      InitialTiled(pages[..]);
      InitialListed(pages[..], lists[..]);
    }

    /** Joins free buddies at every order below `order`, until none are left there. */
    method MergeBlocks(order: nat)
      requires Valid() && order <= MAX_ORDER
      modifies pages, lists
      ensures Valid()
      ensures FreePages(pages[..]) == old(FreePages(pages[..])) && Live(pages[..]) == old(Live(pages[..]))
      ensures forall j: nat | j < order :: NoBuddies(pages[..], j)
      ensures forall j | order < j <= MAX_ORDER :: lists[j] == old(lists[j])
    {
      var p := Null;
      var i := 0;
      while i < order
        invariant i <= order && Valid() && forall j | order < j <= MAX_ORDER :: lists[j] == old(lists[j])
        invariant FreePages(pages[..]) == old(FreePages(pages[..])) && Live(pages[..]) == old(Live(pages[..]))
        invariant forall j: nat | j < i :: NoBuddies(pages[..], j)
        invariant p.Null? || (p.Head? && p.order < i)
      {
        if lists[i] == [] {
          assert Holds(pages[..], lists[..][i], i);
        } else {
          p := MergeLevel(i, p);
        }
        i := i + 1;
      }
    }

    /** One level of the merge: scan from the head for a block with a free buddy, join, and rescan. */
    method MergeLevel(i: nat, p0: Cursor) returns (p: Cursor)
      requires Valid() && i < MAX_ORDER && p0 != Head(i)
      requires forall j: nat | j < i :: NoBuddies(pages[..], j)
      modifies pages, lists
      ensures Valid() && p == Head(i)
      ensures FreePages(pages[..]) == old(FreePages(pages[..])) && Live(pages[..]) == old(Live(pages[..]))
      ensures forall j: nat | j <= i :: NoBuddies(pages[..], j)
      ensures forall j | i + 1 < j <= MAX_ORDER :: lists[j] == old(lists[j])
    {
      p := p0;
      while p != Head(i)
        invariant Valid() && forall j | i + 1 < j <= MAX_ORDER :: lists[j] == old(lists[j])
        invariant FreePages(pages[..]) == old(FreePages(pages[..])) && Live(pages[..]) == old(Live(pages[..]))
        invariant forall j: nat | j < i :: NoBuddies(pages[..], j)
        invariant p == Head(i) ==> NoBuddies(pages[..], i)
        decreases |lists[i]|, p != Head(i)
      {
        p := FindPair(i);
        if p.Node? {
          JoinPair(i, p.start);
        }
      }
    }

    /** `list_for_each_safe` over list `i`: stops at the first block whose buddy is free, or at the head. */
    method FindPair(i: nat) returns (p: Cursor)
      requires Valid() && i < MAX_ORDER
      ensures if p.Node? then p.start in lists[i] && Paired(pages[..], p.start, i)
              else p == Head(i) && NoBuddies(pages[..], i)
    {
      ghost var pg, fl := pages[..], lists[..];
      assert Holds(pg, fl[i], i);
      var n := 0;
      while n < |lists[i]|
        invariant n <= |lists[i]|
        invariant forall t | 0 <= t < n :: !Paired(pg, lists[i][t], i)
      {
        var block := lists[i][n];
        assert block in fl[i];
        BuddyFacts(pages.Length, block, i);
        var buddy := BuddyOf(block, pages[block].order);
        if pages[buddy].private != None && pages[buddy].order == i {
          return Node(block);
        }
        n := n + 1;
      }
      p := Head(i);
    }

    /** Joins the block at `block` with its free buddy into one block of the next order. */
    method JoinPair(i: nat, block: nat)
      requires Valid() && i < MAX_ORDER && block in lists[i] && Paired(pages[..], block, i)
      modifies pages, lists
      ensures Valid() && |lists[i]| == old(|lists[i]|) - 2
      ensures FreePages(pages[..]) == old(FreePages(pages[..])) && Live(pages[..]) == old(Live(pages[..]))
      ensures forall j: nat | j < i && NoBuddies(old(pages[..]), j) :: NoBuddies(pages[..], j)
      ensures forall j | i + 1 < j <= MAX_ORDER :: lists[j] == old(lists[j])
    {
      ghost var pg, fl := pages[..], lists[..];
      ghost var lo := Down(block, i + 1);
      JoinFacts(pg, fl, block, i);
      hide Inv, FreePages, Live, Paired, NoBuddies, Remove, Down;
      var buddy := BuddyOf(block, i);
      lists[i] := Remove(lists[i], block);
      lists[i] := Remove(lists[i], buddy);
      if block > buddy {
        pages[block] := INTERIOR;
        pages[buddy] := pages[buddy].(order := pages[buddy].order + 1);
        lists[pages[buddy].order] := [buddy] + lists[pages[buddy].order];
      } else {
        pages[buddy] := INTERIOR;
        pages[block] := pages[block].(order := pages[block].order + 1);
        lists[pages[block].order] := [block] + lists[pages[block].order];
      }
      assert pages[..] == Joined(pg, lo, i);
      assert lists[..] == JoinedLists(fl, block, buddy, lo, i);
    }

    /**
     Cuts the first block of the nearest larger order down to `target`, if there is one.  Of every
     order on the way the upper half stays behind, and larger orders are left alone.
     */
    method SplitBlocks(target: nat) returns (ghost from: nat)
      requires Valid() && target <= MAX_ORDER
      modifies pages, lists
      ensures Valid()
      ensures FreePages(pages[..]) == old(FreePages(pages[..])) && Live(pages[..]) == old(Live(pages[..]))
      ensures target < from <= MAX_ORDER + 1 && forall j: nat | target < j < from :: old(lists[j]) == []
      ensures from > MAX_ORDER ==> lists[..] == old(lists[..])
      ensures from <= MAX_ORDER ==>
                && old(lists[from]) != [] && lists[from] == old(lists[from])[1..]
                && var block := old(lists[from])[0];
                && (forall j: nat | target < j < from :: lists[j] == [block + Pow2(j)])
                && lists[target] == old(lists[target]) + [block, block + Pow2(target)]
                && (forall j: nat | j < target || from < j <= MAX_ORDER :: lists[j] == old(lists[j]))
    {
      assert lists.Length == MAX_ORDER + 1;
      hide Inv, FreePages, Live, Pow2;
      var source := target + 1;
      while source <= MAX_ORDER && lists[source] == []
        invariant target < source <= MAX_ORDER + 1
        invariant forall j: nat | target < j < source :: lists[j] == []
      {
        source := source + 1;
      }
      if source > MAX_ORDER {
        return source;
      }
      CutDown(source, target);
      from := source;
    }

    /** The loop of the split, from a non-empty list down over empty ones. */
    method CutDown(source: nat, target: nat)
      requires Valid() && target < source <= MAX_ORDER && lists[source] != []
      requires forall j: nat | target < j < source :: lists[j] == []
      modifies pages, lists
      ensures Valid()
      ensures FreePages(pages[..]) == old(FreePages(pages[..])) && Live(pages[..]) == old(Live(pages[..]))
      ensures Halved(old(lists[..]), lists[..], source, target)
    {
      assert lists.Length == MAX_ORDER + 1;
      hide Inv, FreePages, Live, Pow2, Halved;
      ghost var fl := lists[..];
      CutFirst(source);
      HalvedOnce(fl, lists[..], source);
      var order := source - 1;
      while order > target
        invariant target <= order < source && Valid() && Halved(fl, lists[..], source, order)
        invariant FreePages(pages[..]) == old(FreePages(pages[..])) && Live(pages[..]) == old(Live(pages[..]))
      {
        ghost var fl' := lists[..];
        HalvedList(fl, fl', source, order);
        CutFirst(order);
        HalvedMore(fl, fl', lists[..], source, order);
        order := order - 1;
      }
    }

    /** One step of the split: the first block of list `order` becomes two blocks of the next smaller order. */
    method CutFirst(order: nat)
      requires Valid() && 0 < order <= MAX_ORDER && lists[order] != []
      modifies pages, lists
      ensures Valid() && lists[order - 1] != []
      ensures FreePages(pages[..]) == old(FreePages(pages[..])) && Live(pages[..]) == old(Live(pages[..]))
      ensures CutOnce(old(lists[..]), lists[..], order)
    {
      ghost var pg, fl := pages[..], lists[..];
      var block := lists[order][0];
      CutListed(pg, fl, order - 1);
      CutTiled(pg, block, order - 1);
      // the order check that guards the source's panic
      assert pages[block].order == order;
      hide Inv, Tiled, Listed, FreePages, Live, Aligned, Pow2;
      lists[order] := lists[order][1..];
      var newOrder := order - 1;
      pages[block] := pages[block].(order := newOrder);
      var buddy := BuddyOf(block, newOrder);
      pages[buddy] := Page(newOrder, Some(buddy));
      lists[newOrder] := lists[newOrder] + [block];
      lists[newOrder] := lists[newOrder] + [buddy];
      assert pages[..] == Cut(pg, block, newOrder);
      assert lists[..] == CutLists(fl, block, newOrder);
    }

    /** Takes the first block of a non-empty list out of the allocator. */
    method AllocInner(order: nat) returns (addr: nat)
      requires Valid() && order <= MAX_ORDER && lists[order] != []
      modifies this, pages, lists
      ensures Valid() && Available(old(FreePages(pages[..])), addr, order)
      ensures FreePages(pages[..]) == old(FreePages(pages[..])) - Run(addr, order)
      ensures addr !in old(Live(pages[..])) && Live(pages[..]) == old(Live(pages[..]))[addr := order]
      ensures freePages == old(freePages) - Pow2(order)
      ensures addr == old(lists[order])[0] && lists[..] == old(lists[..])[order := old(lists[order])[1..]]
    {
      ghost var pg, fl := pages[..], lists[..];
      var block := lists[order][0];
      TakenListed(pg, fl, order);
      Repossessed(pg, block, order, None);
      assert pages[block].order == order;
      pages[block] := pages[block].(private := None);
      addr := block;
      lists[order] := lists[order][1..];
      assert pages[..] == pg[block := Page(order, None)];
      assert lists[..] == fl[order := fl[order][1..]];
      DifferenceSize(FreePages(pg), Run(block, order));
      freePages := freePages - Pow2(order);
    }

    method AllocNolock(size: nat) returns (addr: Option<nat>, ghost order: nat)
      requires Valid() && PAGE_SIZE <= size <= BLOB_SIZE
      modifies this, pages, lists
      ensures Valid() && order <= MAX_ORDER && IsOrder(size, order)
      ensures addr.Some? <==> exists a: nat :: Available(old(FreePages(pages[..])), a, order)
      ensures Granted(old(FreePages(pages[..])), old(Live(pages[..])), addr, order, FreePages(pages[..]),
              Live(pages[..]))
      ensures old(lists[order]) != [] ==>
                && addr == Some(old(lists[order])[0])
                && lists[..] == old(lists[..])[order := old(lists[order])[1..]]
    {
      var k := Size2Order(size);
      order := k;
      if lists[k] != [] {
        var a := AllocInner(k);
        return Some(a), k;
      }
      MergeBlocks(k);
      if lists[k] != [] {
        var a := AllocInner(k);
        return Some(a), k;
      }
      ghost var pg, fl := pages[..], lists[..];
      ghost var from := SplitBlocks(k);
      if lists[k] != [] {
        var a := AllocInner(k);
        return Some(a), k;
      }
      NoneLeft(pg, fl, k);
      return None, k;
    }

    /** `buddy_alloc`: refuses sizes outside one page .. one blob, otherwise fails only when it must. */
    method Alloc(size: nat) returns (addr: Option<nat>, ghost order: nat)
      requires Valid()
      modifies this, pages, lists
      ensures Valid()
      ensures !(PAGE_SIZE <= size <= BLOB_SIZE) ==> addr.None?
      ensures PAGE_SIZE <= size <= BLOB_SIZE ==>
                && order <= MAX_ORDER && IsOrder(size, order)
                && (addr.Some? <==> exists a: nat :: Available(old(FreePages(pages[..])), a, order))
      ensures Granted(old(FreePages(pages[..])), old(Live(pages[..])), addr, order, FreePages(pages[..]),
              Live(pages[..]))
      ensures Step(old(View()), if PAGE_SIZE <= size <= BLOB_SIZE then Event.Alloc(addr, order) else Refuse, View())
    {
      hide Inv, FreePages, Live, Available;
      if size < PAGE_SIZE || size > BLOB_SIZE {
        return None, 0;
      }
      addr, order := AllocNolock(size);
    }

    /** `buddy_free` of an allocated block: its pages, and no others, become free. */
    method Free(addr: nat)
      requires Valid() && addr in Live(pages[..])
      modifies this, pages, lists
      ensures Valid()
      ensures Run(addr, old(Live(pages[..]))[addr]) !! old(FreePages(pages[..]))
      ensures FreePages(pages[..]) == old(FreePages(pages[..])) + Run(addr, old(Live(pages[..]))[addr])
      ensures Live(pages[..]) == old(Live(pages[..])) - {addr}
      ensures Step(old(View()), Event.Free(addr), View())
      ensures var k := old(Live(pages[..]))[addr];
              k <= MAX_ORDER && lists[..] == old(lists[..])[k := [addr] + old(lists[k])]
    {
      ghost var pg, fl := pages[..], lists[..];
      var order := pages[addr].order;
      ReturnedListed(pg, fl, addr);
      Repossessed(pg, addr, order, Some(addr));
      pages[addr] := pages[addr].(private := Some(addr));
      freePages := freePages + Pow2(order);
      lists[order] := [addr] + lists[order];
      assert pages[..] == pg[addr := FreeHead(addr, order)];
      assert lists[..] == fl[order := [addr] + fl[order]];
      assert pg[addr].order == order;
    }
  }

  /** The first block of list `source` was cut down to order `k`: of every order on the way the upper half is left. */
  ghost predicate Halved(fl: seq<seq<nat>>, fl': seq<seq<nat>>, source: nat, k: nat) {
    && k < source < |fl| == |fl'| && fl[source] != [] && fl'[source] == fl[source][1..]
    && var block := fl[source][0];
    && (forall j: nat | k < j < source :: fl'[j] == [block + Pow2(j)])
    && fl'[k] == fl[k] + [block, block + Pow2(k)]
    && (forall j: nat | j < k || source < j < |fl| :: fl'[j] == fl[j])
  }

  /** The first block of list `k` was cut in two. */
  ghost predicate CutOnce(fl: seq<seq<nat>>, fl': seq<seq<nat>>, k: nat) {
    && 0 < k < |fl| == |fl'| && fl[k] != [] && fl'[k] == fl[k][1..]
    && fl'[k - 1] == fl[k - 1] + [fl[k][0], fl[k][0] + Pow2(k - 1)]
    && (forall j: nat | j < |fl| && j != k && j != k - 1 :: fl'[j] == fl[j])
  }

  lemma HalvedOnce(fl: seq<seq<nat>>, fl': seq<seq<nat>>, source: nat)
    requires CutOnce(fl, fl', source)
    ensures Halved(fl, fl', source, source - 1)
  {
  }

  lemma HalvedList(fl: seq<seq<nat>>, fl': seq<seq<nat>>, source: nat, k: nat)
    requires Halved(fl, fl', source, k)
    ensures k < |fl| == |fl'| && fl'[k] != []
  {
  }

  lemma HalvedMore(fl: seq<seq<nat>>, fl': seq<seq<nat>>, fl'': seq<seq<nat>>, source: nat, k: nat)
    requires Halved(fl, fl', source, k) && fl[k] == [] && CutOnce(fl', fl'', k)
    ensures Halved(fl, fl'', source, k - 1)
  {
    hide Pow2;
    assert fl'[k][0] == fl[source][0];
  }

  /** Joining a block with its free buddy, on values. */
  lemma JoinFacts(pg: seq<Page>, fl: seq<seq<nat>>, block: nat, i: nat)
    requires Inv(pg, fl) && i < MAX_ORDER && block in fl[i] && Paired(pg, block, i)
    ensures |fl| == MAX_ORDER + 1 && block < |pg| && pg[block] == FreeHead(block, i)
    ensures var b, lo := BuddyOf(block, i), Down(block, i + 1); var hi := lo + Pow2(i);
            && b < |pg| && pg[b] == FreeHead(b, i) && hi < |pg|
            && ((lo == block && b == hi) || (lo == b && block == hi))
            && var pg', fl' := Joined(pg, lo, i), JoinedLists(fl, block, b, lo, i);
            && Inv(pg', fl') && FreePages(pg') == FreePages(pg) && Live(pg') == Live(pg)
            && |fl'[i]| == |fl[i]| - 2
            && forall j: nat | j < i && NoBuddies(pg, j) :: NoBuddies(pg', j)
  {
    assert Holds(pg, fl[i], i);
    hide Holds, FreePages, Live, NoBuddies, Down, Pow2, Joined, JoinedLists;
    JoinedListed(pg, fl, block, i);
    BuddyFacts(|pg|, block, i);
    var lo := Down(block, i + 1);
    JoinedTiled(pg, lo, i);
    hide Tiled, Listed, Aligned;
    forall j: nat | j < i && NoBuddies(pg, j)
      ensures NoBuddies(Joined(pg, lo, i), j)
    {
      JoinedNoBuddies(pg, lo, i, j);
    }
  }

  /** What a request may do to the allocator: hand out an available run as a new live block, or nothing. */
  ghost predicate Granted(free: set<nat>, live: map<nat, nat>, addr: Option<nat>, order: nat,
                          free': set<nat>, live': map<nat, nat>)
  {
    match addr
    case None => free' == free && live' == live
    case Some(a) => Available(free, a, order) && free' == free - Run(a, order)
                    && a !in live && live' == live[a := order]
  }

  /** With every list from `k` up empty and no buddies below, nothing of order `k` is available. */
  lemma NoneLeft(pg: seq<Page>, fl: seq<seq<nat>>, k: nat)
    requires Inv(pg, fl) && k <= MAX_ORDER
    requires forall j: nat | j < k :: NoBuddies(pg, j)
    requires forall j: nat | k <= j <= MAX_ORDER :: fl[j] == []
    ensures forall a: nat :: !Available(FreePages(pg), a, k)
  {
    forall j: nat, h: nat | k <= j <= MAX_ORDER && h < |pg|
      ensures pg[h] != FreeHead(h, j)
    {
      assert Holds(pg, fl[j], j);
    }
    forall a: nat | Available(FreePages(pg), a, k)
      ensures false
    {
      Completeness(pg, a, k);
    }
  }
}
