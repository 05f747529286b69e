/**
 `pagetable.c` on physical memory: the allocating walk, mapping, unmapping and teardown
 of a three-level page table, proved against the flat map of PageTableSpec.  `kzalloc` is
 taken to succeed with a fresh zeroed page.
 */
module PageTable {
  import opened Bits
  import opened LinkedLists
  import opened PageTableSpec
  import opened PageTableTeardown

  const EINVAL: int := 22
  const ERANGE: int := 34
  const EADDRINUSE: int := 98

  /** A pointer to a page table entry. */
  datatype Slot = Null | Slot(page: nat, index: nat)

  // ----- address arithmetic on 64 bits

  /** The address `i` pages after `va`, as `va + i * PAGE_SIZE` computes it. */
  function At(va: nat, i: nat): nat {
    (va + i * PAGE_SIZE) % U64
  }

  /** None of the first `k` pages from `va` is the page of `vb`. */
  ghost predicate Untouched(va: nat, k: nat, vb: nat) {
    forall i: nat | i < k :: Vpn(At(va, i)) != Vpn(vb)
  }

  lemma EntryOfPage(mem: Mem, root: nat, va: nat, vb: nat)
    requires Vpn(va) == Vpn(vb)
    ensures Entry(mem, root, va) == Entry(mem, root, vb)
  {
    SamePage(va, vb);
  }

  /** In a range that does not wrap, the touched pages are exactly those of the addresses in between. */
  lemma UntouchedRange(va: nat, k: nat, vb: nat)
    requires va % PAGE_SIZE == 0 && va + k * PAGE_SIZE <= VM_END && vb < VM_END
    ensures Untouched(va, k, vb) <==> !(va <= vb < va + k * PAGE_SIZE)
    ensures va <= vb < va + k * PAGE_SIZE ==> var i := (vb - va) / PAGE_SIZE; i < k && Vpn(At(va, i)) == Vpn(vb)
  {
    hide Vpn, At;
    if va <= vb < va + k * PAGE_SIZE {
      var i := (vb - va) / PAGE_SIZE;
      InsideRange(va, k, vb, i);
    } else {
      forall i: nat | i < k
        ensures Vpn(At(va, i)) != Vpn(vb)
      {
        OutsideRange(va, k, vb, i);
      }
    }
  }

  /** Below VM_END an address and its page number fit in their words. */
  lemma PlainPage(va: nat, i: nat, vb: nat)
    requires va % PAGE_SIZE == 0 && va + i * PAGE_SIZE < VM_END && vb < VM_END
    ensures At(va, i) == va + i * PAGE_SIZE
    ensures Vpn(At(va, i)) == va / PAGE_SIZE + i && Vpn(vb) == vb / PAGE_SIZE
  {
    var a := va + i * PAGE_SIZE;
    DivModUnique(a, U64, 0, a);
    DivModUnique(a, PAGE_SIZE, va / PAGE_SIZE + i, 0);
  }

  lemma InsideRange(va: nat, k: nat, vb: nat, i: nat)
    requires va % PAGE_SIZE == 0 && va + k * PAGE_SIZE <= VM_END && va <= vb < va + k * PAGE_SIZE
    requires i == (vb - va) / PAGE_SIZE
    ensures i < k && Vpn(At(va, i)) == Vpn(vb)
  {
    var r := (vb - va) % PAGE_SIZE;
    assert vb == va + i * PAGE_SIZE + r;
    hide Vpn, At;
    PlainPage(va, i, vb);
    DivModUnique(vb, PAGE_SIZE, va / PAGE_SIZE + i, r);
  }

  lemma OutsideRange(va: nat, k: nat, vb: nat, i: nat)
    requires va % PAGE_SIZE == 0 && va + k * PAGE_SIZE <= VM_END && vb < VM_END
    requires !(va <= vb < va + k * PAGE_SIZE) && i < k
    ensures Vpn(At(va, i)) != Vpn(vb)
  {
    hide Vpn, At;
    PlainPage(va, i, vb);
    var q, r := vb / PAGE_SIZE, vb % PAGE_SIZE;
    assert vb == q * PAGE_SIZE + r;
  }

  /** The range checks of `mappages`: the sum is taken in 64 bits. */
  predicate RangeCheck(start: nat, npages: nat, limit: nat) {
    (start + npages * PAGE_SIZE) % U64 <= limit
  }

  /**
   The check means that the range ends at or below the limit except when the sum wraps and
   what is left of it passes; a range that passes is a good one exactly when it did not wrap.
   */
  lemma RangeCheckExact(start: nat, npages: nat, limit: nat)
    requires limit < U64
    ensures (RangeCheck(start, npages, limit) <==> start + npages * PAGE_SIZE <= limit)
       <==> !(start + npages * PAGE_SIZE >= U64 && (start + npages * PAGE_SIZE) % U64 <= limit)
    ensures RangeCheck(start, npages, limit) ==>
              (start + npages * PAGE_SIZE <= limit <==> start + npages * PAGE_SIZE < U64)
  {
    var sum := start + npages * PAGE_SIZE;
    if sum < U64 {
      DivModUnique(sum, U64, 0, sum);
    }
  }

  /** 2^52 pages pass both checks from address 0; some more pages wrap too and are refused. */
  lemma RangeCheckWraps()
    ensures RangeCheck(0, 0x10_0000_0000_0000, VM_END) && 0x10_0000_0000_0000 * PAGE_SIZE > VM_END
    ensures RangeCheck(0, 0x10_0000_0000_0000, PM_END) && 0x10_0000_0000_0000 * PAGE_SIZE > PM_END
    ensures !RangeCheck(0, 0x10_0000_0400_0001, VM_END) && 0x10_0000_0400_0001 * PAGE_SIZE >= U64
  {
  }

  /** The pages that the loop of `unmappages` visits: none when the end address wraps to the start or below. */
  function UnmapCount(start: nat, npages: nat): nat {
    var end := (start + npages * PAGE_SIZE) % U64;
    if end > start then (end - start) / PAGE_SIZE else 0
  }

  /** `unmappages` visits all its pages exactly when the end address does not wrap. */
  lemma UnmapExact(start: nat, npages: nat)
    requires start % PAGE_SIZE == 0 && start < U64 && npages > 0
    ensures UnmapCount(start, npages) == npages <==> start + npages * PAGE_SIZE < U64
  {
    var sum := start + npages * PAGE_SIZE;
    if sum < U64 {
      DivModUnique(sum, U64, 0, sum);
    } else {
      var q, end := sum / U64, sum % U64;
      assert sum == q * U64 + end && q >= 1;
      assert end <= sum - U64;
    }
  }

  lemma VisitedPages(start: nat, npages: nat, k: nat, a: nat)
    requires a == start + k * PAGE_SIZE
    requires var end := (start + npages * PAGE_SIZE) % U64; a >= end && (a <= end || k == 0)
    ensures k == UnmapCount(start, npages)
  {
    var end := (start + npages * PAGE_SIZE) % U64;
    if end > start {
      DivModUnique(end - start, PAGE_SIZE, k, 0);
    }
  }

  /** Unmapping 2^52 pages from address 0 visits none of them. */
  lemma UnmapWraps()
    ensures UnmapCount(0, 0x10_0000_0000_0000) == 0
  {
  }

  class AddressSpace {
    const root: nat
    var pages: Mem
    ghost var owner: map<nat, Path>

    ghost predicate Valid()
      reads this
    {
      Shaped(pages, root, owner) && 0 !in pages
    }

    /** `pagetable_create`, in a memory that already holds other pages. */
    constructor (others: Mem)
      requires 0 !in others
      ensures Valid() && root !in others && pages == others[root := ZeroPage()] && owner == map[root := Root]
      ensures forall va: nat :: Entry(pages, root, va) == 0
    {
      FreshExists(others.Keys);
      var n: nat :| n > 0 && n !in others;
      root := n;
      pages := others[n := ZeroPage()];
      owner := map[n := Root];
      ZeroNotValid();
    }

    /** `kzalloc(PAGE_SIZE)`. */
    method KZalloc() returns (n: nat)
      modifies this`pages
      ensures n > 0 && n !in old(pages) && pages == old(pages)[n := ZeroPage()]
    {
      FreshExists(pages.Keys);
      n :| n > 0 && n !in pages;
      pages := pages[n := ZeroPage()];
    }

    /** `va2pte`: the slot for `va`; adds missing tables when asked to, and changes no leaf entry either way. */
    method Va2Pte(va: nat, alloc: bool) returns (slot: Slot)
      requires Valid()
      modifies this
      ensures Valid()
      ensures forall vb: nat :: Entry(pages, root, vb) == old(Entry(pages, root, vb))
      ensures !alloc ==> pages == old(pages) && owner == old(owner)
      ensures forall p | p in old(pages) && p !in old(owner) :: p in pages && p !in owner && pages[p] == old(pages)[p]
      ensures slot.Slot? ==> slot.page in owner && owner[slot.page] == PathTo(va, 0) && slot.index == Px(0, va)
      ensures slot.Null? ==> !alloc && Entry(pages, root, va) == 0
    {
      var table, level := root, 2;
      while level > 0
        invariant level <= 2 && Valid() && table in owner && owner[table] == PathTo(va, level)
        invariant forall vb: nat :: Entry(pages, root, vb) == old(Entry(pages, root, vb))
        invariant !alloc ==> pages == old(pages) && owner == old(owner)
        invariant forall p | p in old(pages) && p !in old(owner) ::
                    p in pages && p !in owner && pages[p] == old(pages)[p]
      {
        var i := Px(level, va);
        if IsValid(pages[table][i]) {
          table := Child(pages[table][i]);
        } else {
          if !alloc {
            MissingEntry(pages, root, owner, table, va, level);
            return Null;
          }
          table := Descend(table, i);
        }
        level := level - 1;
      }
      slot := Slot(table, Px(0, va));
    }

    /** The allocating step of the walk. */
    method Descend(table: nat, i: nat) returns (n: nat)
      requires Valid() && table in owner && !owner[table].Low? && i < ENTRIES && !IsValid(pages[table][i])
      modifies this
      ensures Valid() && n !in old(pages) && owner == old(owner)[n := Below(old(owner)[table], i)]
      ensures pages == Hung(old(pages), table, i, n)
      ensures forall vb: nat :: Entry(pages, root, vb) == old(Entry(pages, root, vb))
    {
      ghost var mem := pages;
      n := KZalloc();
      pages := pages[table := SetEntry(pages[table], i, TablePte(n))];
      HungShaped(mem, root, owner, table, i, n);
      forall vb: nat
        ensures Entry(pages, root, vb) == Entry(mem, root, vb)
      {
        HungEntry(mem, root, owner, table, i, n, vb);
      }
      owner := owner[n := Below(owner[table], i)];
    }

    /** Writing through a slot that the walk returned. */
    method Store(slot: Slot, pte: nat, ghost va: nat)
      requires Valid() && slot.Slot? && slot.page in owner && owner[slot.page] == PathTo(va, 0)
              && slot.index == Px(0, va)
      modifies this`pages
      ensures Valid()
      ensures forall vb: nat :: Entry(pages, root, vb) == if Vpn(vb) == Vpn(va) then pte
              else old(Entry(pages, root, vb))
      ensures forall p | p in old(pages) && p !in owner :: p in pages && pages[p] == old(pages)[p]
    {
      ghost var mem := pages;
      pages := pages[slot.page := SetEntry(pages[slot.page], slot.index, pte)];
      StoredShaped(mem, root, owner, slot.page, slot.index, pte);
      forall vb: nat
        ensures Entry(pages, root, vb) == if Vpn(vb) == Vpn(va) then pte else Entry(mem, root, vb)
      {
        StoredEntry(mem, root, owner, slot.page, va, pte, vb);
      }
    }

    /** `walkaddr`. */
    method WalkAddr(va: nat) returns (pa: nat)
      requires Valid()
      modifies this
      ensures Valid() && pages == old(pages) && owner == old(owner)
      ensures pa == if va < VM_END && IsMapped(Entry(pages, root, va)) then Pte2Pa(Entry(pages, root, va)) else 0
    {
      if va >= VM_END {
        return 0;
      }
      var slot := Va2Pte(va, false);
      ZeroNotValid();
      if slot.Null? {
        return 0;
      }
      LowEntry(pages, root, owner, slot.page, va);
      if !IsMapped(pages[slot.page][slot.index]) {
        return 0;
      }
      pa := Pte2Pa(pages[slot.page][slot.index]);
    }

    /**
     `mappages`.  `k` pages were mapped: all of them on success, those before the first
     page already in use on -EADDRINUSE, none on an argument error.  A range that does not wrap
     is refused as in use exactly when one of its pages was mapped before the call.
     */
    method MapPages(va: nat, pa: nat, npages: nat, perm: int) returns (ret: int, ghost k: nat)
      requires Valid() && va < U64 && pa < U64 && npages < U64
      modifies this
      ensures Valid() && k <= npages && (ret == 0 || ret == -EINVAL || ret == -ERANGE || ret == -EADDRINUSE)
      ensures ret == 0 ==> k == npages
      ensures ret == -EINVAL || ret == -ERANGE ==> k == 0
      ensures ret == -EINVAL <==> va % PAGE_SIZE != 0 || pa % PAGE_SIZE != 0
      ensures ret == -ERANGE <==>
                && va % PAGE_SIZE == 0 && pa % PAGE_SIZE == 0 && npages > 0
                && ((va + npages * PAGE_SIZE) % U64 > VM_END || (pa + npages * PAGE_SIZE) % U64 > PM_END)
      ensures ret == -EADDRINUSE <==>
                && va % PAGE_SIZE == 0 && pa % PAGE_SIZE == 0 && k < npages
                && (va + npages * PAGE_SIZE) % U64 <= VM_END && (pa + npages * PAGE_SIZE) % U64 <= PM_END
      ensures va + npages * PAGE_SIZE < U64 && pa + npages * PAGE_SIZE < U64 ==>
                (ret == -EADDRINUSE <==>
                  && va % PAGE_SIZE == 0 && pa % PAGE_SIZE == 0
                  && va + npages * PAGE_SIZE <= VM_END && pa + npages * PAGE_SIZE <= PM_END
                  && exists i: nat :: i < npages && IsMapped(Entry(old(pages), root, At(va, i))))
      ensures MappedRange(old(pages), pages, root, va, pa, perm % 64, k)
      ensures ret == -EADDRINUSE ==> IsMapped(Entry(pages, root, At(va, k)))
      ensures forall p | p in old(pages) && p !in old(owner) :: p in pages && p !in owner && pages[p] == old(pages)[p]
    {
      hide MappedRange, Shaped, Entry, IsMapped, At;
      ghost var mem := pages;
      MapNone(mem, root, va, pa, perm % 64);
      PlainSum(va, npages);
      PlainSum(pa, npages);
      if va % PAGE_SIZE != 0 || pa % PAGE_SIZE != 0 {
        return -EINVAL, 0;
      }
      if npages == 0 {
        return 0, 0;
      }
      if (va + npages * PAGE_SIZE) % U64 > VM_END {
        return -ERANGE, 0;
      }
      if (pa + npages * PAGE_SIZE) % U64 > PM_END {
        return -ERANGE, 0;
      }
      var bits := perm % 64;
      var i := 0;
      while i < npages
        invariant i <= npages && Valid() && MappedRange(mem, pages, root, va, pa, bits, i)
        invariant forall p | p in old(pages) && p !in old(owner) ::
                    p in pages && p !in owner && pages[p] == old(pages)[p]
      {
        ghost var before := pages;
        var ok := MapOne(va, pa, i, bits, mem);
        MapStep(mem, before, pages, root, va, pa, bits, i, ok);
        if !ok {
          Conflict(mem, pages, root, va, pa, npages, bits, i);
          return -EADDRINUSE, i;
        }
        i := i + 1;
      }
      NoConflict(mem, pages, root, va, pa, bits, npages);
      return 0, npages;
    }

    /** One round of the mapping loop: the i-th page, unless it is in use. */
    method MapOne(va: nat, pa: nat, i: nat, bits: nat, ghost mem: Mem) returns (ok: bool)
      requires Valid() && bits < 64 && MappedRange(mem, pages, root, va, pa, bits, i)
      modifies this
      ensures Valid() && ok == !IsMapped(old(Entry(pages, root, At(va, i))))
      ensures ok ==> Untouched(va, i, At(va, i))
      ensures Rewritten(old(pages), pages, root, At(va, i), if ok then LeafPte(At(pa, i), bits)
              else old(Entry(pages, root, At(va, i))))
      ensures forall p | p in old(pages) && p !in old(owner) :: p in pages && p !in owner && pages[p] == old(pages)[p]
    {
      ghost var before := pages;
      var slot := Va2Pte(At(va, i), true);
      LowEntry(pages, root, owner, slot.page, At(va, i));
      PageEntries(before, root, At(va, i));
      if IsMapped(pages[slot.page][slot.index]) {
        return false;
      }
      NotYetMapped(mem, before, root, va, pa, bits, i);
      Store(slot, LeafPte(At(pa, i), bits), At(va, i));
      ok := true;
    }

    /** `unmappages`: clears the mapped entries of its range and nothing else. */
    method UnmapPages(vm: nat, npages: nat) returns (ret: int, ghost k: nat)
      requires Valid() && vm < U64 && npages < U64
      modifies this
      ensures Valid() && ret == 0 && owner == old(owner)
      ensures var start := vm / PAGE_SIZE * PAGE_SIZE;
              && k == UnmapCount(start, npages)
              && (npages > 0 ==> (k == npages <==> start + npages * PAGE_SIZE < U64))
              && ClearedRange(old(pages), pages, root, start, k)
              && forall i: nat | i < k ::
                   Entry(pages, root, At(start, i)) ==
                     if IsMapped(Entry(old(pages), root, At(start, i))) then 0
                     else Entry(old(pages), root, At(start, i))
      ensures forall p | p in old(pages) && p !in owner :: p in pages && pages[p] == old(pages)[p]
    {
      hide ClearedRange, Shaped, Entry, Cleared, UnmapCount, IsMapped;
      ghost var mem := pages;
      var start := vm / PAGE_SIZE * PAGE_SIZE;
      var end := (start + npages * PAGE_SIZE) % U64;
      var a := start;
      k := 0;
      ClearNone(mem, root, start);
      AlignedEnd(start, npages);
      if npages > 0 {
        UnmapExact(start, npages);
      }
      while a < end
        invariant a == start + k * PAGE_SIZE && (a <= end || k == 0)
        invariant Valid() && owner == old(owner) && ClearedRange(mem, pages, root, start, k)
        invariant forall p | p in old(pages) && p !in owner :: p in pages && pages[p] == old(pages)[p]
        decreases end - a
      {
        ghost var before := pages;
        UnmapOne(a);
        ClearStep(mem, before, pages, root, start, k);
        a := a + PAGE_SIZE;
        k := k + 1;
      }
      VisitedPages(start, npages, k, a);
      ClearedPages(mem, pages, root, start, k);
      ret := 0;
    }

    method UnmapOne(a: nat)
      requires Valid()
      modifies this
      ensures Valid() && owner == old(owner)
      ensures Rewritten(old(pages), pages, root, a, Cleared(old(Entry(pages, root, a))))
      ensures forall p | p in old(pages) && p !in owner :: p in pages && pages[p] == old(pages)[p]
    {
      ZeroNotValid();
      PageEntries(pages, root, a);
      var slot := Va2Pte(a, false);
      if slot.Slot? {
        LowEntry(pages, root, owner, slot.page, a);
        if IsMapped(pages[slot.page][slot.index]) {
          Store(slot, 0, a);
        }
      }
    }

    /** `pagetable_destroy`: frees every table of the tree exactly once, and nothing else. */
    method Destroy() returns (freed: seq<nat>)
      requires Valid()
      modifies this`pages
      ensures NoDup(freed) && Elems(freed) == owner.Keys
      ensures pages == old(pages) - owner.Keys
    {
      TablesListed(pages, root, owner, root);
      freed := DestroyLevel(root, 2, pages);
      assert Elems(freed) == owner.Keys;
    }

    /** `pagetable_destroy_level`. */
    method DestroyLevel(p: nat, level: nat, ghost mem: Mem) returns (freed: seq<nat>)
      requires Shaped(mem, root, owner) && p in owner && level == LevelOf(owner[p])
      requires forall q | q in owner && Under(owner[p], owner[q]) :: q in pages && pages[q] == mem[q]
      modifies this`pages
      ensures freed == Tables(mem, p, level)
      ensures pages == old(pages) - Elems(freed)
      decreases level, 1
    {
      hide Shaped, KidOf;
      freed := [];
      if level > 0 {
        for i := 0 to ENTRIES
          invariant freed == KidTables(mem, p, level, i) && pages == old(pages) - Elems(freed)
        {
          StillThere(mem, root, owner, p, i, p);
          forall q | q in owner && Under(Below(owner[p], i), owner[q])
            ensures q in pages && q in mem && pages[q] == mem[q]
          {
            StillThere(mem, root, owner, p, i, q);
          }
          var more := DestroyKid(p, level, i, mem);
          assert Elems(freed + more) == Elems(freed) + Elems(more);
          freed := freed + more;
        }
      }
      pages := pages - {p};
      assert Elems(freed + [p]) == Elems(freed) + {p};
      freed := freed + [p];
    }

    /** One round of its loop: the table behind the i-th entry, if that entry is valid. */
    method DestroyKid(p: nat, level: nat, i: nat, ghost mem: Mem) returns (freed: seq<nat>)
      requires Shaped(mem, root, owner) && p in owner && level == LevelOf(owner[p]) && level > 0 && i < ENTRIES
      requires p in pages && pages[p] == mem[p] && |mem[p]| == ENTRIES
      requires forall q | q in owner && Under(Below(owner[p], i), owner[q]) :: q in pages && pages[q] == mem[q]
      modifies this`pages
      ensures freed == KidOf(mem, p, level, i)
      ensures pages == old(pages) - Elems(freed)
      decreases level, 0
    {
      var pte := pages[p][i];
      if IsValid(pte) {
        freed := DestroyLevel(Child(pte), level - 1, mem);
      } else {
        freed := [];
      }
    }
  }

  // ----- teardown

  function Elems(s: seq<nat>): set<nat> {
    set q | q in s
  }

  /** The table that the loop is about to free a child of is still there, and so is the child's subtree. */
  lemma StillThere(mem: Mem, root: nat, owner: map<nat, Path>, p: nat, i: nat, q: nat)
    requires Shaped(mem, root, owner) && p in owner && !owner[p].Low? && i < ENTRIES && q in owner
    requires q == p || Under(Below(owner[p], i), owner[q])
    ensures q !in KidTables(mem, p, LevelOf(owner[p]), i) && q in mem && |mem[q]| == ENTRIES
  {
    KidsListed(mem, root, owner, p, i);
  }

  // ----- what the loops have done

  /** Only the entry for the page of `va` changed, to `pte`. */
  ghost predicate Rewritten(mem: Mem, mem': Mem, root: nat, va: nat, pte: nat) {
    forall vb: nat :: Entry(mem', root, vb) == if Vpn(vb) == Vpn(va) then pte else Entry(mem, root, vb)
  }

  lemma PageEntries(mem: Mem, root: nat, va: nat)
    ensures forall vb: nat | Vpn(vb) == Vpn(va) :: Entry(mem, root, vb) == Entry(mem, root, va)
  {
    forall vb: nat | Vpn(vb) == Vpn(va)
      ensures Entry(mem, root, vb) == Entry(mem, root, va)
    {
      EntryOfPage(mem, root, va, vb);
    }
  }

  /**
   The first `k` pages from `va`, none of them mapped before, now map to consecutive pages from
   `pa`; nothing else changed.
   */
  ghost predicate MappedRange(mem: Mem, mem': Mem, root: nat, va: nat, pa: nat, bits: nat, k: nat) {
    && (forall i: nat | i < k ::
          !IsMapped(Entry(mem, root, At(va, i))) && Entry(mem', root, At(va, i)) == LeafPte(At(pa, i), bits))
    && (forall vb: nat | Untouched(va, k, vb) :: Entry(mem', root, vb) == Entry(mem, root, vb))
  }

  lemma MapNone(mem: Mem, root: nat, va: nat, pa: nat, bits: nat)
    ensures MappedRange(mem, mem, root, va, pa, bits, 0)
  {
  }

  /** A page about to be mapped is none of those mapped in earlier rounds. */
  lemma NotYetMapped(mem: Mem, mem': Mem, root: nat, va: nat, pa: nat, bits: nat, k: nat)
    requires MappedRange(mem, mem', root, va, pa, bits, k) && bits < 64 && !IsMapped(Entry(mem', root, At(va, k)))
    ensures Untouched(va, k, At(va, k))
  {
    forall i: nat | i < k
      ensures Vpn(At(va, i)) != Vpn(At(va, k))
    {
      LeafPteFacts(At(pa, i), bits);
      if Vpn(At(va, i)) == Vpn(At(va, k)) {
        EntryOfPage(mem', root, At(va, i), At(va, k));
      }
    }
  }

  lemma MapStep(mem: Mem, mem': Mem, mem'': Mem, root: nat, va: nat, pa: nat, bits: nat, k: nat, ok: bool)
    requires MappedRange(mem, mem', root, va, pa, bits, k)
    requires ok == !IsMapped(Entry(mem', root, At(va, k))) && (ok ==> Untouched(va, k, At(va, k)))
    requires Rewritten(mem', mem'', root, At(va, k), if ok then LeafPte(At(pa, k), bits)
            else Entry(mem', root, At(va, k)))
    ensures MappedRange(mem, mem'', root, va, pa, bits, if ok then k + 1 else k)
    ensures !ok ==> IsMapped(Entry(mem'', root, At(va, k)))
  {
    hide Entry, IsMapped, LeafPte, At, Vpn;
    if ok {
      hide MappedRange, Rewritten;
      MapStepOk(mem, mem', mem'', root, va, pa, bits, k);
    } else {
      SameEntries(mem', mem'', root, At(va, k));
    }
  }

  lemma MapStepOk(mem: Mem, mem': Mem, mem'': Mem, root: nat, va: nat, pa: nat, bits: nat, k: nat)
    requires MappedRange(mem, mem', root, va, pa, bits, k)
    requires !IsMapped(Entry(mem', root, At(va, k))) && Untouched(va, k, At(va, k))
    requires Rewritten(mem', mem'', root, At(va, k), LeafPte(At(pa, k), bits))
    ensures MappedRange(mem, mem'', root, va, pa, bits, k + 1)
  {
    hide Entry, Vpn, IsMapped, LeafPte, At;
    forall i: nat | i < k + 1
      ensures !IsMapped(Entry(mem, root, At(va, i))) && Entry(mem'', root, At(va, i)) == LeafPte(At(pa, i), bits)
    {
      if i < k {
        assert Vpn(At(va, i)) != Vpn(At(va, k));
      }
    }
    forall vb: nat | Untouched(va, k + 1, vb)
      ensures Entry(mem'', root, vb) == Entry(mem, root, vb)
    {
      assert Untouched(va, k, vb) && Vpn(At(va, k)) != Vpn(vb);
    }
  }

  lemma PlainSum(start: nat, npages: nat)
    ensures start + npages * PAGE_SIZE < U64 ==> (start + npages * PAGE_SIZE) % U64 == start + npages * PAGE_SIZE
  {
    if start + npages * PAGE_SIZE < U64 {
      DivModUnique(start + npages * PAGE_SIZE, U64, 0, start + npages * PAGE_SIZE);
    }
  }

  /** In a range that does not wrap, a page found in use was in use before the call. */
  lemma Conflict(mem: Mem, mem': Mem, root: nat, va: nat, pa: nat, npages: nat, bits: nat, k: nat)
    requires MappedRange(mem, mem', root, va, pa, bits, k) && IsMapped(Entry(mem', root, At(va, k))) && k < npages
    ensures va % PAGE_SIZE == 0 && va + npages * PAGE_SIZE <= VM_END ==>
              exists i: nat :: i < npages && IsMapped(Entry(mem, root, At(va, i)))
  {
    hide Entry, IsMapped, Untouched, Vpn;
    if va % PAGE_SIZE == 0 && va + npages * PAGE_SIZE <= VM_END {
      PlainPage(va, k, va);
      UntouchedRange(va, k, At(va, k));
      assert IsMapped(Entry(mem, root, At(va, k)));
    }
  }

  lemma NoConflict(mem: Mem, mem': Mem, root: nat, va: nat, pa: nat, bits: nat, k: nat)
    requires MappedRange(mem, mem', root, va, pa, bits, k)
    ensures !exists i: nat :: i < k && IsMapped(Entry(mem, root, At(va, i)))
  {
    hide Entry, IsMapped, At;
  }

  lemma SameEntries(mem: Mem, mem': Mem, root: nat, va: nat)
    requires Rewritten(mem, mem', root, va, Entry(mem, root, va))
    ensures forall vb: nat :: Entry(mem', root, vb) == Entry(mem, root, vb)
  {
    PageEntries(mem, root, va);
  }

  /** `mappages` as a change of the flat map, for a range that does not wrap. */
  lemma MappedFlat(mem: Mem, mem': Mem, root: nat, va: nat, pa: nat, bits: nat, k: nat, vb: nat)
    requires MappedRange(mem, mem', root, va, pa, bits, k)
    requires va % PAGE_SIZE == 0 && va + k * PAGE_SIZE <= VM_END && pa + k * PAGE_SIZE < U64 && vb < VM_END
    ensures Entry(mem', root, vb) ==
      if va <= vb < va + k * PAGE_SIZE
      then LeafPte(pa + (vb - va) / PAGE_SIZE * PAGE_SIZE, bits)
      else Entry(mem, root, vb)
  {
    hide Entry, Vpn, LeafPte, IsMapped, Untouched;
    UntouchedRange(va, k, vb);
    if va <= vb < va + k * PAGE_SIZE {
      var i := (vb - va) / PAGE_SIZE;
      EntryOfPage(mem', root, At(va, i), vb);
      NoWrapAt(pa, i, k);
      hide At;
    }
  }

  lemma NoWrapAt(pa: nat, i: nat, k: nat)
    requires i < k && pa + k * PAGE_SIZE < U64
    ensures At(pa, i) == pa + i * PAGE_SIZE
  {
    DivModUnique(pa + i * PAGE_SIZE, U64, 0, pa + i * PAGE_SIZE);
  }

  ghost predicate ClearedRange(mem: Mem, mem': Mem, root: nat, start: nat, k: nat) {
    && (forall i: nat | i < k :: Entry(mem', root, At(start, i)) == Cleared(Entry(mem, root, At(start, i))))
    && (forall vb: nat | Untouched(start, k, vb) :: Entry(mem', root, vb) == Entry(mem, root, vb))
  }

  lemma ClearNone(mem: Mem, root: nat, start: nat)
    ensures ClearedRange(mem, mem, root, start, 0)
  {
  }

  /** The pages visited: mapped entries have become 0, others are as before. */
  lemma ClearedPages(mem: Mem, mem': Mem, root: nat, start: nat, k: nat)
    requires ClearedRange(mem, mem', root, start, k)
    ensures forall i: nat | i < k ::
              Entry(mem', root, At(start, i)) ==
                if IsMapped(Entry(mem, root, At(start, i))) then 0 else Entry(mem, root, At(start, i))
  {
    hide Entry, IsMapped, At;
  }

  lemma ClearTwice(mem: Mem, mem': Mem, root: nat, start: nat, k: nat)
    requires ClearedRange(mem, mem', root, start, k)
    ensures Cleared(Entry(mem', root, At(start, k))) == Cleared(Entry(mem, root, At(start, k)))
  {
    ZeroNotValid();
    if !Untouched(start, k, At(start, k)) {
      var i: nat :| i < k && Vpn(At(start, i)) == Vpn(At(start, k));
      EntryOfPage(mem, root, At(start, i), At(start, k));
      EntryOfPage(mem', root, At(start, i), At(start, k));
    }
  }

  lemma ClearStep(mem: Mem, mem': Mem, mem'': Mem, root: nat, start: nat, k: nat)
    requires ClearedRange(mem, mem', root, start, k) && start + k * PAGE_SIZE < U64
    requires Rewritten(mem', mem'', root, start + k * PAGE_SIZE, Cleared(Entry(mem', root, start + k * PAGE_SIZE)))
    ensures ClearedRange(mem, mem'', root, start, k + 1)
  {
    var a := start + k * PAGE_SIZE;
    DivModUnique(a, U64, 0, a);
    assert At(start, k) == a;
    hide Entry, Vpn, At, Cleared;
    ClearTwice(mem, mem', root, start, k);
    forall i: nat | i < k + 1
      ensures Entry(mem'', root, At(start, i)) == Cleared(Entry(mem, root, At(start, i)))
    {
      if Vpn(At(start, i)) == Vpn(a) {
        EntryOfPage(mem, root, At(start, i), a);
      }
    }
    forall vb: nat | Untouched(start, k + 1, vb)
      ensures Entry(mem'', root, vb) == Entry(mem, root, vb)
    {
      assert Untouched(start, k, vb) && Vpn(At(start, k)) != Vpn(vb);
    }
  }

  /** `unmappages` as a change of the flat map, for a range that does not wrap. */
  lemma ClearedFlat(mem: Mem, mem': Mem, root: nat, start: nat, k: nat, vb: nat)
    requires ClearedRange(mem, mem', root, start, k)
    requires start % PAGE_SIZE == 0 && start + k * PAGE_SIZE <= VM_END && vb < VM_END
    ensures Entry(mem', root, vb) ==
      if start <= vb < start + k * PAGE_SIZE && IsMapped(Entry(mem, root, vb)) then 0 else Entry(mem, root, vb)
  {
    hide Entry, Vpn, IsMapped, Untouched, At;
    UntouchedRange(start, k, vb);
    if start <= vb < start + k * PAGE_SIZE {
      var i := (vb - start) / PAGE_SIZE;
      EntryOfPage(mem', root, At(start, i), vb);
      EntryOfPage(mem, root, At(start, i), vb);
    }
  }

  /** Unmapping what was just mapped restores every translation below VM_END. */
  lemma MapThenUnmap(mem: Mem, mem': Mem, mem'': Mem, root: nat, va: nat, pa: nat, bits: nat, k: nat, vb: nat)
    requires MappedRange(mem, mem', root, va, pa, bits, k) && ClearedRange(mem', mem'', root, va, k) && bits < 64
    requires va % PAGE_SIZE == 0 && va + k * PAGE_SIZE <= VM_END && pa + k * PAGE_SIZE < U64 && vb < VM_END
    ensures IsMapped(Entry(mem'', root, vb)) <==> IsMapped(Entry(mem, root, vb))
    ensures IsMapped(Entry(mem, root, vb)) ==> Entry(mem'', root, vb) == Entry(mem, root, vb)
  {
    MappedFlat(mem, mem', root, va, pa, bits, k, vb);
    ClearedFlat(mem', mem'', root, va, k, vb);
    ZeroNotValid();
    if va <= vb < va + k * PAGE_SIZE {
      UntouchedRange(va, k, vb);
      var i := (vb - va) / PAGE_SIZE;
      EntryOfPage(mem, root, At(va, i), vb);
      LeafPteFacts(pa + i * PAGE_SIZE, bits);
    }
  }

  /** What unmapping does to an entry: mapped entries become 0, others stay. */
  function Cleared(pte: nat): nat {
    if IsMapped(pte) then 0 else pte
  }

  lemma AlignedEnd(start: nat, npages: nat)
    requires start % PAGE_SIZE == 0
    ensures (start + npages * PAGE_SIZE) % U64 % PAGE_SIZE == 0
  {
    var sum := start + npages * PAGE_SIZE;
    var q := sum / U64;
    assert sum % U64 == sum - q * U64;
    assert sum == (start / PAGE_SIZE + npages) * PAGE_SIZE;
    DivModUnique(sum % U64, PAGE_SIZE, start / PAGE_SIZE + npages - q * 0x10_0000_0000_0000, 0);
  }

  lemma FreshExists(s: set<nat>)
    ensures exists n: nat :: n > 0 && n !in s
  {
    var b := Bound(s);
    assert b + 1 !in s;
  }

  lemma Bound(s: set<nat>) returns (b: nat)
    ensures forall x | x in s :: x < b
  {
    if s == {} {
      b := 0;
    } else {
      var x :| x in s;
      var c := Bound(s - {x});
      b := if x < c then c else x + 1;
      assert forall y | y in s :: y == x || y in s - {x};
    }
  }
}
