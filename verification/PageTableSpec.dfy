/**
 Sv39 page tables on values: physical pages holding 512 entries each, the three-level
 walk, and the flat map from virtual pages to leaf entries that the tree stands for.
 Physical pages are named by their page number.
 */
module PageTableSpec {
  import opened Bits

  const PAGE_SIZE: nat := 4096
  const ENTRIES: nat := 512
  const VPNS: nat := 0x8000000
  const U64: nat := 0x1_0000_0000_0000_0000
  const VM_END: nat := 0x40_0000_0000
  const PM_END: nat := 0x88000000

  type Mem = map<nat, seq<nat>>

  // ----- entries

  const PTE_V: nat := 1
  const PTE_M: nat := 256

  predicate IsValid(pte: nat) {
    And(pte, PTE_V) != 0
  }

  predicate IsMapped(pte: nat) {
    And(pte, PTE_M) != 0
  }

  function Pa2Pte(pa: nat): nat {
    pa / 4096 * 1024
  }

  function Pte2Pa(pte: nat): nat {
    pte / 1024 * 4096
  }

  /** The page number an entry points to. */
  function Child(pte: nat): nat {
    pte / 1024
  }

  function TablePte(ppn: nat): nat {
    Or(Pa2Pte(ppn * PAGE_SIZE), PTE_V)
  }

  function LeafPte(pa: nat, perm: nat): nat {
    Or(Or(Pa2Pte(pa), perm), PTE_M)
  }

  lemma Aligned1024(x: nat)
    ensures Aligned(x * 1024, 10) && Aligned(x * 1024, 1)
  {
    SmallPowers();
    hide Pow2, Down, Aligned;
    var y := x * 1024;
    DivModUnique(y, 1024, x, 0);
    DownIsMod(y, 10);
    DivModUnique(y, 2, 512 * x, 0);
    DownIsMod(y, 1);
  }

  lemma SmallPowers()
    ensures Pow2(1) == 2 && Pow2(6) == 64 && Pow2(10) == 1024
  {
    assert Pow2(5) == 32;
    Pow2Add(5, 5);
  }

  lemma TablePteFacts(ppn: nat)
    ensures IsValid(TablePte(ppn)) && Child(TablePte(ppn)) == ppn
  {
    hide TablePte, And;
    TablePteValue(ppn);
    LowBit(TablePte(ppn));
    DivModUnique(ppn * 1024 + 1, 1024, ppn, 1);
    DivModUnique(ppn * 1024 + 1, 2, ppn * 512, 1);
  }

  lemma TablePteValue(ppn: nat)
    ensures TablePte(ppn) == ppn * 1024 + 1
  {
    hide Or, Pow2, Aligned;
    SmallPowers();
    Aligned1024(ppn);
    OrLowBits(ppn * 1024, 1, 1);
    PageBits(ppn);
  }

  lemma PageBits(ppn: nat)
    ensures Pa2Pte(ppn * PAGE_SIZE) == ppn * 1024
  {
    DivModUnique(ppn * PAGE_SIZE, 4096, ppn, 0);
  }

  lemma LowBit(x: nat)
    ensures And(x, 1) != 0 <==> x % 2 == 1
  {
    AndZero(x / 2);
    assert And(x, 1) == (if x % 2 == 1 then 1 else 0) + 2 * And(x / 2, 0);
  }

  lemma LeafPteValue(pa: nat, perm: nat)
    requires perm < 64
    ensures LeafPte(pa, perm) == pa / 4096 * 1024 + 256 + perm
  {
    var a := Pa2Pte(pa);
    SmallPowers();
    hide Or, Pow2;
    Aligned1024(pa / 4096);
    OrLowBits(a, perm, 10);
    OrAboveLow(a, perm, 256, 10);
    OrCommutes(perm, 256);
    assert Aligned(256, 6) by { DownIsMod(256, 6); }
    OrLowBits(256, perm, 6);
  }

  /** A leaf entry is marked mapped, points at its page, and keeps exactly the six permission bits. */
  lemma LeafPteFacts(pa: nat, perm: nat)
    requires perm < 64
    ensures IsMapped(LeafPte(pa, perm)) && Pte2Pa(LeafPte(pa, perm)) == pa - pa % 4096
    ensures LeafPte(pa, perm) % 64 == perm
  {
    hide LeafPte, Or, And, Shr;
    LeafPteValue(pa, perm);
    LeafFields(pa / 4096, perm);
    MappedBit(LeafPte(pa, perm));
  }

  lemma LeafFields(n: nat, perm: nat)
    requires perm < 64
    ensures var pte := n * 1024 + 256 + perm; pte / 1024 == n && pte % 64 == perm && pte / 256 % 2 == 1
  {
    var pte := n * 1024 + 256 + perm;
    DivModUnique(pte, 1024, n, 256 + perm);
    DivModUnique(pte, 64, 16 * n + 4, perm);
    DivModUnique(pte, 256, 4 * n + 1, perm);
    DivModUnique(4 * n + 1, 2, 2 * n, 1);
  }

  lemma MappedBit(pte: nat)
    ensures IsMapped(pte) <==> pte / 256 % 2 == 1
  {
    assert Pow2(8) == 256 by { assert Pow2(4) == 16; Pow2Add(4, 4); }
    AndBit(pte, 8);
    hide And, Shr;
    ShrIsDiv(pte, 8);
  }

  /** The fields of an entry: bit 0 valid, bit 8 mapped, six bits of permissions, and from bit 10 on the page number. */
  lemma PteLayout(pte: nat, ppn: nat, pa: nat, perm: nat)
    requires perm < 64
    ensures IsValid(pte) <==> pte % 2 == 1
    ensures IsMapped(pte) <==> pte / 256 % 2 == 1
    ensures Pte2Pa(pte) == pte / 1024 * 4096 && Child(pte) == pte / 1024
    ensures TablePte(ppn) == ppn * 1024 + 1
    ensures LeafPte(pa, perm) == pa / 4096 * 1024 + 256 + perm
  {
    hide And, TablePte, LeafPte;
    LowBit(pte);
    MappedBit(pte);
    TablePteValue(ppn);
    LeafPteValue(pa, perm);
  }

  // ----- indices

  function Px(level: nat, va: nat): (i: nat)
    requires level <= 2
    ensures i < ENTRIES
  {
    if level == 2 then va / 0x40000000 % 512 else if level == 1 then va / 0x200000 % 512 else va / 0x1000 % 512
  }

  function Vpn(va: nat): (v: nat)
    ensures v < VPNS
  {
    va / 4096 % VPNS
  }

  /** The three indices are the digits of the virtual page number, so they determine it. */
  lemma IndicesOfVpn(va: nat)
    ensures Vpn(va) == Px(2, va) * 0x40000 + Px(1, va) * 0x200 + Px(0, va)
  {
    var p := va / 4096;
    assert va / 0x200000 == p / 512 && va / 0x40000000 == p / 512 / 512;
  }

  lemma SamePage(va: nat, vb: nat)
    ensures Vpn(va) == Vpn(vb) <==> Px(2, va) == Px(2, vb) && Px(1, va) == Px(1, vb) && Px(0, va) == Px(0, vb)
  {
    IndicesOfVpn(va);
    IndicesOfVpn(vb);
  }

  // ----- the tree

  /** Where a table page hangs: the indices of the entries that lead to it. */
  datatype Path = Root | Mid(i: nat) | Low(i: nat, j: nat)

  function Below(p: Path, k: nat): Path
    requires !p.Low?
  {
    if p.Root? then Mid(k) else Low(p.i, k)
  }

  /** The path of the table that is consulted at `level` for `va`. */
  function PathTo(va: nat, level: nat): Path
    requires level <= 2
  {
    if level == 2 then Root else if level == 1 then Mid(Px(2, va)) else Low(Px(2, va), Px(1, va))
  }

  /** The table at a path, following the valid entries. */
  predicate Leads(mem: Mem, root: nat, path: Path, p: nat) {
    match path
    case Root => p == root
    case Mid(i) => root in mem && i < |mem[root]| && IsValid(mem[root][i]) && Child(mem[root][i]) == p
    case Low(i, j) =>
      && root in mem && i < |mem[root]| && IsValid(mem[root][i])
      && var q := Child(mem[root][i]);
         q in mem && j < |mem[q]| && IsValid(mem[q][j]) && Child(mem[q][j]) == p
  }

  /**
   `owner` lists the table pages of the tree with their paths.  Every valid entry of an
   upper table leads to a listed page, every listed page is where its path leads: so each
   table page hangs from exactly one valid entry.
   */
  ghost predicate Shaped(mem: Mem, root: nat, owner: map<nat, Path>) {
    && root in owner && owner[root] == Root
    && (forall p | p in owner :: p in mem && |mem[p]| == ENTRIES && Leads(mem, root, owner[p], p))
    && (forall p, i | p in owner && !owner[p].Low? && 0 <= i < ENTRIES && IsValid(mem[p][i]) ::
          Child(mem[p][i]) in owner && owner[Child(mem[p][i])] == Below(owner[p], i))
  }

  /** The leaf entry for `va`; 0, an unmapped entry, where the walk ends early. */
  function Entry(mem: Mem, root: nat, va: nat): nat {
    if root !in mem || |mem[root]| != ENTRIES || !IsValid(mem[root][Px(2, va)]) then 0
    else
      var q := Child(mem[root][Px(2, va)]);
      if q !in mem || |mem[q]| != ENTRIES || !IsValid(mem[q][Px(1, va)]) then 0
      else
        var r := Child(mem[q][Px(1, va)]);
        if r !in mem || |mem[r]| != ENTRIES then 0 else mem[r][Px(0, va)]
  }

  /** What `kzalloc` returns. */
  function ZeroPage(): (s: seq<nat>)
    ensures |s| == ENTRIES && forall i | 0 <= i < ENTRIES :: s[i] == 0
  {
    seq(ENTRIES, _ => 0)
  }

  lemma ZeroNotValid()
    ensures !IsValid(0) && !IsMapped(0)
  {
  }

  /** At the last level the entry sits in the table that the path names. */
  lemma LowEntry(mem: Mem, root: nat, owner: map<nat, Path>, p: nat, va: nat)
    requires Shaped(mem, root, owner) && p in owner && owner[p] == PathTo(va, 0)
    ensures Entry(mem, root, va) == mem[p][Px(0, va)]
  {
    assert Leads(mem, root, owner[p], p);
    var q := Child(mem[root][Px(2, va)]);
    assert q in owner;
  }

  /** Where the walk finds no valid entry, nothing is mapped. */
  lemma MissingEntry(mem: Mem, root: nat, owner: map<nat, Path>, p: nat, va: nat, level: nat)
    requires Shaped(mem, root, owner) && 1 <= level <= 2
    requires p in owner && owner[p] == PathTo(va, level) && !IsValid(mem[p][Px(level, va)])
    ensures Entry(mem, root, va) == 0
  {
    assert Leads(mem, root, owner[p], p);
  }

  /**
   The entry that the hardware reaches (RISC-V privileged architecture, section "Sv39"): each level
   takes nine bits of the address and follows bits 10 and up of a valid entry.
   */
  lemma HardwareWalk(mem: Mem, root: nat, owner: map<nat, Path>, va: nat)
    requires Shaped(mem, root, owner)
    ensures root in mem && |mem[root]| == 512
    ensures var t := mem[root][va / 0x40000000 % 512];
            if t % 2 == 0 then Entry(mem, root, va) == 0
            else
              && t / 1024 in mem && |mem[t / 1024]| == 512
              && var u := mem[t / 1024][va / 0x200000 % 512];
              if u % 2 == 0 then Entry(mem, root, va) == 0
              else
                && u / 1024 in mem && |mem[u / 1024]| == 512
                && Entry(mem, root, va) == mem[u / 1024][va / 0x1000 % 512]
  {
    var t := mem[root][Px(2, va)];
    LowBit(t);
    if IsValid(t) {
      assert Child(t) in owner;
      LowBit(mem[Child(t)][Px(1, va)]);
    }
    hide And, Leads;
  }

  // ----- growing and writing

  function SetEntry(page: seq<nat>, i: nat, pte: nat): seq<nat>
    requires i < |page|
  {
    page[i := pte]
  }

  /** A new zeroed table hung from an invalid entry of an upper table. */
  function Hung(mem: Mem, p: nat, i: nat, n: nat): Mem
    requires p in mem && i < |mem[p]|
  {
    mem[n := ZeroPage()][p := SetEntry(mem[p], i, TablePte(n))]
  }

  lemma HungShaped(mem: Mem, root: nat, owner: map<nat, Path>, p: nat, i: nat, n: nat)
    requires Shaped(mem, root, owner) && p in owner && !owner[p].Low? && i < ENTRIES
    requires !IsValid(mem[p][i]) && n !in mem
    ensures Shaped(Hung(mem, p, i, n), root, owner[n := Below(owner[p], i)])
  {
    hide IsValid, TablePte, Child;
    TablePteFacts(n);
    ZeroNotValid();
    var mem', owner' := Hung(mem, p, i, n), owner[n := Below(owner[p], i)];
    forall x | x in owner'
      ensures x in mem' && |mem'[x]| == ENTRIES && Leads(mem', root, owner'[x], x)
    {
      if x == n {
        assert Leads(mem, root, owner[p], p);
      } else {
        HungLeads(mem, root, owner, p, i, n, x);
      }
    }
    forall x, k | x in owner' && !owner'[x].Low? && 0 <= k < ENTRIES && IsValid(mem'[x][k])
      ensures Child(mem'[x][k]) in owner' && owner'[Child(mem'[x][k])] == Below(owner'[x], k)
    {
      if x != n && !(x == p && k == i) {
        assert mem'[x][k] == mem[x][k];
      }
    }
  }

  lemma HungLeads(mem: Mem, root: nat, owner: map<nat, Path>, p: nat, i: nat, n: nat, x: nat)
    requires Shaped(mem, root, owner) && p in owner && i < ENTRIES && !IsValid(mem[p][i]) && n !in mem && x in owner
    ensures Leads(Hung(mem, p, i, n), root, owner[x], x)
  {
    hide IsValid, TablePte, Child;
    assert Leads(mem, root, owner[x], x);
  }

  /** Hanging an empty table changes no leaf entry. */
  lemma HungEntry(mem: Mem, root: nat, owner: map<nat, Path>, p: nat, i: nat, n: nat, va: nat)
    requires Shaped(mem, root, owner) && p in owner && !owner[p].Low? && i < ENTRIES
    requires !IsValid(mem[p][i]) && n !in mem
    ensures Entry(Hung(mem, p, i, n), root, va) == Entry(mem, root, va)
  {
    hide IsValid, TablePte, Child;
    TablePteFacts(n);
    ZeroNotValid();
    assert Leads(mem, root, owner[p], p);
    if IsValid(mem[root][Px(2, va)]) {
      var q := Child(mem[root][Px(2, va)]);
      assert q in owner && owner[q] == Mid(Px(2, va));
      if IsValid(mem[q][Px(1, va)]) {
        var r := Child(mem[q][Px(1, va)]);
        assert r in owner && owner[r] == Low(Px(2, va), Px(1, va));
      }
    }
  }

  function Stored(mem: Mem, p: nat, i: nat, pte: nat): Mem
    requires p in mem && i < |mem[p]|
  {
    mem[p := SetEntry(mem[p], i, pte)]
  }

  /** Writing a leaf entry keeps the tree and changes the entry of that virtual page alone. */
  lemma StoredShaped(mem: Mem, root: nat, owner: map<nat, Path>, p: nat, i: nat, pte: nat)
    requires Shaped(mem, root, owner) && p in owner && owner[p].Low? && i < ENTRIES
    ensures Shaped(Stored(mem, p, i, pte), root, owner)
  {
    hide IsValid, Child;
    var mem' := Stored(mem, p, i, pte);
    forall x | x in owner
      ensures Leads(mem', root, owner[x], x)
    {
      assert Leads(mem, root, owner[x], x);
      if owner[x].Low? {
        var q := Child(mem[root][owner[x].i]);
        assert q in owner && owner[q].Mid?;
      }
    }
  }

  lemma StoredEntry(mem: Mem, root: nat, owner: map<nat, Path>, p: nat, va: nat, pte: nat, vb: nat)
    requires Shaped(mem, root, owner) && p in owner && owner[p] == PathTo(va, 0)
    ensures Entry(Stored(mem, p, Px(0, va), pte), root, vb) == if Vpn(vb) == Vpn(va) then pte else Entry(mem, root, vb)
  {
    hide IsValid, Child;
    SamePage(va, vb);
    assert Leads(mem, root, owner[p], p);
    if IsValid(mem[root][Px(2, vb)]) {
      var q := Child(mem[root][Px(2, vb)]);
      assert q in owner && owner[q] == Mid(Px(2, vb));
      if IsValid(mem[q][Px(1, vb)]) {
        var r := Child(mem[q][Px(1, vb)]);
        assert r in owner && owner[r] == Low(Px(2, vb), Px(1, vb));
      }
    }
  }
}
