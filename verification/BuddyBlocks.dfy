/**
 The block structure behind the buddy allocator, on values: the page table of `order` and
 `private` fields, the free lists, and how merging, splitting, taking and returning a
 block change them.  Page numbers count from the base of the buddy arena, which is
 aligned to the largest block.
 */
module BuddyBlocks {
  import opened Bits
  import opened LinkedLists
  import opened Options

  const MAX_ORDER: nat := 11
  const BLOB_PAGES: nat := 2048

  /** The buddy fields of `struct page`; `private` is the start stored in the block descriptor it points to. */
  datatype Page = Page(order: nat, private: Option<nat>)

  /** The mark of a page that does not start a block. */
  const INTERIOR := Page(MAX_ORDER + 1, None)

  /** The page that starts a free block of order `k`. */
  function FreeHead(p: nat, k: nat): Page {
    Page(k, Some(p))
  }

  function BuddyOf(p: nat, k: nat): nat {
    Xor(p, Pow2(k))
  }

  /** Page `p` lies in a block of order `k`, free or allocated. */
  predicate Cover(pg: seq<Page>, p: nat, k: nat) {
    p < |pg| && k <= MAX_ORDER && (DownBounds(p, k); pg[Down(p, k)].order == k)
  }

  ghost predicate Covered(pg: seq<Page>, p: nat) {
    exists k: nat :: Cover(pg, p, k)
  }

  predicate FreeCover(pg: seq<Page>, p: nat, k: nat) {
    Cover(pg, p, k) && (DownBounds(p, k); pg[Down(p, k)].private.Some?)
  }

  /** Blocks are aligned to their size and every page lies in exactly one of them. */
  ghost predicate Tiled(pg: seq<Page>) {
    && Aligned(|pg|, MAX_ORDER)
    && (forall h: nat | h < |pg| && pg[h].order <= MAX_ORDER :: Aligned(h, pg[h].order))
    && (forall p: nat | p < |pg| :: Covered(pg, p))
    && (forall p: nat, j: nat, k: nat | Cover(pg, p, j) && Cover(pg, p, k) :: j == k)
  }

  /** The list names exactly the free blocks of order `k`. */
  ghost predicate Holds(pg: seq<Page>, list: seq<nat>, k: nat) {
    forall p: nat :: p in list <==> p < |pg| && pg[p] == FreeHead(p, k)
  }

  /** List `k` holds exactly the free blocks of order `k`, and `private` marks exactly the free blocks. */
  ghost predicate Listed(pg: seq<Page>, fl: seq<seq<nat>>) {
    && |fl| == MAX_ORDER + 1
    && (forall k: nat | k <= MAX_ORDER :: NoDup(fl[k]) && Holds(pg, fl[k], k))
    && (forall p: nat | p < |pg| && pg[p].private.Some? :: pg[p].order <= MAX_ORDER && pg[p].private.value == p)
  }

  ghost predicate Inv(pg: seq<Page>, fl: seq<seq<nat>>) {
    Tiled(pg) && Listed(pg, fl)
  }

  ghost predicate IsFree(pg: seq<Page>, p: nat) {
    exists k: nat :: FreeCover(pg, p, k)
  }

  /** The pages of all free blocks. */
  ghost function FreePages(pg: seq<Page>): (s: set<nat>)
    ensures forall p: nat :: p in s <==> IsFree(pg, p)
  {
    set p: nat | 0 <= p < |pg| && IsFree(pg, p)
  }

  /** The allocated blocks: start page to order. */
  ghost function Live(pg: seq<Page>): map<nat, nat> {
    map p: nat | 0 <= p < |pg| && pg[p].order <= MAX_ORDER && pg[p].private.None? :: pg[p].order
  }

  /** The pages of the block of order `k` at `a`. */
  function Run(a: nat, k: nat): set<nat> {
    Interval(a, a + Pow2(k))
  }

  function Interval(lo: nat, hi: nat): (s: set<nat>)
    requires lo <= hi
    ensures forall p: nat :: p in s <==> lo <= p < hi
    ensures |s| == hi - lo
    decreases hi - lo
  {
    if lo == hi then {} else Interval(lo + 1, hi) + {lo}
  }

  /** A place where a block of order `k` could be: an aligned run of free pages. */
  predicate Available(free: set<nat>, a: nat, k: nat) {
    Aligned(a, k) && Run(a, k) <= free
  }

  /** The buddy of the block of order `j` at `p` is itself a free block of order `j`. */
  predicate Paired(pg: seq<Page>, p: nat, j: nat) {
    BuddyOf(p, j) < |pg| && pg[BuddyOf(p, j)] == FreeHead(BuddyOf(p, j), j)
  }

  /** No two free blocks of order `j` are buddies. */
  ghost predicate NoBuddies(pg: seq<Page>, j: nat) {
    forall p: nat | p < |pg| && pg[p] == FreeHead(p, j) :: !Paired(pg, p, j)
  }

  // ----- geometry

  lemma CoverFacts(pg: seq<Page>, p: nat, k: nat)
    requires Cover(pg, p, k)
    ensures Down(p, k) <= p < Down(p, k) + Pow2(k) && Aligned(Down(p, k), k)
  {
    DownBounds(p, k);
    DownIdempotent(p, k);
  }

  /** A block does not reach past the end of the arena. */
  lemma BlockInArena(n: nat, p: nat, k: nat)
    requires Aligned(n, MAX_ORDER) && k <= MAX_ORDER && p < n
    ensures Down(p, k) + Pow2(k) <= n
  {
    DownBounds(p, k);
    DownIdempotent(p, k);
    if n < Down(p, k) + Pow2(k) {
      DownUnique(Down(p, k), n, k);
      DownDown(n, k, MAX_ORDER);
      assert false;
    }
  }

  lemma BuddyFacts(n: nat, p: nat, k: nat)
    requires Aligned(n, MAX_ORDER) && k < MAX_ORDER && p < n && Aligned(p, k)
    ensures var b := BuddyOf(p, k); var lo := Down(p, k + 1);
            && b < n && b != p && Aligned(b, k) && BuddyOf(b, k) == p
            && Down(b, k + 1) == lo && Aligned(lo, k + 1) && Aligned(lo, k)
            && ((lo == p && b == p + Pow2(k)) || (lo == b && p == b + Pow2(k)))
  {
    var lo := Down(p, k + 1);
    XorBuddy(p, k);
    BlockInArena(n, p, k + 1);
    DownIdempotent(p, k + 1);
    DownDown(p, k, k + 1);
    var b := BuddyOf(p, k);
    if lo == p {
      assert b == p + Pow2(k);
      DownUnique(lo, b, k + 1);
      DownHalves(b, k);
      DownBounds(b, k);
      XorBuddy(b, k);
    } else {
      assert b == lo;
      XorBuddy(b, k);
    }
  }

  /** The two halves of a parent block. */
  lemma InHalves(p: nat, lo: nat, k: nat)
    requires Aligned(lo, k + 1)
    ensures Down(p, k + 1) == lo <==> Down(p, k) == lo || Down(p, k) == lo + Pow2(k)
  {
    DownHalves(p, k);
    DownBounds(p, k);
    if Down(p, k) == lo || Down(p, k) == lo + Pow2(k) {
      DownUnique(lo, p, k + 1);
    }
  }

  // ----- the four ways the blocks change

  /** Joining the free block at `lo` with its free upper buddy, as `merge_blocks` rewrites the page table. */
  function Joined(pg: seq<Page>, lo: nat, k: nat): seq<Page>
    requires lo + Pow2(k) < |pg|
  {
    pg[lo := FreeHead(lo, k + 1)][lo + Pow2(k) := INTERIOR]
  }

  /** Every page keeps its block, except that the two halves become one. */
  lemma JoinedCover(pg: seq<Page>, lo: nat, k: nat, p: nat, j: nat)
    requires Tiled(pg) && k < MAX_ORDER && Aligned(lo, k + 1) && lo + Pow2(k) < |pg|
    requires pg[lo] == FreeHead(lo, k) && pg[lo + Pow2(k)] == FreeHead(lo + Pow2(k), k)
    requires p < |pg| && j <= MAX_ORDER
    ensures var pg' := Joined(pg, lo, k);
            if Down(p, k + 1) == lo
            then (Cover(pg', p, j) <==> j == k + 1) && Cover(pg, p, k)
                 && FreeCover(pg, p, k) && FreeCover(pg', p, k + 1)
            else (Cover(pg', p, j) <==> Cover(pg, p, j)) && (FreeCover(pg', p, j) <==> FreeCover(pg, p, j))
  {
    if Down(p, k + 1) == lo {
      JoinedInside(pg, lo, k, p, j);
    } else {
      JoinedOutside(pg, lo, k, p, j);
    }
  }

  lemma JoinedInside(pg: seq<Page>, lo: nat, k: nat, p: nat, j: nat)
    requires Tiled(pg) && k < MAX_ORDER && Aligned(lo, k + 1) && lo + Pow2(k) < |pg|
    requires pg[lo] == FreeHead(lo, k) && pg[lo + Pow2(k)] == FreeHead(lo + Pow2(k), k)
    requires p < |pg| && j <= MAX_ORDER && Down(p, k + 1) == lo
    ensures var pg' := Joined(pg, lo, k);
            (Cover(pg', p, j) <==> j == k + 1) && Cover(pg, p, k) && FreeCover(pg, p, k) && FreeCover(pg', p, k + 1)
  {
    InHalves(p, lo, k);
    DownBounds(p, j);
    DownBounds(p, k);
    DownBounds(p, k + 1);
    assert Cover(pg, p, k);
    assert Cover(pg, p, j) ==> j == k;
    hide Aligned, Pow2, Down;
  }

  lemma JoinedOutside(pg: seq<Page>, lo: nat, k: nat, p: nat, j: nat)
    requires k < MAX_ORDER && Aligned(lo, k + 1) && lo + Pow2(k) < |pg|
    requires pg[lo] == FreeHead(lo, k) && pg[lo + Pow2(k)] == FreeHead(lo + Pow2(k), k)
    requires p < |pg| && j <= MAX_ORDER && Down(p, k + 1) != lo
    ensures var pg' := Joined(pg, lo, k);
            (Cover(pg', p, j) <==> Cover(pg, p, j)) && (FreeCover(pg', p, j) <==> FreeCover(pg, p, j))
  {
    assert Pow2(k + 1) == 2 * Pow2(k);
    hide Down, Pow2;
    InHalves(p, lo, k);
    DownBounds(p, j);
    DownBounds(p, k);
    NotUpperHalf(lo, k, p, j);
  }

  lemma NotUpperHalf(lo: nat, k: nat, p: nat, j: nat)
    requires Aligned(lo, k + 1)
    ensures j == k + 1 ==> Down(p, j) != lo + Pow2(k)
  {
    if j == k + 1 && Down(p, j) == lo + Pow2(k) {
      DownIdempotent(p, j);
      DownUnique(lo, lo + Pow2(k), k + 1);
      assert false;
    }
  }

  lemma JoinedTiled(pg: seq<Page>, lo: nat, k: nat)
    requires Tiled(pg) && k < MAX_ORDER && Aligned(lo, k + 1) && lo + Pow2(k) < |pg|
    requires pg[lo] == FreeHead(lo, k) && pg[lo + Pow2(k)] == FreeHead(lo + Pow2(k), k)
    ensures var pg' := Joined(pg, lo, k);
            Tiled(pg') && FreePages(pg') == FreePages(pg) && Live(pg') == Live(pg)
  {
    var pg' := Joined(pg, lo, k);
    JoinedCovered(pg, lo, k);
    SameFree(pg, pg');
    JoinedLive(pg, lo, k);
    hide Cover, FreeCover, Covered, IsFree, FreePages, Live, Down, Aligned;
    forall h: nat | h < |pg'| && pg'[h].order <= MAX_ORDER
      ensures Aligned(h, pg'[h].order)
    {
    }
  }

  lemma JoinedLive(pg: seq<Page>, lo: nat, k: nat)
    requires lo + Pow2(k) < |pg| && pg[lo].private.Some? && pg[lo + Pow2(k)].private.Some?
    ensures Live(Joined(pg, lo, k)) == Live(pg)
  {
  }

  lemma SameFree(pg: seq<Page>, pg': seq<Page>)
    requires |pg'| == |pg| && forall p: nat | p < |pg| :: IsFree(pg', p) <==> IsFree(pg, p)
    ensures FreePages(pg') == FreePages(pg)
  {
    hide IsFree;
  }

  lemma JoinedCovered(pg: seq<Page>, lo: nat, k: nat)
    requires Tiled(pg) && k < MAX_ORDER && Aligned(lo, k + 1) && lo + Pow2(k) < |pg|
    requires pg[lo] == FreeHead(lo, k) && pg[lo + Pow2(k)] == FreeHead(lo + Pow2(k), k)
    ensures var pg' := Joined(pg, lo, k);
            && (forall p: nat | p < |pg| :: Covered(pg', p) && (IsFree(pg', p) <==> IsFree(pg, p)))
            && (forall p: nat, i: nat, j: nat | Cover(pg', p, i) && Cover(pg', p, j) :: i == j)
  {
    var pg' := Joined(pg, lo, k);
    forall p: nat, j: nat | p < |pg| && j <= MAX_ORDER
      ensures if Down(p, k + 1) == lo
            then (Cover(pg', p, j) <==> j == k + 1) && Cover(pg, p, k)
                 && FreeCover(pg, p, k) && FreeCover(pg', p, k + 1)
            else (Cover(pg', p, j) <==> Cover(pg, p, j)) && (FreeCover(pg', p, j) <==> FreeCover(pg, p, j))
    {
      JoinedCover(pg, lo, k, p, j);
    }
    assert forall p: nat, j: nat | Cover(pg', p, j) || FreeCover(pg', p, j) || Cover(pg, p, j) || FreeCover(pg, p, j) ::
        p < |pg| && j <= MAX_ORDER;
    hide Cover, FreeCover, Aligned, Down;
    forall p: nat | p < |pg'|
      ensures Covered(pg', p) && (IsFree(pg', p) <==> IsFree(pg, p))
    {
      assert Covered(pg, p);
      var j: nat :| Cover(pg, p, j);
      if Down(p, k + 1) == lo {
        assert Cover(pg', p, k + 1) && FreeCover(pg, p, k) && FreeCover(pg', p, k + 1);
      }
    }
  }

  /** Cutting the free block at `lo` in two, as `split_blocks` rewrites the page table. */
  function Cut(pg: seq<Page>, lo: nat, k: nat): seq<Page>
    requires lo + Pow2(k) < |pg|
  {
    pg[lo := FreeHead(lo, k)][lo + Pow2(k) := FreeHead(lo + Pow2(k), k)]
  }

  lemma CutCover(pg: seq<Page>, lo: nat, k: nat, p: nat, j: nat)
    requires Tiled(pg) && k < MAX_ORDER && Aligned(lo, k + 1) && lo + Pow2(k) < |pg|
    requires pg[lo] == FreeHead(lo, k + 1)
    requires p < |pg| && j <= MAX_ORDER
    ensures var pg' := Cut(pg, lo, k);
            if Down(p, k + 1) == lo
            then (Cover(pg', p, j) <==> j == k) && Cover(pg, p, k + 1)
                 && FreeCover(pg, p, k + 1) && FreeCover(pg', p, k)
            else (Cover(pg', p, j) <==> Cover(pg, p, j)) && (FreeCover(pg', p, j) <==> FreeCover(pg, p, j))
  {
    InHalves(p, lo, k);
    DownBounds(p, j);
    DownBounds(p, k);
    DownBounds(p, k + 1);
    DownUnique(lo, lo + Pow2(k), k + 1);
    if Down(p, k + 1) == lo {
      assert Cover(pg, p, k + 1);
      assert Cover(pg, p, j) ==> j == k + 1;
    } else if Down(p, j) == lo + Pow2(k) {
      DownIdempotent(p, j);
      UpperHalf(pg, lo, k, p, j);
    }
  }

  /** Outside the block to be cut, no page's block starts at the upper half. */
  lemma UpperHalf(pg: seq<Page>, lo: nat, k: nat, p: nat, j: nat)
    requires Tiled(pg) && k < MAX_ORDER && Aligned(lo, k + 1) && lo + Pow2(k) < |pg|
    requires pg[lo] == FreeHead(lo, k + 1)
    requires p < |pg| && j <= MAX_ORDER && Down(p, k + 1) != lo && Down(p, j) == lo + Pow2(k)
    ensures !Cover(pg, p, j) && j != k && pg[lo + Pow2(k)].order > MAX_ORDER
  {
    var hi := lo + Pow2(k);
    DownUnique(lo, hi, k + 1);
    assert Cover(pg, hi, k + 1);
    InteriorOrder(pg, hi, k + 1);
    InHalves(p, lo, k);
  }

  lemma CutTiled(pg: seq<Page>, lo: nat, k: nat)
    requires Tiled(pg) && k < MAX_ORDER && Aligned(lo, k + 1) && lo + Pow2(k) < |pg|
    requires pg[lo] == FreeHead(lo, k + 1)
    ensures var pg' := Cut(pg, lo, k);
            Tiled(pg') && FreePages(pg') == FreePages(pg) && Live(pg') == Live(pg)
  {
    var pg', hi := Cut(pg, lo, k), lo + Pow2(k);
    CutCovered(pg, lo, k);
    CutAligned(pg, lo, k);
    SameFree(pg, pg');
    CutLive(pg, lo, k);
    hide Cover, FreeCover, Covered, IsFree, FreePages, Live, Cut, Aligned, Down;
    assert |pg'| == |pg|;
  }

  lemma CutLive(pg: seq<Page>, lo: nat, k: nat)
    requires lo + Pow2(k) < |pg| && pg[lo].private.Some? && pg[lo + Pow2(k)].order > MAX_ORDER
    ensures |Cut(pg, lo, k)| == |pg| && Live(Cut(pg, lo, k)) == Live(pg)
  {
  }

  /** The block starts after a cut. */
  lemma CutAligned(pg: seq<Page>, lo: nat, k: nat)
    requires Tiled(pg) && k < MAX_ORDER && Aligned(lo, k + 1) && lo + Pow2(k) < |pg|
    requires pg[lo] == FreeHead(lo, k + 1)
    ensures pg[lo + Pow2(k)].order > MAX_ORDER
    ensures forall h: nat | h < |pg| && Cut(pg, lo, k)[h].order <= MAX_ORDER :: Aligned(h, Cut(pg, lo, k)[h].order)
  {
    var hi := lo + Pow2(k);
    DownUnique(lo, hi, k + 1);
    assert Cover(pg, hi, k + 1);
    InteriorOrder(pg, hi, k + 1);
    HalfAligned(lo, k);
  }

  lemma CutCovered(pg: seq<Page>, lo: nat, k: nat)
    requires Tiled(pg) && k < MAX_ORDER && Aligned(lo, k + 1) && lo + Pow2(k) < |pg|
    requires pg[lo] == FreeHead(lo, k + 1)
    ensures var pg' := Cut(pg, lo, k);
            && (forall p: nat | p < |pg| :: Covered(pg', p) && (IsFree(pg', p) <==> IsFree(pg, p)))
            && (forall p: nat, i: nat, j: nat | Cover(pg', p, i) && Cover(pg', p, j) :: i == j)
  {
    var pg' := Cut(pg, lo, k);
    forall p: nat, j: nat | p < |pg| && j <= MAX_ORDER
      ensures if Down(p, k + 1) == lo
            then (Cover(pg', p, j) <==> j == k) && Cover(pg, p, k + 1)
                 && FreeCover(pg, p, k + 1) && FreeCover(pg', p, k)
            else (Cover(pg', p, j) <==> Cover(pg, p, j)) && (FreeCover(pg', p, j) <==> FreeCover(pg, p, j))
    {
      CutCover(pg, lo, k, p, j);
    }
    assert forall p: nat, j: nat | Cover(pg', p, j) || FreeCover(pg', p, j) || Cover(pg, p, j) || FreeCover(pg, p, j) ::
        p < |pg| && j <= MAX_ORDER;
    hide Cover, FreeCover, Aligned, Down;
    forall p: nat | p < |pg'|
      ensures Covered(pg', p) && (IsFree(pg', p) <==> IsFree(pg, p))
    {
      assert Covered(pg, p);
      var j: nat :| Cover(pg, p, j);
      if Down(p, k + 1) == lo {
        assert Cover(pg', p, k) && FreeCover(pg', p, k) && FreeCover(pg, p, k + 1);
      }
    }
  }

  /** A page that is not the first of its block starts no block. */
  lemma InteriorOrder(pg: seq<Page>, p: nat, k: nat)
    requires Tiled(pg) && Cover(pg, p, k) && Down(p, k) != p
    ensures pg[p].order > MAX_ORDER
  {
    if pg[p].order <= MAX_ORDER {
      assert Cover(pg, p, pg[p].order);
      assert false;
    }
  }

  lemma HalfAligned(lo: nat, k: nat)
    requires Aligned(lo, k + 1)
    ensures Aligned(lo, k) && Aligned(lo + Pow2(k), k)
  {
    DownDown(lo, k, k + 1);
    XorBuddy(lo, k);
    var hi := lo + Pow2(k);
    DownUnique(lo, hi, k + 1);
    DownHalves(hi, k);
    DownBounds(hi, k);
  }

  lemma RepossessedPage(pg: seq<Page>, a: nat, k: nat, v: Option<nat>, p: nat)
    requires Tiled(pg) && a < |pg| && k <= MAX_ORDER && pg[a].order == k && p < |pg|
    ensures var pg' := pg[a := Page(k, v)];
            && (forall j: nat :: Cover(pg', p, j) <==> Cover(pg, p, j))
            && (p in Run(a, k) ==> (IsFree(pg', p) <==> v.Some?) && (IsFree(pg, p) <==> pg[a].private.Some?))
            && (p !in Run(a, k) ==> (IsFree(pg', p) <==> IsFree(pg, p)))
  {
    var pg' := pg[a := Page(k, v)];
    forall j: nat
      ensures Cover(pg', p, j) <==> Cover(pg, p, j)
      ensures Cover(pg, p, j) && p !in Run(a, k) ==> (FreeCover(pg', p, j) <==> FreeCover(pg, p, j))
    {
      DownBounds(p, j);
    }
    if p in Run(a, k) {
      DownUnique(a, p, k);
      assert Cover(pg, p, k) && Cover(pg', p, k);
      assert pg[a].private.Some? ==> FreeCover(pg, p, k);
      assert v.Some? ==> FreeCover(pg', p, k);
    } else {
      assert forall j: nat :: FreeCover(pg', p, j) ==> FreeCover(pg, p, j);
      assert forall j: nat :: FreeCover(pg, p, j) ==> FreeCover(pg', p, j);
    }
  }

  lemma RepossessedTiled(pg: seq<Page>, a: nat, k: nat, v: Option<nat>)
    requires Tiled(pg) && a < |pg| && k <= MAX_ORDER && pg[a].order == k
    ensures Tiled(pg[a := Page(k, v)])
  {
    var pg' := pg[a := Page(k, v)];
    forall p: nat, j: nat
      ensures Cover(pg', p, j) <==> Cover(pg, p, j)
    {
      DownBounds(p, j);
    }
    forall p: nat | p < |pg|
      ensures Covered(pg', p)
    {
      assert Covered(pg, p);
      var j: nat :| Cover(pg, p, j);
      assert Cover(pg', p, j);
    }
  }

  lemma RepossessedLive(pg: seq<Page>, a: nat, k: nat, v: Option<nat>)
    requires a < |pg| && k <= MAX_ORDER && pg[a].order == k
    ensures Live(pg[a := Page(k, v)]) == (if v.Some? then Live(pg) - {a} else Live(pg)[a := k])
  {
  }

  lemma RepossessedFree(pg: seq<Page>, a: nat, k: nat, v: Option<nat>)
    requires Tiled(pg) && a < |pg| && k <= MAX_ORDER && pg[a].order == k
    ensures FreePages(pg[a := Page(k, v)]) == (if v.Some? then FreePages(pg) + Run(a, k) else FreePages(pg) - Run(a, k))
    ensures if pg[a].private.Some? then Run(a, k) <= FreePages(pg) else Run(a, k) !! FreePages(pg)
    ensures Run(a, k) <= Interval(0, |pg|)
  {
    DownIdempotent(a, k);
    BlockInArena(|pg|, a, k);
    var s, s', run := FreePages(pg), FreePages(pg[a := Page(k, v)]), Run(a, k);
    forall p: nat
      ensures p in run ==> (p in s' <==> v.Some?) && (p in s <==> pg[a].private.Some?)
      ensures p !in run ==> (p in s' <==> p in s)
    {
      if p < |pg| {
        RepossessedPage(pg, a, k, v, p);
      }
    }
  }

  /** Taking or returning the block at `a` touches only its `private` field. */
  lemma Repossessed(pg: seq<Page>, a: nat, k: nat, v: Option<nat>)
    requires Tiled(pg) && a < |pg| && k <= MAX_ORDER && pg[a].order == k
    ensures var pg' := pg[a := Page(k, v)];
            && Tiled(pg') && Aligned(a, k) && Run(a, k) <= Interval(0, |pg|)
            && FreePages(pg') == (if v.Some? then FreePages(pg) + Run(a, k) else FreePages(pg) - Run(a, k))
            && Live(pg') == (if v.Some? then Live(pg) - {a} else Live(pg)[a := k])
            && (pg[a].private.Some? ==> Run(a, k) <= FreePages(pg))
            && (pg[a].private.None? ==> Run(a, k) !! FreePages(pg))
  {
    RepossessedTiled(pg, a, k, v);
    RepossessedFree(pg, a, k, v);
    RepossessedLive(pg, a, k, v);
  }

  // ----- completeness

  /** Inside an aligned run of order `k`, blocks of smaller order come in buddy pairs. */
  lemma BuddyInRun(n: nat, a: nat, k: nat, b: nat, m: nat)
    requires Aligned(n, MAX_ORDER) && m < k <= MAX_ORDER && b < n
    requires Aligned(a, k) && Aligned(b, m) && b in Run(a, k)
    ensures BuddyOf(b, m) in Run(a, k)
  {
    var b' := BuddyOf(b, m);
    hide Down, Pow2, Aligned, BuddyOf;
    BuddyFacts(n, b, m);
    DownUnique(a, b, k);
    DownDown(b, m + 1, k);
    DownDown(b', m + 1, k);
    DownBounds(b', k);
  }

  /** A block larger than `m` that holds the buddy of `b` holds `b` too. */
  lemma LargerHoldsBoth(pg: seq<Page>, b: nat, m: nat, j: nat)
    requires Tiled(pg) && m < j <= MAX_ORDER && Aligned(b, m) && b < |pg|
    requires Cover(pg, BuddyOf(b, m), j)
    ensures Cover(pg, b, j)
  {
    BuddyFacts(|pg|, b, m);
    DownDown(b, m + 1, j);
    DownDown(BuddyOf(b, m), m + 1, j);
  }

  /** Each `private` field points back at its own page. */
  predicate Labelled(pg: seq<Page>) {
    forall h: nat | h < |pg| && pg[h].private.Some? :: pg[h].private.value == h
  }

  lemma FreeStart(pg: seq<Page>, b: nat, m: nat)
    requires Tiled(pg) && Labelled(pg) && IsFree(pg, b) && Aligned(b, m) && Cover(pg, b, m)
    ensures pg[b] == FreeHead(b, m)
  {
    var i: nat :| FreeCover(pg, b, i);
    assert Cover(pg, b, i);
  }

  lemma BuddyElsewhere(pg: seq<Page>, b: nat, m: nat)
    requires Tiled(pg) && Labelled(pg) && m < MAX_ORDER && NoBuddies(pg, m)
    requires Aligned(b, m) && Cover(pg, b, m) && IsFree(pg, b) && IsFree(pg, BuddyOf(b, m))
    ensures !Cover(pg, BuddyOf(b, m), m)
  {
    BuddyFacts(|pg|, b, m);
    FreeStart(pg, b, m);
    if Cover(pg, BuddyOf(b, m), m) {
      FreeStart(pg, BuddyOf(b, m), m);
      assert false;
    }
  }

  /** In a wholly free aligned run of order `k`, with no buddies left below `k`, no block is smaller than the run. */
  lemma {:induction false} NoSmallBlock(pg: seq<Page>, a: nat, k: nat, m: nat, p: nat)
    requires Tiled(pg) && Labelled(pg) && m < k <= MAX_ORDER
    requires forall j: nat | j < k :: NoBuddies(pg, j)
    requires Available(FreePages(pg), a, k) && p in Run(a, k)
    ensures !Cover(pg, p, m)
    decreases m
  {
    if Cover(pg, p, m) {
      // b starts the block around p; its buddy is in the run as well, and both are free
      var b := Down(p, m);
      CoverFacts(pg, p, m);
      DownUnique(a, p, k);
      DownDown(p, m, k);
      DownBounds(b, k);
      var b' := BuddyOf(b, m);
      BuddyFacts(|pg|, b, m);
      BuddyInRun(|pg|, a, k, b, m);
      assert b in FreePages(pg) && b' in FreePages(pg);
      assert Cover(pg, b, m);
      BuddyElsewhere(pg, b, m);
      var j: nat :| FreeCover(pg, b', j);
      if j < m {
        NoSmallBlock(pg, a, k, j, b');
      } else {
        LargerHoldsBoth(pg, b, m, j);
      }
      assert false;
    }
  }

  /** After exhaustive merging below `k`, an available run of order `k` lies in a free block of order at least `k`. */
  lemma Completeness(pg: seq<Page>, a: nat, k: nat)
    requires Tiled(pg) && Labelled(pg) && k <= MAX_ORDER
    requires forall j: nat | j < k :: NoBuddies(pg, j)
    requires Available(FreePages(pg), a, k)
    ensures exists h: nat, j: nat :: k <= j <= MAX_ORDER && h < |pg| && pg[h] == FreeHead(h, j)
  {
    assert a in Run(a, k);
    assert IsFree(pg, a);
    var j: nat :| FreeCover(pg, a, j);
    if j < k {
      NoSmallBlock(pg, a, k, j, a);
    }
    DownBounds(a, j);
    assert pg[Down(a, j)] == FreeHead(Down(a, j), j);
  }

  // ----- the free lists

  /** The free lists after the blocks at `p` and its buddy were joined at `lo`. */
  function JoinedLists(fl: seq<seq<nat>>, p: nat, b: nat, lo: nat, k: nat): seq<seq<nat>>
    requires k + 1 < |fl|
  {
    fl[k := Remove(Remove(fl[k], p), b)][k + 1 := [lo] + fl[k + 1]]
  }

  lemma JoinedListsHold(pg: seq<Page>, fl: seq<seq<nat>>, p: nat, b: nat, lo: nat, k: nat)
    requires Listed(pg, fl) && k < MAX_ORDER && lo + Pow2(k) < |pg|
    requires pg[lo] == FreeHead(lo, k) && pg[lo + Pow2(k)] == FreeHead(lo + Pow2(k), k)
    requires (p == lo && b == lo + Pow2(k)) || (b == lo && p == lo + Pow2(k))
    ensures var fl' := JoinedLists(fl, p, b, lo, k);
            b in fl[k] && Listed(Joined(pg, lo, k), fl') && |fl'[k]| == |fl[k]| - 2
  {
    TwoRemoved(pg, fl[k], p, b, k);
    hide Remove;
    JoinedHalves(pg, Remove(Remove(fl[k], p), b), lo, k);
    JoinedParent(pg, fl[k + 1], lo, k);
    hide NoDup, Holds;
    var pg', fl' := Joined(pg, lo, k), JoinedLists(fl, p, b, lo, k);
    forall j: nat | j <= MAX_ORDER
      ensures NoDup(fl'[j]) && Holds(pg', fl'[j], j)
    {
      if j != k && j != k + 1 {
        JoinedElsewhere(pg, fl[j], lo, k, j);
      }
    }
  }

  lemma JoinedHalves(pg: seq<Page>, list: seq<nat>, lo: nat, k: nat)
    requires lo + Pow2(k) < |pg|
    requires forall q: nat :: q in list <==> q < |pg| && pg[q] == FreeHead(q, k) && q != lo && q != lo + Pow2(k)
    ensures Holds(Joined(pg, lo, k), list, k)
  {
    hide Pow2;
  }

  lemma JoinedParent(pg: seq<Page>, list: seq<nat>, lo: nat, k: nat)
    requires lo + Pow2(k) < |pg| && pg[lo].order == k && pg[lo + Pow2(k)].order == k && k < MAX_ORDER
    requires NoDup(list) && Holds(pg, list, k + 1)
    ensures NoDup([lo] + list) && Holds(Joined(pg, lo, k), [lo] + list, k + 1)
  {
    hide Pow2;
    PushFacts(list, lo);
  }

  lemma JoinedElsewhere(pg: seq<Page>, list: seq<nat>, lo: nat, k: nat, j: nat)
    requires Holds(pg, list, j) && j != k && j != k + 1 && j <= MAX_ORDER && lo + Pow2(k) < |pg|
    requires pg[lo].order == k && pg[lo + Pow2(k)].order == k
    ensures Holds(Joined(pg, lo, k), list, j)
  {
  }

  lemma TwoRemoved(pg: seq<Page>, list: seq<nat>, p: nat, b: nat, k: nat)
    requires NoDup(list) && Holds(pg, list, k)
    requires p < |pg| && b < |pg| && p != b && pg[p] == FreeHead(p, k) && pg[b] == FreeHead(b, k)
    ensures b in list && NoDup(Remove(Remove(list, p), b)) && |Remove(Remove(list, p), b)| == |list| - 2
    ensures forall q: nat :: q in Remove(Remove(list, p), b) <==>
      q < |pg| && pg[q] == FreeHead(q, k) && q != p && q != b
  {
    RemoveFacts(list, p);
    RemoveFacts(Remove(list, p), b);
  }

  lemma JoinedListed(pg: seq<Page>, fl: seq<seq<nat>>, p: nat, k: nat)
    requires Inv(pg, fl) && k < MAX_ORDER && p in fl[k]
    requires Paired(pg, p, k)
    ensures var b, lo := BuddyOf(p, k), Down(p, k + 1); var fl' := JoinedLists(fl, p, b, lo, k);
            && (lo == p || lo == b) && lo + Pow2(k) < |pg| && b in fl[k]
            && Listed(Joined(pg, lo, k), fl') && |fl'[k]| == |fl[k]| - 2
  {
    assert Holds(pg, fl[k], k);
    BuddyFacts(|pg|, p, k);
    JoinedListsHold(pg, fl, p, BuddyOf(p, k), Down(p, k + 1), k);
  }

  /** The free lists after the first block of list `k + 1` was cut in two. */
  function CutLists(fl: seq<seq<nat>>, lo: nat, k: nat): seq<seq<nat>>
    requires k + 1 < |fl| && fl[k + 1] != []
  {
    fl[k + 1 := fl[k + 1][1..]][k := fl[k] + [lo] + [lo + Pow2(k)]]
  }

  lemma CutListsHold(pg: seq<Page>, fl: seq<seq<nat>>, lo: nat, k: nat)
    requires Listed(pg, fl) && k < MAX_ORDER && lo + Pow2(k) < |pg|
    requires fl[k + 1] != [] && lo == fl[k + 1][0]
    requires pg[lo] == FreeHead(lo, k + 1) && pg[lo + Pow2(k)].order > MAX_ORDER
    ensures Listed(Cut(pg, lo, k), CutLists(fl, lo, k))
  {
    var hi := lo + Pow2(k);
    assert Holds(pg, fl[k], k) && Holds(pg, fl[k + 1], k + 1);
    PopFacts(fl[k + 1]);
    PushFacts(fl[k], lo);
    PushFacts(fl[k] + [lo], hi);
    var pg', fl' := Cut(pg, lo, k), CutLists(fl, lo, k);
    forall j: nat | j <= MAX_ORDER
      ensures NoDup(fl'[j]) && Holds(pg', fl'[j], j)
    {
      assert Holds(pg, fl[j], j);
    }
  }

  lemma CutListed(pg: seq<Page>, fl: seq<seq<nat>>, k: nat)
    requires Inv(pg, fl) && k < MAX_ORDER && fl[k + 1] != []
    ensures var lo := fl[k + 1][0];
            && lo + Pow2(k) < |pg| && pg[lo] == FreeHead(lo, k + 1) && Aligned(lo, k + 1)
            && BuddyOf(lo, k) == lo + Pow2(k)
            && Listed(Cut(pg, lo, k), CutLists(fl, lo, k))
  {
    var lo := fl[k + 1][0];
    assert Holds(pg, fl[k + 1], k + 1) && lo in fl[k + 1];
    hide Listed;
    UpperHalfInside(pg, lo, k);
    CutListsHold(pg, fl, lo, k);
  }

  lemma UpperHalfInside(pg: seq<Page>, lo: nat, k: nat)
    requires Tiled(pg) && k < MAX_ORDER && lo < |pg| && pg[lo] == FreeHead(lo, k + 1)
    ensures lo + Pow2(k) < |pg| && Aligned(lo, k + 1) && BuddyOf(lo, k) == lo + Pow2(k)
    ensures pg[lo + Pow2(k)].order > MAX_ORDER
  {
    var hi := lo + Pow2(k);
    assert Aligned(lo, k + 1) && Pow2(k + 1) == 2 * Pow2(k);
    hide Pow2, Down;
    BlockInArena(|pg|, lo, k + 1);
    DownDown(lo, k, k + 1);
    XorBuddy(lo, k);
    DownUnique(lo, hi, k + 1);
    assert Cover(pg, hi, k + 1);
    InteriorOrder(pg, hi, k + 1);
  }

  lemma TakenListed(pg: seq<Page>, fl: seq<seq<nat>>, k: nat)
    requires Inv(pg, fl) && k <= MAX_ORDER && fl[k] != []
    ensures var a := fl[k][0];
            && a < |pg| && pg[a] == FreeHead(a, k)
            && Listed(pg[a := Page(k, None)], fl[k := fl[k][1..]])
  {
    var a := fl[k][0];
    assert Holds(pg, fl[k], k) && a in fl[k];
    PopFacts(fl[k]);
  }

  lemma ReturnedListed(pg: seq<Page>, fl: seq<seq<nat>>, a: nat)
    requires Inv(pg, fl) && a < |pg| && pg[a].order <= MAX_ORDER && pg[a].private.None?
    ensures var k := pg[a].order;
            Listed(pg[a := FreeHead(a, k)], fl[k := [a] + fl[k]])
  {
    PushFacts(fl[pg[a].order], a);
  }

  // ----- the initial state

  lemma BlobPages()
    ensures Pow2(MAX_ORDER) == BLOB_PAGES
  {
  }

  lemma BlobStart(b: nat)
    ensures Aligned(b * BLOB_PAGES, MAX_ORDER)
    ensures forall q: nat | b * BLOB_PAGES < q < b * BLOB_PAGES + BLOB_PAGES :: !Aligned(q, MAX_ORDER)
  {
    var p := b * BLOB_PAGES;
    BlobPages();
    hide Pow2;
    DivModUnique(p, BLOB_PAGES, b, 0);
    DownIsMod(p, MAX_ORDER);
    hide Aligned;
    forall q: nat | p < q < p + BLOB_PAGES
      ensures !Aligned(q, MAX_ORDER)
    {
      DownUnique(p, q, MAX_ORDER);
    }
  }

  /** The page table while `buddy_init` has entered the blobs below page `done`. */
  function Initial(q: nat, done: nat): Page {
    if q < done && Aligned(q, MAX_ORDER) then FreeHead(q, MAX_ORDER) else INTERIOR
  }

  ghost predicate IsInitial(pg: seq<Page>) {
    Aligned(|pg|, MAX_ORDER) && forall q: nat | q < |pg| :: pg[q] == Initial(q, |pg|)
  }

  lemma InitialCover(pg: seq<Page>, p: nat)
    requires IsInitial(pg) && p < |pg|
    ensures Covered(pg, p) && IsFree(pg, p)
    ensures forall j: nat | Cover(pg, p, j) :: j == MAX_ORDER
  {
    DownBounds(p, MAX_ORDER);
    DownIdempotent(p, MAX_ORDER);
    assert Cover(pg, p, MAX_ORDER) && FreeCover(pg, p, MAX_ORDER);
    forall j: nat | Cover(pg, p, j)
      ensures j == MAX_ORDER
    {
      DownBounds(p, j);
    }
  }

  lemma InitialTiled(pg: seq<Page>)
    requires IsInitial(pg)
    ensures Tiled(pg) && FreePages(pg) == Interval(0, |pg|) && Live(pg) == map[]
  {
    forall p: nat | p < |pg|
      ensures Covered(pg, p) && IsFree(pg, p)
    {
      InitialCover(pg, p);
    }
    forall p: nat, j: nat | Cover(pg, p, j)
      ensures j == MAX_ORDER
    {
      InitialCover(pg, p);
    }
  }

  lemma InitialListed(pg: seq<Page>, fl: seq<seq<nat>>)
    requires IsInitial(pg) && |fl| == MAX_ORDER + 1
    requires forall k: nat | k < MAX_ORDER :: fl[k] == []
    requires NoDup(fl[MAX_ORDER])
    requires forall q: nat :: q in fl[MAX_ORDER] <==> q < |pg| && Aligned(q, MAX_ORDER)
    ensures Listed(pg, fl)
  {
    forall k: nat | k <= MAX_ORDER
      ensures Holds(pg, fl[k], k)
    {
    }
  }

  // ----- buddies left over by a merge

  lemma JoinedNoBuddies(pg: seq<Page>, lo: nat, k: nat, j: nat)
    requires lo + Pow2(k) < |pg| && j < k && NoBuddies(pg, j)
    requires pg[lo] == FreeHead(lo, k) && pg[lo + Pow2(k)] == FreeHead(lo + Pow2(k), k)
    ensures NoBuddies(Joined(pg, lo, k), j)
  {
  }
}
