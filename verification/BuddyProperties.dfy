/**
 What the buddy allocator's invariant and contracts mean for its users: the arena is
 partitioned into blocks, the page counter counts, and no run of requests can hand a
 page out twice or lose one.
 */
module BuddyProperties {
  import opened Bits
  import opened Options
  import opened BuddyBlocks
  import opened Buddy

  // ----- in every valid state

  /** Page `p` belongs to the block, free or allocated, that starts at `h`. */
  predicate InBlock(pg: seq<Page>, h: nat, p: nat) {
    h < |pg| && pg[h].order <= MAX_ORDER && p in Run(h, pg[h].order)
  }

  /** Blocks are aligned, lie inside the arena, and every page is in exactly one of them. */
  lemma Partition(pg: seq<Page>, p: nat)
    requires Tiled(pg)
    ensures forall h: nat | InBlock(pg, h, p) :: Aligned(h, pg[h].order) && Run(h, pg[h].order) <= Interval(0, |pg|)
    ensures p < |pg| <==> exists h: nat :: InBlock(pg, h, p)
    ensures forall g: nat, h: nat | InBlock(pg, g, p) && InBlock(pg, h, p) :: g == h
  {
    forall h: nat | InBlock(pg, h, p)
      ensures Run(h, pg[h].order) <= Interval(0, |pg|) && Cover(pg, p, pg[h].order) && Down(p, pg[h].order) == h
    {
      BlockInArena(|pg|, h, pg[h].order);
      DownUnique(h, p, pg[h].order);
    }
    if p < |pg| {
      assert Covered(pg, p);
      var k: nat :| Cover(pg, p, k);
      DownBounds(p, k);
      assert InBlock(pg, Down(p, k), p);
    }
  }

  lemma BlocksDisjoint(pg: seq<Page>, g: nat, h: nat)
    requires Tiled(pg) && g < |pg| && h < |pg| && g != h && pg[g].order <= MAX_ORDER && pg[h].order <= MAX_ORDER
    ensures Run(g, pg[g].order) !! Run(h, pg[h].order)
  {
    forall p: nat | p in Run(g, pg[g].order) && p in Run(h, pg[h].order)
      ensures false
    {
      Partition(pg, p);
      assert InBlock(pg, g, p) && InBlock(pg, h, p);
    }
  }

  /** A page's `private` and `order` say exactly whether it starts a free block, and on which list that block is. */
  lemma HeadsListed(pg: seq<Page>, fl: seq<seq<nat>>, p: nat, k: nat)
    requires Inv(pg, fl) && p < |pg| && k <= MAX_ORDER
    ensures pg[p].private.Some? && pg[p].order == k <==> p in fl[k]
    ensures p in fl[k] ==> Aligned(p, k) && Run(p, k) <= FreePages(pg)
  {
    assert Holds(pg, fl[k], k);
    if p in fl[k] {
      forall q | q in Run(p, k)
        ensures q in FreePages(pg)
      {
        DownUnique(p, q, k);
        BlockInArena(|pg|, p, k);
        assert FreeCover(pg, q, k);
      }
    }
  }

  /** The number of pages named by the first `k` free lists. */
  function ListedPages(fl: seq<seq<nat>>, k: nat): nat
    requires k <= |fl|
  {
    if k == 0 then 0 else ListedPages(fl, k - 1) + |fl[k - 1]| * Pow2(k - 1)
  }

  ghost function PagesOf(list: seq<nat>, k: nat): set<nat> {
    if list == [] then {} else Run(list[0], k) + PagesOf(list[1..], k)
  }

  lemma {:induction false} PagesOfMembers(list: seq<nat>, k: nat, p: nat)
    ensures p in PagesOf(list, k) <==> exists i :: 0 <= i < |list| && p in Run(list[i], k)
  {
    hide Run;
    if list != [] {
      PagesOfMembers(list[1..], k, p);
      if p in PagesOf(list[1..], k) {
        var i :| 0 <= i < |list[1..]| && p in Run(list[1..][i], k);
        assert p in Run(list[i + 1], k);
      }
      if i :| 0 < i < |list| && p in Run(list[i], k) {
        assert p in Run(list[1..][i - 1], k);
      }
    }
  }

  lemma {:induction false} PagesOfSize(list: seq<nat>, k: nat)
    requires forall i, j | 0 <= i < j < |list| :: Run(list[i], k) !! Run(list[j], k)
    ensures |PagesOf(list, k)| == |list| * Pow2(k)
  {
    if list != [] {
      PagesOfSize(list[1..], k);
      forall p | p in Run(list[0], k)
        ensures p !in PagesOf(list[1..], k)
      {
        PagesOfMembers(list[1..], k, p);
      }
      OneMore(|list[1..]|, Pow2(k));
    }
  }

  lemma OneMore(n: nat, d: nat)
    ensures (n + 1) * d == n * d + d
  {
  }

  /** Pages of free blocks of order below `k`. */
  ghost function FreeBelow(pg: seq<Page>, k: nat): set<nat> {
    set p: nat | 0 <= p < |pg| && InFreeBelow(pg, p, k)
  }

  ghost predicate InFreeBelow(pg: seq<Page>, p: nat, k: nat) {
    exists j: nat :: j < k && FreeCover(pg, p, j)
  }

  lemma LevelPages(pg: seq<Page>, fl: seq<seq<nat>>, k: nat)
    requires Inv(pg, fl) && k <= MAX_ORDER
    ensures forall p: nat :: p in PagesOf(fl[k], k) <==> FreeCover(pg, p, k)
    ensures |PagesOf(fl[k], k)| == |fl[k]| * Pow2(k)
  {
    assert Holds(pg, fl[k], k);
    forall p: nat
      ensures p in PagesOf(fl[k], k) <==> FreeCover(pg, p, k)
    {
      PagesOfMembers(fl[k], k, p);
      if FreeCover(pg, p, k) {
        CoverFacts(pg, p, k);
        assert Down(p, k) in fl[k];
      }
      if i :| 0 <= i < |fl[k]| && p in Run(fl[k][i], k) {
        assert fl[k][i] in fl[k];
        BlockInArena(|pg|, fl[k][i], k);
        DownUnique(fl[k][i], p, k);
      }
    }
    forall i, j | 0 <= i < j < |fl[k]|
      ensures Run(fl[k][i], k) !! Run(fl[k][j], k)
    {
      assert fl[k][i] in fl[k] && fl[k][j] in fl[k];
      BlocksDisjoint(pg, fl[k][i], fl[k][j]);
    }
    PagesOfSize(fl[k], k);
  }

  lemma UnionSize(s: set<nat>, t: set<nat>)
    requires s !! t
    ensures |s + t| == |s| + |t|
  {
  }

  lemma FreeBelowStep(pg: seq<Page>, k: nat, level: set<nat>)
    requires Tiled(pg)
    requires forall p: nat :: p in level <==> FreeCover(pg, p, k)
    ensures FreeBelow(pg, k + 1) == FreeBelow(pg, k) + level && FreeBelow(pg, k) !! level
  {
    forall p: nat
      ensures p in FreeBelow(pg, k + 1) <==> p in FreeBelow(pg, k) || p in level
      ensures !(p in FreeBelow(pg, k) && p in level)
    {
    }
  }

  lemma LevelSize(pg: seq<Page>, fl: seq<seq<nat>>, k: nat)
    requires Inv(pg, fl) && k <= MAX_ORDER
    ensures |FreeBelow(pg, k + 1)| == |FreeBelow(pg, k)| + |fl[k]| * Pow2(k)
  {
    LevelPages(pg, fl, k);
    FreeBelowStep(pg, k, PagesOf(fl[k], k));
    UnionSize(FreeBelow(pg, k), PagesOf(fl[k], k));
  }

  lemma {:induction false} FreeBelowSize(pg: seq<Page>, fl: seq<seq<nat>>, k: nat)
    requires Inv(pg, fl) && k <= MAX_ORDER + 1
    ensures |FreeBelow(pg, k)| == ListedPages(fl, k)
  {
    if k > 0 {
      FreeBelowSize(pg, fl, k - 1);
      LevelSize(pg, fl, k - 1);
    }
  }

  /** The free-page count is the sum of the sizes of the blocks on the free lists. */
  lemma FreePageCount(pg: seq<Page>, fl: seq<seq<nat>>)
    requires Inv(pg, fl)
    ensures |FreePages(pg)| == ListedPages(fl, MAX_ORDER + 1)
  {
    FreeBelowSize(pg, fl, MAX_ORDER + 1);
    assert FreePages(pg) == FreeBelow(pg, MAX_ORDER + 1);
  }

  // ----- over whole runs

  ghost predicate IsRun(states: seq<State>, events: seq<Event>) {
    && |states| == |events| + 1
    && forall i | 0 <= i < |events| :: Step(states[i], events[i], states[i + 1])
  }

  predicate Owns(s: State, h: nat, p: nat) {
    h in s.live && p in Run(h, s.live[h])
  }

  /** Page `p` of the arena is either free or in exactly one live block; other pages are in neither. */
  ghost predicate PageAccounted(n: nat, s: State, p: nat) {
    && (p in s.free ==> p < n)
    && (forall h: nat | Owns(s, h, p) :: p < n && p !in s.free)
    && (forall g: nat, h: nat | Owns(s, g, p) && Owns(s, h, p) :: g == h)
    && (p < n && p !in s.free ==> exists h: nat :: Owns(s, h, p))
  }

  ghost predicate Accounted(n: nat, s: State) {
    && (forall h: nat | h in s.live :: Aligned(h, s.live[h]))
    && (forall p: nat :: PageAccounted(n, s, p))
  }

  lemma AllocPage(n: nat, s: State, a: nat, k: nat, t: State, p: nat)
    requires PageAccounted(n, s, p) && Step(s, Event.Alloc(Some(a), k), t)
    ensures PageAccounted(n, t, p)
  {
    assert Owns(t, a, p) <==> p in Run(a, k);
    assert forall h: nat | h != a :: Owns(t, h, p) <==> Owns(s, h, p);
  }

  lemma FreePage(n: nat, s: State, a: nat, t: State, p: nat)
    requires PageAccounted(n, s, p) && Step(s, Event.Free(a), t)
    ensures PageAccounted(n, t, p)
  {
    assert Owns(s, a, p) <==> p in Run(a, s.live[a]);
    assert forall h: nat :: Owns(t, h, p) <==> Owns(s, h, p) && h != a;
  }

  lemma StepAccounted(n: nat, s: State, e: Event, t: State)
    requires Accounted(n, s) && Step(s, e, t)
    ensures Accounted(n, t)
  {
    forall p: nat
      ensures PageAccounted(n, t, p)
    {
      assert PageAccounted(n, s, p);
      match e
      case Alloc(None, k) =>
      case Alloc(Some(a), k) => AllocPage(n, s, a, k, t, p);
      case Refuse =>
      case Free(a) => FreePage(n, s, a, t, p);
    }
  }

  lemma {:induction false} RunKeeps(n: nat, states: seq<State>, events: seq<Event>)
    requires IsRun(states, events) && Accounted(n, states[0])
    ensures Accounted(n, states[|events|])
    decreases |events|
  {
    hide Step, Accounted;
    if |events| > 0 {
      var k := |events| - 1;
      RunKeeps(n, states[..|events|], events[..k]);
      StepAccounted(n, states[k], events[k], states[k + 1]);
    }
  }

  /** However requests are interleaved, no page is lost and none is in two live blocks. */
  lemma RunAccounted(n: nat, states: seq<State>, events: seq<Event>)
    requires IsRun(states, events) && states[0] == State(Interval(0, n), map[])
    ensures Accounted(n, states[|events|])
  {
    assert forall p: nat :: PageAccounted(n, states[0], p);
    RunKeeps(n, states, events);
  }

  /** The live blocks determine the free pages. */
  lemma FreeDetermined(n: nat, s: State, t: State)
    requires Accounted(n, s) && Accounted(n, t) && s.live == t.live
    ensures s.free == t.free
  {
    forall p: nat
      ensures p in s.free <==> p in t.free
    {
      assert PageAccounted(n, s, p) && PageAccounted(n, t, p);
      assert forall h: nat :: Owns(s, h, p) <==> Owns(t, h, p);
    }
  }

  /**
   Any run that ends with the live blocks it began with has restored the free pages too, however
   blocks were cut and joined.
   */
  lemma BalancedRun(n: nat, states: seq<State>, events: seq<Event>)
    requires IsRun(states, events) && Accounted(n, states[0])
    requires states[|events|].live == states[0].live
    ensures states[|events|] == states[0]
  {
    RunKeeps(n, states, events);
    FreeDetermined(n, states[0], states[|events|]);
  }

  /** The allocator's own state is always accounted for. */
  lemma TiledAccounted(pg: seq<Page>)
    requires Tiled(pg)
    ensures Accounted(|pg|, State(FreePages(pg), Live(pg)))
  {
    forall p: nat
      ensures PageAccounted(|pg|, State(FreePages(pg), Live(pg)), p)
    {
      TiledPage(pg, p);
    }
  }

  lemma TiledPage(pg: seq<Page>, p: nat)
    requires Tiled(pg)
    ensures PageAccounted(|pg|, State(FreePages(pg), Live(pg)), p)
  {
    var s := State(FreePages(pg), Live(pg));
    Partition(pg, p);
    assert p in s.free <==> IsFree(pg, p);
    assert IsFree(pg, p) ==> p < |pg|;
    hide Tiled, IsFree, FreePages, Live, Run, Aligned;
    forall h: nat | Owns(s, h, p)
      ensures InBlock(pg, h, p) && p !in s.free
    {
      OwnedNotFree(pg, h, p);
    }
    if p < |pg| && p !in s.free {
      var h: nat :| InBlock(pg, h, p);
      NotFreeOwned(pg, h, p);
      assert Owns(s, h, p);
    }
  }

  lemma OwnedNotFree(pg: seq<Page>, h: nat, p: nat)
    requires Tiled(pg) && h in Live(pg) && p in Run(h, Live(pg)[h])
    ensures InBlock(pg, h, p) && !IsFree(pg, p)
  {
    var k := Live(pg)[h];
    Partition(pg, p);
    assert InBlock(pg, h, p);
    DownUnique(h, p, k);
    assert Cover(pg, p, k);
  }

  lemma NotFreeOwned(pg: seq<Page>, h: nat, p: nat)
    requires Tiled(pg) && InBlock(pg, h, p) && !IsFree(pg, p) && p < |pg|
    ensures h in Live(pg) && p in Run(h, Live(pg)[h])
  {
    DownUnique(h, p, pg[h].order);
    assert pg[h].private.Some? ==> FreeCover(pg, p, pg[h].order);
  }

  /** Once everything has been returned, every request up to a whole blob can be met again. */
  lemma NoLastingFragmentation(n: nat, s: State, a: nat, k: nat)
    requires Accounted(n, s) && s.live == map[]
    requires Aligned(a, k) && a + Pow2(k) <= n
    ensures Available(s.free, a, k)
    ensures !(exists t: State :: Step(s, Event.Alloc(None, k), t))
  {
    forall p: nat | p < n
      ensures p in s.free
    {
      assert PageAccounted(n, s, p);
    }
    forall t: State
      ensures !Step(s, Event.Alloc(None, k), t)
    {
      assert Available(s.free, a, k);
    }
  }
}
