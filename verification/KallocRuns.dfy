/**
 Whole runs of `kmalloc` and `kfree` over several caches and one buddy allocator: what
 callers hold, and that it is as large as they asked for.
 */
module KallocRuns {
  import opened Bits
  import opened Options
  import opened SlabLayout
  import opened SlabSpec
  import opened Kalloc
  import BB = BuddyBlocks
  import BA = Buddy
  import SC = SlabCaches
  import BP = BuddyProperties

  /** `n` free pages and caches of the given object sizes without slabs. */
  function Initial(n: nat, sizes: seq<nat>): System {
    System(seq(|sizes|, i requires 0 <= i < |sizes| => NewCache(sizes[i])), BA.State(BB.Interval(0, n), map[]))
  }

  predicate SizesOk(sizes: seq<nat>) {
    forall k | 0 <= k < |sizes| :: Sized(sizes[k])
  }

  lemma InitialInv(n: nat, sizes: seq<nat>)
    requires SizesOk(sizes)
    ensures SystemInv(n, Initial(n, sizes)) && forall h :: !IsLive(Initial(n, sizes), h)
  {
    hide Total;
    var s := Initial(n, sizes);
    assert forall p: nat :: BP.PageAccounted(n, s.buddy, p);
    forall i | 0 <= i < |s.caches|
      ensures CacheOk(s.caches[i], s.buddy)
    {
      EmptyCache(sizes[i]);
    }
  }

  ghost predicate IsRun(states: seq<System>, events: seq<Event>) {
    && |states| == |events| + 1
    && forall i | 0 <= i < |events| :: Step(states[i], events[i], states[i + 1])
  }

  /** Any sequence of requests and returns keeps the invariant. */
  lemma {:induction false} RunKeeps(n: nat, sizes: seq<nat>, states: seq<System>, events: seq<Event>)
    requires SizesOk(sizes) && IsRun(states, events) && states[0] == Initial(n, sizes)
    ensures SystemInv(n, states[|events|])
    decreases |events|
  {
    hide Step, SystemInv, SizesOk, Initial;
    if events == [] {
      InitialInv(n, sizes);
    } else {
      var k := |events| - 1;
      RunKeeps(n, sizes, states[..k + 1], events[..k]);
      StepKeeps(n, states[k], events[k], states[k + 1]);
    }
  }

  /** What was handed out in a run and not returned, with the size that was asked for, from the calls alone. */
  ghost function Held(states: seq<System>, events: seq<Event>): map<Handle, nat>
    requires |states| == |events| + 1
    decreases |events|
  {
    if events == [] then map[]
    else
      var k := |events| - 1;
      var before := Held(states[..k + 1], events[..k]);
      match events[k]
      case FromCache(size, i, o, _) => before[Obj(i, o) := size]
      case FromBuddy(size, a, _) => before[Blk(a) := size]
      case FirstSlab(_, _) => before
      case Null => before
      case Kfree(addr) => map h | h in before && AddrOf(states[k], h) != addr :: before[h]
  }

  lemma HeldStep(n: nat, s: System, e: Event, t: System, h: Handle)
    requires SystemInv(n, s) && Step(s, e, t)
    ensures IsLive(t, h) <==>
      match e
      case FromCache(_, i, o, _) => IsLive(s, h) || h == Obj(i, o)
      case FromBuddy(_, a, _) => IsLive(s, h) || h == Blk(a)
      case FirstSlab(_, _) => IsLive(s, h)
      case Null => IsLive(s, h)
      case Kfree(addr) => IsLive(s, h) && AddrOf(s, h) != addr
  {
    hide SystemInv, IsLive, AddrOf, Freed, SC.Served, BA.Step;
    match e
    case FromCache(size, i, o, how) => ServeHandles(n, s, size, i, o, how, t, h);
    case FromBuddy(size, a, k) => BlockHandles(n, s, size, a, k, t, h);
    case FirstSlab(i, p) => SlabHandles(n, s, i, p, t, h);
    case Null =>
    case Kfree(addr) =>
      var g :| IsLive(s, g) && AddrOf(s, g) == addr;
      FreeHandles(n, s, g, t, h);
      if IsLive(s, h) && AddrOf(s, h) == addr {
        FreeHandles(n, s, h, t, h);
      }
  }

  /**
   Over every run: callers hold exactly what was handed out to them and not returned, so an
   address handed out is never one that somebody holds.
   */
  lemma {:induction false} HeldIsLive(n: nat, sizes: seq<nat>, states: seq<System>, events: seq<Event>, h: Handle)
    requires SizesOk(sizes) && IsRun(states, events) && states[0] == Initial(n, sizes)
    ensures IsLive(states[|events|], h) <==> h in Held(states, events)
    decreases |events|
  {
    hide Step, SystemInv, SizesOk, Initial, IsLive, AddrOf;
    if events == [] {
      InitialInv(n, sizes);
    } else {
      var k := |events| - 1;
      HeldIsLive(n, sizes, states[..k + 1], events[..k], h);
      RunKeeps(n, sizes, states[..k + 1], events[..k]);
      HeldStep(n, states[k], events[k], states[k + 1], h);
    }
  }

  // ----- callers get what they asked for

  /** Caches keep their object size. */
  lemma StepSizes(n: nat, s: System, e: Event, t: System)
    requires SystemInv(n, s) && Step(s, e, t)
    ensures |t.caches| == |s.caches| && forall i | 0 <= i < |s.caches| :: t.caches[i].objSize == s.caches[i].objSize
  {
    hide SystemInv, Freed, SC.Served, BA.Step, AddrOf, IsLive;
    match e
    case FromCache(size, i, o, how) => ServeSize(n, s, size, i, o, how, t);
    case FromBuddy(size, a, k) =>
    case FirstSlab(i, p) =>
    case Null =>
    case Kfree(addr) =>
      var h :| IsLive(s, h) && AddrOf(s, h) == addr;
      FreeSize(n, s, h, t);
  }

  lemma ServeSize(n: nat, s: System, size: nat, i: nat, o: Object, how: SC.Supply, t: System)
    requires SystemInv(n, s) && Step(s, FromCache(size, i, o, how), t)
    ensures t.caches[i].objSize == s.caches[i].objSize
  {
    hide BP.Accounted, SC.Served, Inv, Kalloc.Apart;
    assert CacheOk(s.caches[i], s.buddy);
    SC.ServedKeeps(s.caches[i], s.buddy, o, how, t.caches[i], t.buddy);
  }

  lemma FreeSize(n: nat, s: System, h: Handle, t: System)
    requires SystemInv(n, s) && IsLive(s, h) && Freed(s, AddrOf(s, h), t)
    ensures |t.caches| == |s.caches| && forall i | 0 <= i < |s.caches| :: t.caches[i].objSize == s.caches[i].objSize
  {
    hide SystemInv, Freed, AddrOf, BA.Step;
    FreeRoute(n, s, h, t);
  }

  /** What stays held keeps its size. */
  lemma SizeKept(n: nat, s: System, e: Event, t: System, h: Handle)
    requires SystemInv(n, s) && Step(s, e, t) && IsLive(s, h) && IsLive(t, h)
    ensures SizeOf(t, h) == SizeOf(s, h)
  {
    StepSizes(n, s, e, t);
    if h.Blk? {
      BlockKept(n, s, e, t, h.start);
    }
  }

  lemma BlockKept(n: nat, s: System, e: Event, t: System, a: nat)
    requires SystemInv(n, s) && Step(s, e, t) && a in s.buddy.live && a in t.buddy.live
    ensures t.buddy.live[a] == s.buddy.live[a]
  {
    hide SystemInv, Freed, BB.Available, AddrOf, IsLive;
    match e
    case FromCache(size, i, o, how) => hide AfterTake, CanTake;
    case FromBuddy(size, p, k) =>
    case FirstSlab(i, p) =>
    case Null =>
    case Kfree(addr) =>
      var h :| IsLive(s, h) && AddrOf(s, h) == addr;
      FreeRoute(n, s, h, t);
  }

  /** What a request hands out is as large as was asked for. */
  lemma HandedOut(n: nat, s: System, e: Event, t: System)
    requires SystemInv(n, s) && Step(s, e, t)
    ensures e.FromCache? ==> SizeOf(t, Obj(e.cache, e.o)) >= e.size
    ensures e.FromBuddy? ==> SizeOf(t, Blk(e.start)) >= e.size
  {
    StepSizes(n, s, e, t);
    hide SystemInv, SC.Served, BB.Available, AllocSize;
  }

  /** Over every run: what a caller holds spans at least the bytes that the caller asked for. */
  lemma {:induction false} HeldSpans(n: nat, sizes: seq<nat>, states: seq<System>, events: seq<Event>, h: Handle)
    requires SizesOk(sizes) && IsRun(states, events) && states[0] == Initial(n, sizes)
    requires h in Held(states, events)
    ensures EndOf(states[|events|], h) - AddrOf(states[|events|], h) >= Held(states, events)[h]
    decreases |events|
  {
    hide Step, SystemInv, SizesOk, Initial, IsLive, AddrOf, SizeOf;
    if events != [] {
      var k := |events| - 1;
      RunKeeps(n, sizes, states[..k + 1], events[..k]);
      HandedOut(n, states[k], events[k], states[k + 1]);
      HeldIsLive(n, sizes, states, events, h);
      HeldIsLive(n, sizes, states[..k + 1], events[..k], h);
      if h in Held(states[..k + 1], events[..k]) {
        HeldSpans(n, sizes, states[..k + 1], events[..k], h);
        SizeKept(n, states[k], events[k], states[k + 1], h);
      }
    }
  }

  // ----- reachable states

  ghost predicate Reachable(n: nat, sizes: seq<nat>, s: System) {
    exists states, events :: IsRun(states, events) && states[0] == Initial(n, sizes) && states[|events|] == s
  }

  lemma ReachInitial(n: nat, sizes: seq<nat>)
    ensures Reachable(n, sizes, Initial(n, sizes))
  {
    assert IsRun([Initial(n, sizes)], []);
  }

  lemma ReachStep(n: nat, sizes: seq<nat>, s: System, e: Event, t: System)
    requires Reachable(n, sizes, s) && Step(s, e, t)
    ensures Reachable(n, sizes, t)
  {
    hide Step, Initial;
    var states, events :| IsRun(states, events) && states[0] == Initial(n, sizes) && states[|events|] == s;
    assert IsRun(states + [t], events + [e]);
  }

  lemma ReachableInv(n: nat, sizes: seq<nat>, s: System)
    requires SizesOk(sizes) && Reachable(n, sizes, s)
    ensures SystemInv(n, s) && |s.caches| == |sizes|
    ensures forall i | 0 <= i < |sizes| :: s.caches[i].objSize == sizes[i]
  {
    hide Step, SystemInv, Initial, SizesOk;
    var states, events :| IsRun(states, events) && states[0] == Initial(n, sizes) && states[|events|] == s;
    RunKeeps(n, sizes, states, events);
    RunSizes(n, sizes, states, events);
  }

  lemma {:induction false} RunSizes(n: nat, sizes: seq<nat>, states: seq<System>, events: seq<Event>)
    requires SizesOk(sizes) && IsRun(states, events) && states[0] == Initial(n, sizes)
    ensures var s := states[|events|];
            |s.caches| == |sizes| && forall i | 0 <= i < |sizes| :: s.caches[i].objSize == sizes[i]
    decreases |events|
  {
    hide Step, SystemInv, SizesOk;
    if events != [] {
      var k := |events| - 1;
      RunSizes(n, sizes, states[..k + 1], events[..k]);
      RunKeeps(n, sizes, states[..k + 1], events[..k]);
      StepSizes(n, states[k], events[k], states[k + 1]);
    }
  }
}
