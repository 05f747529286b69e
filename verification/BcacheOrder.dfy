/**
 The LRU list of the block cache over whole runs: how each step reorders it, which buffer
 the eviction scan finds, and what becomes of blocks that are read one after the other.
 */
module BcacheOrder {
  import opened LinkedLists
  import opened Options
  import opened BcacheSpec

  // ----- one step

  /** A request moves its buffer to the front, the last release of a buffer moves it to the tail; nothing else moves. */
  lemma StepOrder(c: Cache, t: nat, e: Event, c': Cache)
    requires Inv(c) && Step(c, t, e, c')
    ensures match e
            case Get(k, b) => MovedToFront(c.lru, b, c'.lru)
            case Drop =>
              && t in c.threads && c.threads[t].buf < |c.bufs|
              && var b := c.threads[t].buf;
              if c.bufs[b].refcnt == 1 then MovedToTail(c.lru, b, c'.lru) else c'.lru == c.lru
            case _ => c'.lru == c.lru
  {
    hide Hashed, Rehashed, Remove, MovedToFront, MovedToTail;
    if e.Get? {
      FrontMoved(c.lru, e.buf);
    } else if e.Drop? {
      TailMoved(c.lru, c.threads[t].buf);
    }
  }

  /** A request for a cached block takes one reference and leaves the buffer's contents valid as they are. */
  lemma HitBuffers(c: Cache, t: nat, k: Key, b: nat, c': Cache)
    requires Sizes(c) && Step(c, t, Get(k, b), c') && Hit(c, k, b)
    ensures c'.bufs == c.bufs[b := c.bufs[b].(refcnt := c.bufs[b].refcnt + 1)]
    ensures c'.buckets == c.buckets && c'.disk == c.disk
  {
    hide MoveToFront, Hashed;
  }

  /** A request for another block takes an unused buffer, which is no longer valid, and leaves all others alone. */
  lemma MissBuffers(c: Cache, t: nat, k: Key, b: nat, c': Cache)
    requires Sizes(c) && Step(c, t, Get(k, b), c') && !Hit(c, k, b)
    ensures c.bufs[b].refcnt == 0 && |c'.bufs| == |c.bufs| && c'.disk == c.disk
    ensures forall x: nat | x < BCACHE_SIZE && x != b :: c'.bufs[x] == c.bufs[x]
    ensures var v := c'.bufs[b]; v.key == k && v.refcnt == 1 && !v.valid && !v.dirty && v.holder == c.bufs[b].holder
  {
    hide MoveToFront, Hashed, Rehashed;
  }

  /** What every other step does to the thread's own buffer and to the disk; nothing else changes. */
  lemma StepBuffers(c: Cache, t: nat, e: Event, c': Cache)
    requires Sizes(c) && Step(c, t, e, c') && !e.Get?
    ensures t in c.threads && c.threads[t].buf < |c.bufs|
    ensures var b := c.threads[t].buf; var v := c.bufs[b];
            match e
            case Lock => v.holder == None && c'.bufs == c.bufs[b := v.(holder := Some(t))] && c'.disk == c.disk
            case Fill =>
              && c'.disk == c.disk
              && (v.valid ==> c'.bufs == c.bufs)
              && (!v.valid ==> c'.bufs == c.bufs[b := v.(data := OnDisk(c.disk, c.threads[t].key), valid := true)])
            case Modify(data) => v.valid && c'.bufs == c.bufs[b := v.(data := data)] && c'.disk == c.disk
            case Write =>
              && (!v.valid ==> c'.bufs == c.bufs && c'.disk == c.disk)
              && (v.valid ==> c'.bufs == c.bufs[b := v.(dirty := false)] && c'.disk == c.disk[v.key := v.data])
            case Unlock => c'.bufs == c.bufs[b := v.(holder := None)] && c'.disk == c.disk
            case Drop => c'.bufs == c.bufs[b := v.(refcnt := v.refcnt - 1)] && c'.disk == c.disk
            case _ => true
  {
    hide Hashed, Remove, OnDisk;
    var b := c.threads[t].buf;
    assert c.bufs[b := c.bufs[b]] == c.bufs;
  }

  // ----- which buffer is evicted

  /** The buffers in use. */
  function InUse(c: Cache): set<nat>
    requires Sizes(c)
  {
    set x: nat | 0 <= x < BCACHE_SIZE && c.bufs[x].refcnt > 0
  }

  /** Those in `used` come before those that are not. */
  ghost predicate First(lru: seq<nat>, used: set<nat>) {
    forall i, j | 0 <= i < j < |lru| :: lru[j] in used ==> lru[i] in used
  }

  lemma FrontFirst(lru: seq<nat>, used: set<nat>, x: nat, lru': seq<nat>)
    requires NoDup(lru) && First(lru, used) && MovedToFront(lru, x, lru')
    ensures First(lru', used + {x})
  {
    var i :| 0 <= i < |lru| && lru[i] == x && lru' == [x] + lru[..i] + lru[i + 1..];
    forall p, q | 0 <= p < q < |lru'| && lru'[q] in used + {x}
      ensures lru'[p] in used + {x}
    {
      if p > 0 {
        FrontPlace(lru, i, p);
        FrontPlace(lru, i, q);
        hide NoDup;
      }
    }
  }

  lemma FrontPlace(lru: seq<nat>, i: nat, q: nat)
    requires NoDup(lru) && i < |lru| && 0 < q < |lru|
    ensures var u := if q <= i then q - 1 else q;
            ([lru[i]] + lru[..i] + lru[i + 1..])[q] == lru[u] && lru[u] != lru[i]
  {
  }

  lemma TailFirst(lru: seq<nat>, used: set<nat>, x: nat, lru': seq<nat>)
    requires NoDup(lru) && First(lru, used) && MovedToTail(lru, x, lru')
    ensures First(lru', used - {x})
  {
    var i :| 0 <= i < |lru| && lru[i] == x && lru' == lru[..i] + lru[i + 1..] + [x];
    forall p, q | 0 <= p < q < |lru'| && lru'[q] in used - {x}
      ensures lru'[p] in used - {x}
    {
      var u, v := if p < i then p else p + 1, if q < i then q else q + 1;
      assert q < |lru| - 1 && lru'[p] == lru[u] && lru'[q] == lru[v] && u < v;
      assert lru[u] != lru[i];
    }
  }

  /** What a step does to the buffers in use. */
  lemma StepInUse(c: Cache, t: nat, e: Event, c': Cache)
    requires Inv(c) && Step(c, t, e, c')
    ensures Sizes(c') && NoDup(c.lru)
    ensures match e
            case Get(_, b) => InUse(c') == InUse(c) + {b}
            case Drop =>
              && t in c.threads && c.threads[t].buf < |c.bufs|
              && var b := c.threads[t].buf;
              InUse(c') == if c.bufs[b].refcnt == 1 then InUse(c) - {b} else InUse(c)
            case _ => InUse(c') == InUse(c)
  {
    assert Sizes(c) && NoDup(c.lru);
    hide Inv, Step;
    if e.Get? {
      GetInUse(c, t, e.key, e.buf, c');
    } else {
      OwnInUse(c, t, e, c');
    }
  }

  lemma GetInUse(c: Cache, t: nat, k: Key, b: nat, c': Cache)
    requires Sizes(c) && Step(c, t, Get(k, b), c')
    ensures Sizes(c') && InUse(c') == InUse(c) + {b}
  {
    hide Hit, Victim, Rehashed, MoveToFront;
  }

  lemma OwnInUse(c: Cache, t: nat, e: Event, c': Cache)
    requires Sizes(c) && Step(c, t, e, c') && !e.Get?
    ensures Sizes(c') && t in c.threads && c.threads[t].buf < |c.bufs|
    ensures var b := c.threads[t].buf;
            InUse(c') == if e.Drop? && c.bufs[b].refcnt == 1 then InUse(c) - {b} else InUse(c)
  {
    hide Hashed, Remove, OnDisk;
  }

  lemma StepFirst(c: Cache, t: nat, e: Event, c': Cache)
    requires Inv(c) && Step(c, t, e, c') && First(c.lru, InUse(c))
    ensures Sizes(c') && First(c'.lru, InUse(c'))
  {
    hide First, InUse, MovedToFront, MovedToTail;
    StepOrder(c, t, e, c');
    StepInUse(c, t, e, c');
    hide Inv, Step;
    if e.Get? {
      FrontFirst(c.lru, InUse(c), e.buf, c'.lru);
    } else if e.Drop? && c.bufs[c.threads[t].buf].refcnt == 1 {
      TailFirst(c.lru, InUse(c), c.threads[t].buf, c'.lru);
    }
  }

  /**
   In every run, buffers in use come before those that are not, so the scan from the tail takes
   the tail itself or finds every buffer in use.
   */
  lemma {:induction false} EvictsTail(states: seq<Cache>, steps: seq<(nat, Event)>, disk: map<Key, Block>)
    requires IsRun(states, steps, disk)
    ensures var c := states[|steps|];
            && Sizes(c) && First(c.lru, InUse(c))
            && forall i: nat | Victim(c, i) :: i == |c.lru| - 1
    decreases |steps|
  {
    RunInv(states, steps, disk);
    hide Step, Inv, First, InUse, Victim;
    if steps == [] {
      StartFirst(disk);
    } else {
      var n := |steps| - 1;
      RunInv(states[..n + 1], steps[..n], disk);
      EvictsTail(states[..n + 1], steps[..n], disk);
      StepFirst(states[n], steps[n].0, steps[n].1, states[n + 1]);
    }
    VictimLast(states[|steps|]);
  }

  lemma StartFirst(disk: map<Key, Block>)
    ensures var c := InitialCache(disk); Sizes(c) && First(c.lru, InUse(c))
  {
  }

  lemma VictimLast(c: Cache)
    requires Inv(c) && First(c.lru, InUse(c))
    ensures forall i: nat | Victim(c, i) :: i == |c.lru| - 1
  {
    hide Hashed;
    forall i: nat | Victim(c, i)
      ensures i == |c.lru| - 1
    {
      var last := |c.lru| - 1;
      assert c.lru[last] in c.lru;
    }
  }

  /** The buffer released last is the next victim: the cache evicts what was used most recently. */
  lemma ReleasedIsVictim(c: Cache, t: nat, c': Cache)
    requires Inv(c) && Step(c, t, Drop, c') && c.bufs[c.threads[t].buf].refcnt == 1
    ensures Sizes(c') && c'.lru != [] && c'.lru[|c'.lru| - 1] == c.threads[t].buf && Victim(c', |c'.lru| - 1)
  {
    StepOrder(c, t, Drop, c');
    StepInUse(c, t, Drop, c');
    hide Inv, Step;
    var b := c.threads[t].buf;
    assert b !in InUse(c');
  }

  // ----- blocks read one after the other

  /** A run in which nobody asks for a block while somebody has one. */
  ghost predicate OneAtATime(states: seq<Cache>, steps: seq<(nat, Event)>, disk: map<Key, Block>) {
    IsRun(states, steps, disk) && forall i | 0 <= i < |steps| :: steps[i].1.Get? ==> states[i].threads == map[]
  }

  /** All buffers but number 0, in the order in which `bcache_init` leaves them. */
  function Others(): seq<nat> {
    seq(BCACHE_SIZE - 1, i requires 0 <= i < BCACHE_SIZE - 1 => BCACHE_SIZE - 1 - i)
  }

  /** Only buffer 0 has ever been used. */
  ghost predicate Solo(c: Cache) {
    && Inv(c) && (forall x: nat | x != 0 :: !Hashed(c, x))
    && (forall s, t | s in c.threads && t in c.threads :: s == t)
    && c.lru == if c.threads == map[] then Others() + [0] else [0] + Others()
  }

  lemma SoloStart(disk: map<Key, Block>)
    ensures Solo(InitialCache(disk))
  {
    InitialInv(disk);
    assert InitialCache(disk).lru == Others() + [0];
  }

  /** When nobody has a block, the victim is the tail. */
  lemma IdleVictim(c: Cache, i: nat)
    requires Inv(c) && c.threads == map[] && Victim(c, i)
    ensures i == |c.lru| - 1
  {
    var last := |c.lru| - 1;
    assert c.lru[last] in c.lru;
    assert c.bufs[c.lru[last]].refcnt == |Users(c.threads, c.lru[last])|;
    assert Users(c.threads, c.lru[last]) == {};
  }

  lemma {:induction false} RemoveLast(s: seq<nat>, x: nat)
    requires x !in s
    ensures Remove(s + [x], x) == s
  {
    if s != [] {
      RemoveLast(s[1..], x);
      assert (s + [x])[1..] == s[1..] + [x];
    } else {
      assert s + [x] == [x];
    }
  }

  /** Moving buffer 0 to the front of the initial list, and back to the tail. */
  lemma ThereAndBack()
    ensures MoveToFront(Others() + [0], 0) == [0] + Others() && Remove([0] + Others(), 0) == Others()
  {
    RemoveLast(Others(), 0);
    assert ([0] + Others())[1..] == Others();
  }

  lemma SoloGet(c: Cache, t: nat, k: Key, b: nat, c': Cache)
    requires Solo(c) && c.threads == map[] && Step(c, t, Get(k, b), c')
    ensures b == 0 && c'.lru == [0] + Others() && c'.threads.Keys == {t} && Sizes(c')
    ensures forall x: nat | x != 0 :: !Hashed(c', x)
  {
    hide Others, MoveToFront, Rehashed;
    ThereAndBack();
    GetPlace(c, t, k, b, c');
    if Hit(c, k, b) {
      hide Inv;
      HitHashed(c, t, b);
    } else {
      MissHashed(c, t, k, b);
      hide Inv;
    }
  }

  /** The buffer given out is number 0: the one that is hashed, or the tail. */
  lemma GetPlace(c: Cache, t: nat, k: Key, b: nat, c': Cache)
    requires Solo(c) && c.threads == map[] && Step(c, t, Get(k, b), c')
    ensures b == 0 && c'.lru == MoveToFront(c.lru, b) && c'.threads.Keys == {t} && Sizes(c')
  {
    hide Others, MoveToFront, Rehashed, Hashed;
    if !Hit(c, k, b) {
      var i: nat :| Victim(c, i) && c.lru[i] == b;
      IdleVictim(c, i);
    }
    hide Inv;
  }

  lemma MissHashed(c: Cache, t: nat, k: Key, b: nat)
    requires Inv(c) && b < BCACHE_SIZE && forall x: nat :: !Hit(c, k, x)
    ensures forall x: nat | x != b :: Hashed(AfterMiss(c, t, k, b), x) <==> Hashed(c, x)
  {
    assert forall x: nat | Hashed(c, x) :: !Hit(c, k, x);
    hide Hashed;
    MissIndex(c, t, k, b);
  }

  lemma HitHashed(c: Cache, t: nat, b: nat)
    requires Sizes(c) && b < BCACHE_SIZE
    ensures forall x: nat :: Hashed(AfterHit(c, t, b), x) <==> Hashed(c, x)
  {
    IndexKept(c, AfterHit(c, t, b));
  }

  lemma SoloStep(c: Cache, t: nat, e: Event, c': Cache)
    requires Solo(c) && Step(c, t, e, c') && (e.Get? ==> c.threads == map[])
    ensures Solo(c')
  {
    StepKeeps(c, t, e, c');
    if e.Get? {
      SoloGet(c, t, e.key, e.buf, c');
      hide Inv, Hashed, Step;
      assert forall s | s in c'.threads :: s in c'.threads.Keys;
      assert t in c'.threads.Keys;
    } else {
      SoloOwn(c, t, e, c');
    }
  }

  lemma SoloOwn(c: Cache, t: nat, e: Event, c': Cache)
    requires Solo(c) && Step(c, t, e, c') && !e.Get? && Inv(c')
    ensures Solo(c')
  {
    hide Others;
    KeysKept(c, t, e, c');
    IndexKept(c, c');
    SoloBuffer(c, t);
    OwnList(c, t, e, c');
    hide Inv, Hashed, Step;
    assert forall s | s in c'.threads :: s in c'.threads.Keys;
    assert c'.threads == map[] <==> c'.threads.Keys == {};
  }

  lemma OwnList(c: Cache, t: nat, e: Event, c': Cache)
    requires Sizes(c) && Step(c, t, e, c') && !e.Get? && c.threads.Keys == {t} && c.threads[t].buf == 0
    requires c.bufs[0].refcnt == 1 && c.lru == [0] + Others()
    ensures c'.threads.Keys == (if e.Drop? then {} else {t}) && c'.lru == if e.Drop? then Others() + [0] else c.lru
  {
    hide Hashed, Others;
    ThereAndBack();
    assert t in c.threads.Keys;
  }

  lemma SoloBuffer(c: Cache, t: nat)
    requires Solo(c) && t in c.threads
    ensures c.threads[t].buf == 0 && c.bufs[0].refcnt == 1 && c.threads.Keys == {t}
  {
    assert ThreadOk(c, t);
    assert Users(c.threads, 0) == {t};
  }

  lemma {:induction false} SoloRun(states: seq<Cache>, steps: seq<(nat, Event)>, disk: map<Key, Block>)
    requires OneAtATime(states, steps, disk)
    ensures Solo(states[|steps|])
    decreases |steps|
  {
    hide Solo, Step;
    if steps == [] {
      SoloStart(disk);
    } else {
      var n := |steps| - 1;
      SoloRun(states[..n + 1], steps[..n], disk);
      SoloStep(states[n], steps[n].0, steps[n].1, states[n + 1]);
    }
  }

  /**
   Whoever releases each block before asking for the next one has one buffer, not 128: at any time
   at most one block is cached, the one that was asked for last.
   */
  lemma OneBlockCached(states: seq<Cache>, steps: seq<(nat, Event)>, disk: map<Key, Block>)
    requires OneAtATime(states, steps, disk)
    ensures var c := states[|steps|]; Sizes(c) && forall x: nat | Hashed(c, x) :: x == 0
    ensures |steps| > 0 && steps[|steps| - 1].1.Get? ==>
              var c := states[|steps|]; Sizes(c) && Hashed(c, 0) && c.bufs[0].key == steps[|steps| - 1].1.key
  {
    hide Solo, Step, Hashed;
    SoloRun(states, steps, disk);
    SoloMeans(states[|steps|]);
    if |steps| > 0 && steps[|steps| - 1].1.Get? {
      var n := |steps| - 1;
      SoloRun(states[..n + 1], steps[..n], disk);
      LastStep(states, steps, disk);
      hide OneAtATime;
      SoloGets(states[n], steps[n].0, steps[n].1.key, steps[n].1.buf, states[n + 1]);
    }
  }

  lemma LastStep(states: seq<Cache>, steps: seq<(nat, Event)>, disk: map<Key, Block>)
    requires IsRun(states, steps, disk) && steps != []
    ensures var n := |steps| - 1; Sizes(states[n]) && Step(states[n], steps[n].0, steps[n].1, states[n + 1])
  {
    hide Step;
  }

  lemma SoloMeans(c: Cache)
    requires Solo(c)
    ensures Sizes(c) && forall x: nat | Hashed(c, x) :: x == 0
  {
    hide Hashed;
  }

  lemma SoloGets(c: Cache, t: nat, k: Key, b: nat, c': Cache)
    requires Solo(c) && Step(c, t, Get(k, b), c') && Solo(c')
    ensures Sizes(c') && Hashed(c', 0) && c'.bufs[0].key == k
  {
    assert t in c'.threads && c'.threads[t].key == k;
    SoloBuffer(c', t);
    assert ThreadOk(c', t);
  }
}
