/**
 The block cache on values: fixed buffers, a hash index, an LRU list, the disk, and the
 threads inside `bread` .. `brelse`.  One transition per critical section, so that any
 interleaving of threads is a sequence of these steps.
 */
module BcacheSpec {
  import opened LinkedLists
  import opened Options

  const BCACHE_SIZE: nat := 128
  const BCACHE_HASH_SIZE: nat := 17
  const U64: nat := 0x1_0000_0000_0000_0000

  type Block = seq<nat>

  /** `dev_t` is a signed int. */
  datatype Key = Key(dev: int, blockno: nat)

  /** `struct buf`; `holder` is the thread inside the buffer's spinlock. */
  datatype Buf = Buf(data: Block, key: Key, refcnt: nat, dirty: bool, valid: bool, holder: Option<nat>)

  /**
   Between `bcache_get` and its lock, inside the lock (with or without unwritten changes), and
   between unlock and the reference drop.
   */
  datatype Phase = Waiting | Holding(modified: bool) | Leaving

  /** A thread that asked for the block `key` and was given a buffer. */
  datatype Use = Use(buf: nat, key: Key, phase: Phase)

  datatype Cache = Cache(bufs: seq<Buf>, buckets: seq<seq<nat>>, lru: seq<nat>,
                         disk: map<Key, Block>, threads: map<nat, Use>)

  function HashOf(k: Key): (h: nat)
    ensures h < BCACHE_HASH_SIZE
  {
    (k.dev + k.blockno) % U64 % BCACHE_HASH_SIZE
  }

  /** Any 17 consecutive blocks of a device go to 17 different buckets. */
  lemma HashSpread(dev: int, block: nat, i: nat, j: nat)
    requires i < j < 17 && 0 <= dev + block && dev + block + j < U64
    ensures HashOf(Key(dev, block + i)) != HashOf(Key(dev, block + j))
  {
    var x, y := dev + block + i, dev + block + j;
    assert x % U64 == x && y % U64 == y;
  }

  /** What the disk holds; blocks never written are all alike. */
  function OnDisk(disk: map<Key, Block>, k: Key): Block {
    if k in disk then disk[k] else []
  }

  predicate Hashed(c: Cache, b: nat)
    requires |c.bufs| == BCACHE_SIZE && |c.buckets| == BCACHE_HASH_SIZE
  {
    b < BCACHE_SIZE && b in c.buckets[HashOf(c.bufs[b].key)]
  }

  // ----- the invariant

  predicate Sizes(c: Cache) {
    |c.bufs| == BCACHE_SIZE && |c.buckets| == BCACHE_HASH_SIZE
  }

  /** Each bucket lists buffers of its own hash value, once. */
  ghost predicate Chained(c: Cache)
    requires Sizes(c)
  {
    forall h: nat | h < BCACHE_HASH_SIZE ::
      NoDup(c.buckets[h]) && forall b | b in c.buckets[h] :: b < BCACHE_SIZE && HashOf(c.bufs[b].key) == h
  }

  /** At most one hashed buffer holds a given block. */
  ghost predicate Unique(c: Cache)
    requires Sizes(c)
  {
    forall a: nat, b: nat | Hashed(c, a) && Hashed(c, b) && c.bufs[a].key == c.bufs[b].key :: a == b
  }

  /** The LRU list is a permutation of all buffers. */
  ghost predicate Ordered(c: Cache) {
    NoDup(c.lru) && forall b: nat :: b in c.lru <==> b < BCACHE_SIZE
  }

  /** The threads between get and the release decrement of buffer `b`. */
  function Users(threads: map<nat, Use>, b: nat): set<nat> {
    set t | t in threads && threads[t].buf == b
  }

  ghost predicate Counted(c: Cache)
    requires Sizes(c)
  {
    forall b: nat | b < BCACHE_SIZE :: c.bufs[b].refcnt == |Users(c.threads, b)|
  }

  /** A thread's buffer holds the block the thread asked for, and is locked by it exactly in its critical section. */
  predicate ThreadOk(c: Cache, t: nat)
    requires Sizes(c) && t in c.threads
  {
    var u := c.threads[t];
    && u.buf < BCACHE_SIZE && Hashed(c, u.buf) && c.bufs[u.buf].key == u.key
    && (u.phase.Holding? <==> c.bufs[u.buf].holder == Some(t))
    && (u.phase == Holding(true) ==> c.bufs[u.buf].valid)
  }

  predicate HolderOk(c: Cache, b: nat)
    requires Sizes(c) && b < BCACHE_SIZE
  {
    c.bufs[b].holder.Some? ==> c.bufs[b].holder.value in c.threads && c.threads[c.bufs[b].holder.value].buf == b
  }

  ghost predicate Threaded(c: Cache)
    requires Sizes(c)
  {
    (forall t | t in c.threads :: ThreadOk(c, t)) && (forall b: nat | b < BCACHE_SIZE :: HolderOk(c, b))
  }

  /** Some thread has changed the data of `b` and not yet written it. */
  predicate Unwritten(c: Cache, b: nat)
    requires Sizes(c) && b < BCACHE_SIZE
  {
    && c.bufs[b].holder.Some? && c.bufs[b].holder.value in c.threads
    && c.threads[c.bufs[b].holder.value].phase == Holding(true)
  }

  /** A valid buffer agrees with the disk, unless its holder is in the middle of changing it; it is not dirty. */
  predicate Agrees(c: Cache, b: nat)
    requires Sizes(c) && b < BCACHE_SIZE
  {
    && !c.bufs[b].dirty
    && (c.bufs[b].valid ==> Hashed(c, b) && (c.bufs[b].data == OnDisk(c.disk, c.bufs[b].key) || Unwritten(c, b)))
  }

  ghost predicate Coherent(c: Cache)
    requires Sizes(c)
  {
    forall b: nat | b < BCACHE_SIZE :: Agrees(c, b)
  }

  ghost predicate Inv(c: Cache) {
    Sizes(c) && Chained(c) && Unique(c) && Ordered(c) && Counted(c) && Threaded(c) && Coherent(c)
  }

  function Fresh(): Buf {
    Buf([], Key(0, 0), 0, false, false, None)
  }

  // ----- users

  lemma UsersAdd(threads: map<nat, Use>, t: nat, u: Use, b: nat)
    requires t !in threads
    ensures |Users(threads[t := u], b)| == |Users(threads, b)| + (if u.buf == b then 1 else 0)
  {
    var us, us' := Users(threads, b), Users(threads[t := u], b);
    assert us' == if u.buf == b then us + {t} else us;
  }

  lemma UsersDrop(threads: map<nat, Use>, t: nat, b: nat)
    requires t in threads
    ensures |Users(threads, b)| == |Users(threads - {t}, b)| + (if threads[t].buf == b then 1 else 0)
  {
    UsersAdd(threads - {t}, t, threads[t], b);
    assert (threads - {t})[t := threads[t]] == threads;
  }

  lemma UsersPhase(threads: map<nat, Use>, t: nat, p: Phase, b: nat)
    requires t in threads
    ensures Users(threads[t := threads[t].(phase := p)], b) == Users(threads, b)
  {
  }

  lemma UnusedBuffer(c: Cache, b: nat)
    requires Sizes(c) && Counted(c) && b < BCACHE_SIZE && c.bufs[b].refcnt == 0
    ensures forall t | t in c.threads :: c.threads[t].buf != b
  {
    forall t | t in c.threads
      ensures c.threads[t].buf != b
    {
      assert t !in Users(c.threads, b);
    }
  }

  // ----- the critical section of bcache_get

  /** The buffer that holds `k`. */
  predicate Hit(c: Cache, k: Key, b: nat)
    requires Sizes(c)
  {
    Hashed(c, b) && c.bufs[b].key == k
  }

  /** The victim: the buffer nearest the LRU tail that nobody uses. */
  predicate Victim(c: Cache, i: nat)
    requires Sizes(c)
  {
    && i < |c.lru| && c.lru[i] < BCACHE_SIZE && c.bufs[c.lru[i]].refcnt == 0
    && forall j | i < j < |c.lru| :: c.lru[j] < BCACHE_SIZE ==> c.bufs[c.lru[j]].refcnt > 0
  }

  function MoveToFront(lru: seq<nat>, b: nat): seq<nat> {
    [b] + Remove(lru, b)
  }

  function AfterHit(c: Cache, t: nat, b: nat): Cache
    requires Sizes(c) && b < BCACHE_SIZE
  {
    c.(bufs := c.bufs[b := c.bufs[b].(refcnt := c.bufs[b].refcnt + 1)], lru := MoveToFront(c.lru, b),
       threads := c.threads[t := Use(b, c.bufs[b].key, Waiting)])
  }

  /** Buckets after `b` left its old chain and entered the one of `k`. */
  function Rehashed(buckets: seq<seq<nat>>, b: nat, old_: Key, k: Key): (r: seq<seq<nat>>)
    requires |buckets| == BCACHE_HASH_SIZE
    ensures |r| == |buckets|
  {
    var out := buckets[HashOf(old_) := Remove(buckets[HashOf(old_)], b)];
    out[HashOf(k) := [b] + out[HashOf(k)]]
  }

  function AfterMiss(c: Cache, t: nat, k: Key, b: nat): Cache
    requires Sizes(c) && b < BCACHE_SIZE
  {
    Cache(c.bufs[b := Buf(c.bufs[b].data, k, 1, false, false, c.bufs[b].holder)],
          Rehashed(c.buckets, b, c.bufs[b].key, k), MoveToFront(c.lru, b), c.disk,
          c.threads[t := Use(b, k, Waiting)])
  }

  lemma MoveToFrontOrdered(lru: seq<nat>, b: nat)
    requires NoDup(lru) && b in lru
    ensures NoDup(MoveToFront(lru, b)) && forall x: nat :: x in MoveToFront(lru, b) <==> x in lru
  {
    RemoveFacts(lru, b);
    PushFacts(Remove(lru, b), b);
  }

  /** Steps that leave buckets and keys alone keep the index. */
  lemma IndexKept(c: Cache, c': Cache)
    requires Sizes(c) && Sizes(c') && c'.buckets == c.buckets
    requires forall b: nat | b < BCACHE_SIZE :: c'.bufs[b].key == c.bufs[b].key
    ensures Chained(c) ==> Chained(c')
    ensures Unique(c) ==> Unique(c')
    ensures forall b: nat :: Hashed(c', b) <==> Hashed(c, b)
  {
    hide HashOf;
    assert forall b: nat :: Hashed(c', b) <==> Hashed(c, b);
    if Chained(c) {
      forall h: nat | h < BCACHE_HASH_SIZE
        ensures NoDup(c'.buckets[h]) && forall b | b in c'.buckets[h] :: b < BCACHE_SIZE && HashOf(c'.bufs[b].key) == h
      {
        assert NoDup(c.buckets[h]);
      }
    }
  }

  lemma HitCounted(c: Cache, t: nat, b: nat)
    requires Sizes(c) && Counted(c) && t !in c.threads && b < BCACHE_SIZE
    ensures Counted(AfterHit(c, t, b))
  {
    forall x: nat | x < BCACHE_SIZE
      ensures AfterHit(c, t, b).bufs[x].refcnt == |Users(AfterHit(c, t, b).threads, x)|
    {
      UsersAdd(c.threads, t, Use(b, c.bufs[b].key, Waiting), x);
    }
  }

  /** A second user of a cached block shares its buffer. */
  lemma HitKeeps(c: Cache, t: nat, b: nat)
    requires Inv(c) && t !in c.threads && Hashed(c, b)
    ensures Inv(AfterHit(c, t, b))
  {
    assert b < BCACHE_SIZE;
    hide Hashed, Chained, Unique, Ordered, Counted;
    HitCounted(c, t, b);
    IndexKept(c, AfterHit(c, t, b));
    HitOrdered(c, t, b);
    HitThreaded(c, t, b);
  }

  lemma HitThreaded(c: Cache, t: nat, b: nat)
    requires Sizes(c) && Threaded(c) && Coherent(c) && t !in c.threads && b < BCACHE_SIZE && Hashed(c, b)
    ensures Threaded(AfterHit(c, t, b)) && Coherent(AfterHit(c, t, b))
  {
    hide Hashed;
    var c' := AfterHit(c, t, b);
    IndexKept(c, c');
    assert HolderOk(c, b);
    forall x | x in c'.threads
      ensures ThreadOk(c', x)
    {
      assert x != t ==> ThreadOk(c, x);
    }
    forall x: nat | x < BCACHE_SIZE
      ensures HolderOk(c', x) && Agrees(c', x)
    {
      assert HolderOk(c, x) && Agrees(c, x);
    }
  }

  lemma HitOrdered(c: Cache, t: nat, b: nat)
    requires Sizes(c) && Ordered(c) && b < BCACHE_SIZE
    ensures Ordered(AfterHit(c, t, b))
  {
    MoveToFrontOrdered(c.lru, b);
  }

  // ----- steps of a thread on its own buffer

  /** Between `c` and `c'`, only thread `t` and its buffer changed, and on disk at most the buffer's own block. */
  ghost predicate OwnStep(c: Cache, c': Cache, t: nat)
    requires Sizes(c) && t in c.threads && c.threads[t].buf < BCACHE_SIZE
  {
    var b := c.threads[t].buf;
    && Sizes(c') && c'.buckets == c.buckets
    && (forall x: nat | x < BCACHE_SIZE && x != b :: c'.bufs[x] == c.bufs[x])
    && c'.bufs[b].key == c.bufs[b].key
    && (c.bufs[b].valid ==> c'.bufs[b].valid)
    && (forall x | x in c.threads && x != t :: x in c'.threads && c'.threads[x] == c.threads[x])
    && (forall x | x in c'.threads && x != t :: x in c.threads)
    && (forall x | x in c.threads && x != t :: c'.bufs[b].holder == Some(x) <==> c.bufs[b].holder == Some(x))
    && (forall k | k != c.bufs[b].key :: OnDisk(c'.disk, k) == OnDisk(c.disk, k))
  }

  lemma OwnStepKeeps(c: Cache, c': Cache, t: nat)
    requires Inv(c) && t in c.threads && ThreadOk(c, t) && OwnStep(c, c', t)
    requires t in c'.threads ==> ThreadOk(c', t)
    requires HolderOk(c', c.threads[t].buf) && Agrees(c', c.threads[t].buf)
    requires Ordered(c') && Counted(c')
    ensures Inv(c')
  {
    OwnIndex(c, c', t);
    OwnThreads(c, c', t);
    OwnBuffers(c, c', t);
    hide OwnStep, Hashed, Ordered, Counted, ThreadOk, HolderOk, Agrees;
  }

  lemma OwnIndex(c: Cache, c': Cache, t: nat)
    requires Inv(c) && t in c.threads && c.threads[t].buf < BCACHE_SIZE && OwnStep(c, c', t)
    ensures Chained(c') && Unique(c') && forall b: nat :: Hashed(c', b) <==> Hashed(c, b)
  {
    IndexKept(c, c');
    hide Chained, Unique, Hashed, Ordered, Counted, Threaded, Coherent;
  }

  lemma OwnThreads(c: Cache, c': Cache, t: nat)
    requires Sizes(c) && Threaded(c) && t in c.threads && ThreadOk(c, t) && OwnStep(c, c', t)
    requires forall b: nat :: Hashed(c', b) <==> Hashed(c, b)
    requires t in c'.threads ==> ThreadOk(c', t)
    requires HolderOk(c', c.threads[t].buf)
    ensures Threaded(c')
  {
    hide Hashed;
    forall x | x in c'.threads
      ensures ThreadOk(c', x)
    {
      assert x != t ==> ThreadOk(c, x);
    }
    forall x: nat | x < BCACHE_SIZE
      ensures HolderOk(c', x)
    {
      assert HolderOk(c, x);
    }
  }

  lemma OwnBuffers(c: Cache, c': Cache, t: nat)
    requires Inv(c) && t in c.threads && ThreadOk(c, t) && OwnStep(c, c', t)
    requires forall b: nat :: Hashed(c', b) <==> Hashed(c, b)
    requires Agrees(c', c.threads[t].buf)
    ensures Coherent(c')
  {
    var b := c.threads[t].buf;
    assert forall x: nat | Hashed(c, x) && c.bufs[x].key == c.bufs[b].key :: x == b;
    hide Hashed, Chained, Unique, Ordered, Counted;
    forall x: nat | x < BCACHE_SIZE
      ensures Agrees(c', x)
    {
      assert HolderOk(c, x) && Agrees(c, x);
    }
  }

  function SetPhase(threads: map<nat, Use>, t: nat, p: Phase): map<nat, Use>
    requires t in threads
  {
    threads[t := threads[t].(phase := p)]
  }

  /** Thread `t` rewrites its own buffer and moves to phase `p`. */
  function OwnUpdate(c: Cache, t: nat, v: Buf, p: Phase): Cache
    requires t in c.threads && c.threads[t].buf < |c.bufs|
  {
    c.(bufs := c.bufs[c.threads[t].buf := v], threads := SetPhase(c.threads, t, p))
  }

  lemma OwnUpdateCounted(c: Cache, t: nat, v: Buf, p: Phase)
    requires Sizes(c) && Counted(c) && t in c.threads && c.threads[t].buf < BCACHE_SIZE
    requires v.refcnt == c.bufs[c.threads[t].buf].refcnt
    ensures Counted(OwnUpdate(c, t, v, p))
  {
    forall x: nat | x < BCACHE_SIZE
      ensures OwnUpdate(c, t, v, p).bufs[x].refcnt == |Users(OwnUpdate(c, t, v, p).threads, x)|
    {
      UsersPhase(c.threads, t, p, x);
    }
  }

  /** The buffer's new contents fit the thread's new phase, and no other thread is inside its lock. */
  predicate OwnOk(c: Cache, t: nat, v: Buf, p: Phase)
    requires Sizes(c) && t in c.threads && c.threads[t].buf < BCACHE_SIZE
  {
    var old_ := c.bufs[c.threads[t].buf];
    && v.key == old_.key && v.refcnt == old_.refcnt && !v.dirty && (old_.valid ==> v.valid)
    && (old_.holder == None || old_.holder == Some(t))
    && v.holder == (if p.Holding? then Some(t) else None)
    && (v.valid ==> p == Holding(true) || v.data == OnDisk(c.disk, v.key))
    && (p == Holding(true) ==> v.valid)
  }

  lemma OwnUpdateStep(c: Cache, t: nat, v: Buf, p: Phase)
    requires Sizes(c) && t in c.threads && ThreadOk(c, t) && OwnOk(c, t, v, p)
    ensures var c' := OwnUpdate(c, t, v, p);
            OwnStep(c, c', t) && ThreadOk(c', t) && HolderOk(c', c.threads[t].buf) && Agrees(c', c.threads[t].buf)
  {
    hide Hashed;
    IndexKept(c, OwnUpdate(c, t, v, p));
  }

  lemma OwnUpdateKeeps(c: Cache, t: nat, v: Buf, p: Phase)
    requires Inv(c) && t in c.threads && ThreadOk(c, t) && OwnOk(c, t, v, p)
    ensures Inv(OwnUpdate(c, t, v, p))
  {
    OwnUpdateCounted(c, t, v, p);
    OwnUpdateStep(c, t, v, p);
    hide Hashed, Counted, OwnStep, HolderOk, Agrees;
    OwnStepKeeps(c, OwnUpdate(c, t, v, p), t);
  }

  /** What the invariant says of a thread and its buffer. */
  lemma OwnBuffer(c: Cache, t: nat)
    requires Inv(c) && t in c.threads
    ensures ThreadOk(c, t)
    ensures var b := c.threads[t].buf; HolderOk(c, b) && Agrees(c, b)
  {
    assert ThreadOk(c, t);
  }

  /** Taking the buffer's lock when it is free. */
  function AfterLock(c: Cache, t: nat): Cache
    requires Sizes(c) && t in c.threads && c.threads[t].buf < BCACHE_SIZE
  {
    OwnUpdate(c, t, c.bufs[c.threads[t].buf].(holder := Some(t)), Holding(false))
  }

  lemma LockKeeps(c: Cache, t: nat)
    requires Inv(c) && t in c.threads && ThreadOk(c, t) && c.threads[t].phase.Waiting?
            && c.bufs[c.threads[t].buf].holder.None?
    ensures Inv(AfterLock(c, t))
  {
    OwnBuffer(c, t);
    hide Inv, Hashed;
    OwnUpdateKeeps(c, t, c.bufs[c.threads[t].buf].(holder := Some(t)), Holding(false));
  }

  /** `bread` after the lock: reads the block unless the buffer is valid. */
  function AfterFill(c: Cache, t: nat): Cache
    requires Sizes(c) && t in c.threads && c.threads[t].buf < BCACHE_SIZE
  {
    var b := c.threads[t].buf;
    OwnUpdate(c, t, if c.bufs[b].valid then c.bufs[b]
                    else c.bufs[b].(data := OnDisk(c.disk, c.threads[t].key), valid := true), c.threads[t].phase)
  }

  lemma FillKeeps(c: Cache, t: nat)
    requires Inv(c) && t in c.threads && ThreadOk(c, t) && c.threads[t].phase == Holding(false)
    ensures Inv(AfterFill(c, t))
    ensures var v := AfterFill(c, t).bufs[c.threads[t].buf];
            v.valid && v.key == c.threads[t].key && v.data == OnDisk(c.disk, c.threads[t].key)
  {
    OwnBuffer(c, t);
    hide Inv, Hashed;
    OwnUpdateKeeps(c, t, AfterFill(c, t).bufs[c.threads[t].buf], c.threads[t].phase);
  }

  /** The holder changes the data. */
  function AfterModify(c: Cache, t: nat, data: Block): Cache
    requires Sizes(c) && t in c.threads && c.threads[t].buf < BCACHE_SIZE
  {
    OwnUpdate(c, t, c.bufs[c.threads[t].buf].(data := data), Holding(true))
  }

  lemma ModifyKeeps(c: Cache, t: nat, data: Block)
    requires Inv(c) && t in c.threads && ThreadOk(c, t) && c.threads[t].phase.Holding? && c.bufs[c.threads[t].buf].valid
    ensures Inv(AfterModify(c, t, data))
  {
    OwnBuffer(c, t);
    hide Inv, Hashed;
    OwnUpdateKeeps(c, t, AfterModify(c, t, data).bufs[c.threads[t].buf], Holding(true));
  }

  /** `bwrite`: the buffer goes to disk; nothing happens to an invalid buffer. */
  function AfterWrite(c: Cache, t: nat): Cache
    requires Sizes(c) && t in c.threads && c.threads[t].buf < BCACHE_SIZE
  {
    var v := c.bufs[c.threads[t].buf];
    if !v.valid then c
    else OwnUpdate(c, t, v.(dirty := false), Holding(false)).(disk := c.disk[v.key := v.data])
  }

  lemma WriteKeeps(c: Cache, t: nat)
    requires Inv(c) && t in c.threads && ThreadOk(c, t) && c.threads[t].phase.Holding?
    ensures Inv(AfterWrite(c, t))
  {
    var b := c.threads[t].buf;
    if c.bufs[b].valid {
      var c' := AfterWrite(c, t);
      OwnUpdateCounted(c, t, c.bufs[b].(dirty := false), Holding(false));
      CountedByThreads(OwnUpdate(c, t, c.bufs[b].(dirty := false), Holding(false)), c');
      WriteOwnStep(c, t);
      hide Hashed, Counted, OwnStep, HolderOk, Agrees;
      OwnStepKeeps(c, c', t);
    }
  }

  lemma CountedByThreads(c: Cache, c': Cache)
    requires Sizes(c) && Sizes(c') && Counted(c) && c'.threads == c.threads && c'.bufs == c.bufs
    ensures Counted(c')
  {
  }

  lemma WriteOwnStep(c: Cache, t: nat)
    requires Sizes(c) && t in c.threads && ThreadOk(c, t) && c.threads[t].phase.Holding?
            && c.bufs[c.threads[t].buf].valid
    ensures var c' := AfterWrite(c, t);
            OwnStep(c, c', t) && ThreadOk(c', t) && HolderOk(c', c.threads[t].buf) && Agrees(c', c.threads[t].buf)
  {
    hide Hashed;
    IndexKept(c, AfterWrite(c, t));
  }

  /** The first half of `brelse`. */
  function AfterUnlock(c: Cache, t: nat): Cache
    requires Sizes(c) && t in c.threads && c.threads[t].buf < BCACHE_SIZE
  {
    OwnUpdate(c, t, c.bufs[c.threads[t].buf].(holder := None), Leaving)
  }

  lemma UnlockKeeps(c: Cache, t: nat)
    requires Inv(c) && t in c.threads && ThreadOk(c, t) && c.threads[t].phase == Holding(false)
    ensures Inv(AfterUnlock(c, t))
  {
    OwnBuffer(c, t);
    hide Inv, Hashed;
    OwnUpdateKeeps(c, t, AfterUnlock(c, t).bufs[c.threads[t].buf], Leaving);
  }

  /** The second half of `brelse`: drop the reference; an unused buffer goes to the LRU tail. */
  function AfterDrop(c: Cache, t: nat): Cache
    requires Sizes(c) && t in c.threads && c.threads[t].buf < BCACHE_SIZE && c.bufs[c.threads[t].buf].refcnt > 0
  {
    var b := c.threads[t].buf;
    var n := c.bufs[b].refcnt - 1;
    c.(bufs := c.bufs[b := c.bufs[b].(refcnt := n)], threads := c.threads - {t},
       lru := if n == 0 then Remove(c.lru, b) + [b] else c.lru)
  }

  lemma DropCounted(c: Cache, t: nat)
    requires Sizes(c) && Counted(c) && t in c.threads && c.threads[t].buf < BCACHE_SIZE
    ensures c.bufs[c.threads[t].buf].refcnt > 0 && Counted(AfterDrop(c, t))
  {
    UsersDrop(c.threads, t, c.threads[t].buf);
    forall x: nat | x < BCACHE_SIZE
      ensures AfterDrop(c, t).bufs[x].refcnt == |Users(AfterDrop(c, t).threads, x)|
    {
      UsersDrop(c.threads, t, x);
    }
  }

  lemma DropKeeps(c: Cache, t: nat)
    requires Inv(c) && t in c.threads && ThreadOk(c, t) && c.threads[t].phase.Leaving?
    ensures c.bufs[c.threads[t].buf].refcnt > 0 && Inv(AfterDrop(c, t))
  {
    DropCounted(c, t);
    DropOrdered(c, t);
    DropOwnStep(c, t);
    hide Ordered, Counted, Hashed, OwnStep, HolderOk, Agrees;
    OwnStepKeeps(c, AfterDrop(c, t), t);
  }

  lemma DropOwnStep(c: Cache, t: nat)
    requires Inv(c) && t in c.threads && ThreadOk(c, t) && c.threads[t].phase.Leaving?
    requires c.bufs[c.threads[t].buf].refcnt > 0
    ensures var c' := AfterDrop(c, t);
            OwnStep(c, c', t) && HolderOk(c', c.threads[t].buf) && Agrees(c', c.threads[t].buf)
  {
    OwnBuffer(c, t);
    hide Inv, Hashed, Remove;
    IndexKept(c, AfterDrop(c, t));
    DropBuffer(c, t);
    hide OnDisk;
  }

  lemma DropBuffer(c: Cache, t: nat)
    requires Sizes(c) && t in c.threads && ThreadOk(c, t) && c.threads[t].phase.Leaving?
    requires c.bufs[c.threads[t].buf].refcnt > 0 && HolderOk(c, c.threads[t].buf)
    ensures HolderOk(AfterDrop(c, t), c.threads[t].buf)
  {
    hide Hashed, Remove;
  }

  lemma DropOrdered(c: Cache, t: nat)
    requires Sizes(c) && Ordered(c) && t in c.threads && c.threads[t].buf < BCACHE_SIZE
    requires c.bufs[c.threads[t].buf].refcnt > 0
    ensures Ordered(AfterDrop(c, t))
  {
    RemoveFacts(c.lru, c.threads[t].buf);
    PushFacts(Remove(c.lru, c.threads[t].buf), c.threads[t].buf);
  }

  // ----- replacing a buffer

  lemma RehashedBuckets(c: Cache, b: nat, k: Key)
    requires Sizes(c) && Chained(c) && b < BCACHE_SIZE
    ensures var buckets := Rehashed(c.buckets, b, c.bufs[b].key, k);
            forall h: nat | h < BCACHE_HASH_SIZE ::
              && NoDup(buckets[h])
              && (forall x: nat :: x in buckets[h] <==> (x != b && x in c.buckets[h]) || (x == b && h == HashOf(k)))
  {
    var g := HashOf(c.bufs[b].key);
    RemoveFacts(c.buckets[g], b);
    var mid := c.buckets[g := Remove(c.buckets[g], b)];
    forall h: nat | h < BCACHE_HASH_SIZE
      ensures NoDup(mid[h]) && forall x: nat :: x in mid[h] <==> x != b && x in c.buckets[h]
    {
      assert NoDup(c.buckets[h]);
      if h != g {
        assert b !in c.buckets[h];
      }
    }
    PushFacts(mid[HashOf(k)], b);
  }

  lemma MissIndex(c: Cache, t: nat, k: Key, b: nat)
    requires Sizes(c) && Chained(c) && Unique(c) && b < BCACHE_SIZE
    requires forall x: nat | Hashed(c, x) :: c.bufs[x].key != k
    ensures var c' := AfterMiss(c, t, k, b);
            && Chained(c') && Unique(c') && Hashed(c', b)
            && forall x: nat | x != b :: Hashed(c', x) <==> Hashed(c, x)
  {
    hide HashOf;
    RehashedBuckets(c, b, k);
    var c' := AfterMiss(c, t, k, b);
    assert forall x: nat | x < BCACHE_SIZE && x != b :: c'.bufs[x] == c.bufs[x];
    assert forall x: nat | x != b :: Hashed(c', x) <==> Hashed(c, x);
    assert Hashed(c', b);
    forall h: nat | h < BCACHE_HASH_SIZE
      ensures NoDup(c'.buckets[h]) && forall x | x in c'.buckets[h] :: x < BCACHE_SIZE && HashOf(c'.bufs[x].key) == h
    {
      assert NoDup(c.buckets[h]);
    }
  }

  lemma MissCounted(c: Cache, t: nat, k: Key, b: nat)
    requires Sizes(c) && Counted(c) && t !in c.threads && b < BCACHE_SIZE && c.bufs[b].refcnt == 0
    ensures Counted(AfterMiss(c, t, k, b))
  {
    forall x: nat | x < BCACHE_SIZE
      ensures AfterMiss(c, t, k, b).bufs[x].refcnt == |Users(AfterMiss(c, t, k, b).threads, x)|
    {
      UsersAdd(c.threads, t, Use(b, k, Waiting), x);
    }
  }

  /** Giving an unused buffer to a block that is not cached. */
  lemma MissKeeps(c: Cache, t: nat, k: Key, b: nat)
    requires Inv(c) && t !in c.threads && b < BCACHE_SIZE && c.bufs[b].refcnt == 0
    requires forall x: nat | Hashed(c, x) :: c.bufs[x].key != k
    ensures Inv(AfterMiss(c, t, k, b))
  {
    MissIndex(c, t, k, b);
    MissCounted(c, t, k, b);
    MoveToFrontOrdered(c.lru, b);
    UnusedBuffer(c, b);
    MissThreads(c, t, k, b);
    MissBuffers(c, t, k, b);
    hide Chained, Unique, Counted, Hashed, ThreadOk, HolderOk, Agrees;
  }

  lemma MissThreads(c: Cache, t: nat, k: Key, b: nat)
    requires Sizes(c) && Threaded(c) && t !in c.threads && b < BCACHE_SIZE
    requires forall x | x in c.threads :: c.threads[x].buf != b
    requires var c' := AfterMiss(c, t, k, b); Hashed(c', b) && forall x: nat | x != b :: Hashed(c', x) <==> Hashed(c, x)
    ensures Threaded(AfterMiss(c, t, k, b))
  {
    hide Hashed, Rehashed;
    var c' := AfterMiss(c, t, k, b);
    assert HolderOk(c, b);
    forall x | x in c'.threads
      ensures ThreadOk(c', x)
    {
      assert x != t ==> ThreadOk(c, x);
    }
    forall x: nat | x < BCACHE_SIZE
      ensures HolderOk(c', x)
    {
      assert HolderOk(c, x);
    }
  }

  lemma MissBuffers(c: Cache, t: nat, k: Key, b: nat)
    requires Sizes(c) && Threaded(c) && Coherent(c) && t !in c.threads && b < BCACHE_SIZE
    requires forall x | x in c.threads :: c.threads[x].buf != b
    requires var c' := AfterMiss(c, t, k, b); forall x: nat | x != b :: Hashed(c', x) <==> Hashed(c, x)
    ensures Coherent(AfterMiss(c, t, k, b))
  {
    hide Hashed, Rehashed;
    var c' := AfterMiss(c, t, k, b);
    forall x: nat | x < BCACHE_SIZE
      ensures Agrees(c', x)
    {
      assert HolderOk(c, x) && Agrees(c, x);
    }
  }

  /**
   What `bcache_get` may do: share the buffer that holds the block, or replace the unused buffer
   nearest the LRU tail.
   */
  ghost predicate Gotten(c: Cache, t: nat, k: Key, b: nat, c': Cache)
    requires Sizes(c) && b < BCACHE_SIZE
  {
    if Hit(c, k, b) then c' == AfterHit(c, t, b)
    else
      && (forall x: nat :: !Hit(c, k, x))
      && (exists i: nat :: Victim(c, i) && c.lru[i] == b)
      && c' == AfterMiss(c, t, k, b)
  }

  /** The block is not cached and every buffer is in use. */
  ghost predicate Exhausted(c: Cache, k: Key)
    requires Sizes(c)
  {
    (forall x: nat :: !Hit(c, k, x)) && forall b: nat | b < BCACHE_SIZE :: c.bufs[b].refcnt > 0
  }

  // ----- the initial state

  function InitialCache(disk: map<Key, Block>): Cache {
    Cache(seq(BCACHE_SIZE, _ => Fresh()), seq(BCACHE_HASH_SIZE, _ => []),
          seq(BCACHE_SIZE, i requires 0 <= i < BCACHE_SIZE => BCACHE_SIZE - 1 - i), disk, map[])
  }

  lemma InitialInv(disk: map<Key, Block>)
    ensures Inv(InitialCache(disk))
  {
    var c := InitialCache(disk);
    forall b: nat | b < BCACHE_SIZE
      ensures b in c.lru
    {
      assert c.lru[BCACHE_SIZE - 1 - b] == b;
    }
    assert forall b: nat :: Users(c.threads, b) == {};
  }

  // ----- what the invariant means for threads

  /** Threads that asked for the same block share one buffer, threads that asked for different blocks do not. */
  lemma SharedBuffer(c: Cache, s: nat, t: nat)
    requires Inv(c) && s in c.threads && t in c.threads
    ensures c.threads[s].key == c.threads[t].key <==> c.threads[s].buf == c.threads[t].buf
  {
    assert ThreadOk(c, s) && ThreadOk(c, t);
  }

  /** At most one thread is in the critical section of a block. */
  lemma MutualExclusion(c: Cache, s: nat, t: nat)
    requires Inv(c) && s in c.threads && t in c.threads && c.threads[s].key == c.threads[t].key
    requires c.threads[s].phase.Holding? && c.threads[t].phase.Holding?
    ensures s == t
  {
    SharedBuffer(c, s, t);
    assert ThreadOk(c, s) && ThreadOk(c, t);
  }

  // ----- whole runs of concurrent threads

  datatype Event =
    | Get(key: Key, buf: nat)
    | Lock
    | Fill
    | Modify(data: Block)
    | Write
    | Unlock
    | Drop

  /** Thread `t` takes one step, when it is at the point of the protocol where that step comes. */
  ghost predicate Step(c: Cache, t: nat, e: Event, c': Cache)
    requires Sizes(c)
  {
    match e
    case Get(k, b) => t !in c.threads && b < BCACHE_SIZE && Gotten(c, t, k, b, c')
    case Lock => At(c, t, Waiting) && c.bufs[c.threads[t].buf].holder.None? && c' == AfterLock(c, t)
    case Fill => At(c, t, Holding(false)) && c' == AfterFill(c, t)
    case Modify(data) => InLock(c, t) && c.bufs[c.threads[t].buf].valid && c' == AfterModify(c, t, data)
    case Write => InLock(c, t) && c' == AfterWrite(c, t)
    case Unlock => At(c, t, Holding(false)) && c' == AfterUnlock(c, t)
    case Drop => At(c, t, Leaving) && c.bufs[c.threads[t].buf].refcnt > 0 && c' == AfterDrop(c, t)
  }

  predicate At(c: Cache, t: nat, p: Phase)
    requires Sizes(c)
  {
    t in c.threads && ThreadOk(c, t) && c.threads[t].phase == p
  }

  predicate InLock(c: Cache, t: nat)
    requires Sizes(c)
  {
    t in c.threads && ThreadOk(c, t) && c.threads[t].phase.Holding?
  }

  lemma StepKeeps(c: Cache, t: nat, e: Event, c': Cache)
    requires Inv(c) && Step(c, t, e, c')
    ensures Inv(c')
  {
    match e
    case Get(k, b) =>
      if Hit(c, k, b) {
        HitKeeps(c, t, b);
      } else {
        forall x: nat | Hashed(c, x)
          ensures c.bufs[x].key != k
        {
          assert !Hit(c, k, x);
        }
        MissKeeps(c, t, k, b);
      }
    case Lock => LockKeeps(c, t);
    case Fill => FillKeeps(c, t);
    case Modify(data) => ModifyKeeps(c, t, data);
    case Write => WriteKeeps(c, t);
    case Unlock => UnlockKeeps(c, t);
    case Drop => DropKeeps(c, t);
  }

  lemma InUseHashed(c: Cache, x: nat)
    requires Inv(c) && x < BCACHE_SIZE && c.bufs[x].refcnt > 0
    ensures Hashed(c, x)
  {
    assert Users(c.threads, x) != {};
    var t :| t in Users(c.threads, x);
    assert ThreadOk(c, t);
  }

  /** Whatever step any thread takes, a buffer in use keeps its identity and its place in the index. */
  lemma InUseStep(c: Cache, t: nat, e: Event, c': Cache, x: nat)
    requires Inv(c) && Step(c, t, e, c') && x < BCACHE_SIZE && c.bufs[x].refcnt > 0
    ensures Sizes(c') && c'.bufs[x].key == c.bufs[x].key && Hashed(c', x)
  {
    InUseHashed(c, x);
    if e.Get? && !Hit(c, e.key, e.buf) {
      MissInUse(c, t, e.key, e.buf, c', x);
    } else {
      KeysKept(c, t, e, c');
      hide Inv, Hashed, Step;
      IndexKept(c, c');
    }
  }

  lemma MissInUse(c: Cache, t: nat, k: Key, b: nat, c': Cache, x: nat)
    requires Inv(c) && b < BCACHE_SIZE && Gotten(c, t, k, b, c') && !Hit(c, k, b)
    requires x < BCACHE_SIZE && c.bufs[x].refcnt > 0 && Hashed(c, x)
    ensures Sizes(c') && c'.bufs[x].key == c.bufs[x].key && Hashed(c', x)
  {
    assert forall y: nat | Hashed(c, y) :: !Hit(c, k, y);
    hide Hashed;
    MissIndex(c, t, k, b);
    hide Inv, Rehashed, MoveToFront;
  }

  /** All steps but the replacement of a buffer leave the index and all identities alone. */
  lemma KeysKept(c: Cache, t: nat, e: Event, c': Cache)
    requires Sizes(c) && Step(c, t, e, c') && !(e.Get? && !Hit(c, e.key, e.buf))
    ensures Sizes(c') && c'.buckets == c.buckets && forall y: nat | y < BCACHE_SIZE :: c'.bufs[y].key == c.bufs[y].key
  {
    hide Hashed, MoveToFront;
  }

  /** Only the thread inside the lock of a buffer in use changes its valid data, and nobody else enters the lock. */
  lemma InUseData(c: Cache, t: nat, e: Event, c': Cache, x: nat)
    requires Inv(c) && Step(c, t, e, c') && x < BCACHE_SIZE && c.bufs[x].refcnt > 0 && c.bufs[x].valid
    ensures Sizes(c') && c'.bufs[x].valid
    ensures c'.bufs[x].data != c.bufs[x].data ==> e.Modify? && c.bufs[x].holder == Some(t)
    ensures c.bufs[x].holder.Some? && c.bufs[x].holder != Some(t) ==> c'.bufs[x].holder == c.bufs[x].holder
  {
    hide Hashed;
    if e.Get? {
      GetData(c, t, e.key, e.buf, c', x);
    } else {
      assert ThreadOk(c, t);
      hide Inv;
    }
  }

  lemma GetData(c: Cache, t: nat, k: Key, b: nat, c': Cache, x: nat)
    requires Sizes(c) && b < BCACHE_SIZE && Gotten(c, t, k, b, c') && x < BCACHE_SIZE && c.bufs[x].refcnt > 0
    ensures Sizes(c') && c'.bufs[x] == c.bufs[x].(refcnt := c'.bufs[x].refcnt)
  {
    hide Hashed, Rehashed, MoveToFront;
  }

  ghost predicate IsRun(states: seq<Cache>, steps: seq<(nat, Event)>, disk: map<Key, Block>) {
    && |states| == |steps| + 1 && states[0] == InitialCache(disk)
    && forall i | 0 <= i < |steps| :: Sizes(states[i]) && Step(states[i], steps[i].0, steps[i].1, states[i + 1])
  }

  /** Every interleaving keeps the invariant. */
  lemma {:induction false} RunInv(states: seq<Cache>, steps: seq<(nat, Event)>, disk: map<Key, Block>)
    requires IsRun(states, steps, disk)
    ensures Inv(states[|steps|])
    decreases |steps|
  {
    if steps == [] {
      InitialInv(disk);
    } else {
      var n := |steps| - 1;
      RunInv(states[..n + 1], steps[..n], disk);
      StepKeeps(states[n], steps[n].0, steps[n].1, states[n + 1]);
    }
  }

  /** The step is a `bwrite` of a valid buffer that holds block `k`. */
  predicate Writes(c: Cache, t: nat, e: Event, k: Key) {
    && e.Write? && Sizes(c) && InLock(c, t)
    && c.threads[t].key == k && c.bufs[c.threads[t].buf].valid
  }

  /** The bytes of the last `bwrite` to block `k` in a run, or what the disk held at the start. */
  ghost function LastWritten(states: seq<Cache>, steps: seq<(nat, Event)>, disk: map<Key, Block>, k: Key): Block
    requires IsRun(states, steps, disk)
    decreases |steps|
  {
    if steps == [] then OnDisk(disk, k)
    else
      var n := |steps| - 1;
      var (t, e) := steps[n];
      var c := states[n];
      if Writes(c, t, e, k) then c.bufs[c.threads[t].buf].data
      else LastWritten(states[..n + 1], steps[..n], disk, k)
  }

  lemma {:induction false} DiskIsLastWritten(states: seq<Cache>, steps: seq<(nat, Event)>, disk: map<Key, Block>,
                                             k: Key)
    requires IsRun(states, steps, disk)
    ensures OnDisk(states[|steps|].disk, k) == LastWritten(states, steps, disk, k)
    decreases |steps|
  {
    if steps != [] {
      var n := |steps| - 1;
      hide Step, Writes, OnDisk;
      DiskIsLastWritten(states[..n + 1], steps[..n], disk, k);
      var (t, e) := steps[n];
      StepDisk(states[n], t, e, states[n + 1], k);
    }
  }

  /** Only `bwrite` changes the disk, and only at the block its buffer holds. */
  lemma StepDisk(c: Cache, t: nat, e: Event, c': Cache, k: Key)
    requires Sizes(c) && Step(c, t, e, c')
    ensures OnDisk(c'.disk, k) ==
      if Writes(c, t, e, k) then c.bufs[c.threads[t].buf].data else OnDisk(c.disk, k)
  {
  }

  /** What `bread` shows its caller, in any interleaving: the last bytes written to that block. */
  lemma ReadsLastWritten(states: seq<Cache>, steps: seq<(nat, Event)>, disk: map<Key, Block>, t: nat)
    requires IsRun(states, steps, disk)
    requires t in states[|steps|].threads && states[|steps|].threads[t].phase == Holding(false)
    ensures var c := states[|steps|];
            && Sizes(c) && c.threads[t].buf < BCACHE_SIZE
            && var v := AfterFill(c, t).bufs[c.threads[t].buf];
            v.valid && v.key == c.threads[t].key && v.data == LastWritten(states, steps, disk, c.threads[t].key)
  {
    var c := states[|steps|];
    RunInv(states, steps, disk);
    assert ThreadOk(c, t);
    FillKeeps(c, t);
    DiskIsLastWritten(states, steps, disk, c.threads[t].key);
  }
}
