/**
 `bcache.c` on its static tables.  Each method is one critical section (or one step inside
 a buffer's lock), so concurrent threads are any interleaving of calls; `t` names the
 calling thread.  Block I/O succeeds.
 */
module Bcache {
  import opened LinkedLists
  import opened Options
  import opened BcacheSpec

  class BufferCache {
    const bufs: array<Buf>
    const hashTable: array<seq<nat>>
    var lruList: seq<nat>
    var disk: map<Key, Block>
    ghost var threads: map<nat, Use>

    ghost function Snapshot(): Cache
      reads this, bufs, hashTable
    {
      Cache(bufs[..], hashTable[..], lruList, disk, threads)
    }

    ghost predicate Valid()
      reads this, bufs, hashTable
    {
      bufs as object != hashTable && Inv(Snapshot())
    }

    /** `bcache_init`. */
    constructor (disk: map<Key, Block>)
      ensures Valid() && fresh(bufs) && fresh(hashTable)
      ensures this.disk == disk && threads == map[]
      ensures |lruList| == BCACHE_SIZE && (forall k: nat | k < BCACHE_SIZE :: lruList[k] == BCACHE_SIZE - 1 - k)
      ensures bufs.Length == BCACHE_SIZE && (forall b | 0 <= b < BCACHE_SIZE :: !bufs[b].valid && bufs[b].refcnt == 0)
    {
      bufs := new Buf[BCACHE_SIZE](_ => Fresh());
      hashTable := new seq<nat>[BCACHE_HASH_SIZE](_ => []);
      lruList := [];
      this.disk := disk;
      threads := map[];
      new;
      for i := 0 to BCACHE_HASH_SIZE
        invariant forall h | 0 <= h < BCACHE_HASH_SIZE :: hashTable[h] == []
        invariant forall b | 0 <= b < BCACHE_SIZE :: bufs[b] == Fresh()
        invariant lruList == [] && this.disk == disk && threads == map[]
      {
        hashTable[i] := [];
      }
      for i := 0 to BCACHE_SIZE
        invariant forall h | 0 <= h < BCACHE_HASH_SIZE :: hashTable[h] == []
        invariant forall b | 0 <= b < BCACHE_SIZE :: bufs[b] == Fresh()
        invariant |lruList| == i && (forall k | 0 <= k < i :: lruList[k] == i - 1 - k)
        invariant this.disk == disk && threads == map[]
      {
        bufs[i] := Fresh();
        lruList := [i] + lruList;
      }
      InitialInv(disk);
      assert Snapshot() == InitialCache(disk);
    }

    /** `bcache_lookup`: the buffer of a block, if it is cached. */
    method Lookup(key: Key) returns (r: Option<nat>)
      requires Valid()
      ensures r.Some? ==> Hit(Snapshot(), key, r.value)
      ensures r.None? ==> forall b: nat | Hashed(Snapshot(), b) :: bufs[b].key != key
    {
      var chain := hashTable[HashOf(key)];
      assert NoDup(Snapshot().buckets[HashOf(key)]);
      for i := 0 to |chain|
        invariant forall b | b in chain :: b < BCACHE_SIZE && HashOf(bufs[b].key) == HashOf(key)
        invariant forall j | 0 <= j < i :: chain[j] in chain && bufs[chain[j]].key != key
      {
        assert chain[i] in chain;
        if bufs[chain[i]].key == key {
          return Some(chain[i]);
        }
      }
      r := None;
    }

    /** `bcache_evict`: unhashes the unused buffer nearest the LRU tail, writing it back if dirty. */
    method Evict() returns (r: Option<nat>)
      requires Sizes(Snapshot()) && bufs as object != hashTable && forall b | b in lruList :: b < BCACHE_SIZE
      modifies this`disk, bufs, hashTable
      ensures r.None? ==> Snapshot() == old(Snapshot()) && forall b | b in lruList :: bufs[b].refcnt > 0
      ensures r.Some? ==>
                && (exists i: nat :: Victim(old(Snapshot()), i) && lruList[i] == r.value)
                && var b, v := r.value, old(bufs[..])[r.value];
                && bufs[..] == old(bufs[..])[b := v.(dirty := false, valid := false)]
                && disk == (if v.dirty then old(disk)[v.key := v.data] else old(disk))
                && hashTable[..] == old(hashTable[..])[HashOf(v.key) := Remove(old(hashTable[..])[HashOf(v.key)], b)]
    {
      var i := |lruList|;
      while i > 0
        invariant 0 <= i <= |lruList| && Snapshot() == old(Snapshot())
        invariant forall j | i <= j < |lruList| :: lruList[j] in lruList && bufs[lruList[j]].refcnt > 0
      {
        i := i - 1;
        var b := lruList[i];
        assert b in lruList;
        if bufs[b].refcnt == 0 {
          assert Victim(old(Snapshot()), i);
          if bufs[b].dirty {
            disk := disk[bufs[b].key := bufs[b].data];
            bufs[b] := bufs[b].(dirty := false);
          }
          hashTable[HashOf(bufs[b].key)] := Remove(hashTable[HashOf(bufs[b].key)], b);
          bufs[b] := bufs[b].(valid := false);
          return Some(b);
        }
      }
      r := None;
    }

    /**
     The part of `bcache_get` inside the cache lock.  None, where the source panics, exactly
     when the block is not cached and every buffer is in use.
     */
    method Get(t: nat, key: Key) returns (r: Option<nat>)
      requires Valid() && t !in threads
      modifies this, bufs, hashTable
      ensures Valid() && disk == old(disk)
      ensures r.Some? ==> r.value < BCACHE_SIZE && Gotten(old(Snapshot()), t, key, r.value, Snapshot())
      ensures r.None? ==> Snapshot() == old(Snapshot()) && Exhausted(Snapshot(), key)
      ensures r.Some? ==> MovedToFront(old(lruList), r.value, lruList)
    {
      ghost var c := Snapshot();
      r := Lookup(key);
      if r.Some? {
        var b := r.value;
        HitGotten(c, t, key, b);
        FrontMoved(lruList, b);
        hide Inv, Hashed, Gotten, Hit, HashOf, Remove, MovedToFront;
        bufs[b] := bufs[b].(refcnt := bufs[b].refcnt + 1);
        lruList, threads := [b] + Remove(lruList, b), threads[t := Use(b, key, Waiting)];
        assert Snapshot() == AfterHit(c, t, b);
        return;
      }
      r := Replace(t, key);
    }

    /** The miss: the evicted buffer is given to the new block. */
    method Replace(t: nat, key: Key) returns (r: Option<nat>)
      requires Valid() && t !in threads && forall b: nat | Hashed(Snapshot(), b) :: bufs[b].key != key
      modifies this, bufs, hashTable
      ensures Valid() && disk == old(disk)
      ensures r.Some? ==> r.value < BCACHE_SIZE && Gotten(old(Snapshot()), t, key, r.value, Snapshot())
      ensures r.None? ==> Snapshot() == old(Snapshot()) && Exhausted(Snapshot(), key)
      ensures r.Some? ==> MovedToFront(old(lruList), r.value, lruList)
    {
      ghost var c := Snapshot();
      assert forall b: nat | Hashed(c, b) :: c.bufs[b].key != key;
      hide Inv, Hashed;
      Basics(c);
      r := Evict();
      if r.None? {
        return;
      }
      var b := r.value;
      MissGotten(c, t, key, b);
      FrontMoved(lruList, b);
      hide Gotten, Victim, Exhausted, HashOf, Remove, MovedToFront;
      Install(t, key, b, c);
    }

    /** The evicted buffer, rewritten for its new block and put into the index and at the head of the LRU list. */
    method Install(t: nat, key: Key, b: nat, ghost c: Cache)
      requires Sizes(c) && Sizes(Snapshot()) && bufs as object != hashTable && b < BCACHE_SIZE
      requires var v := c.bufs[b];
               && bufs[..] == c.bufs[b := v.(dirty := false, valid := false)]
               && hashTable[..] == c.buckets[HashOf(v.key) := Remove(c.buckets[HashOf(v.key)], b)]
               && lruList == c.lru && threads == c.threads && disk == c.disk
      modifies this, bufs, hashTable
      ensures Snapshot() == AfterMiss(c, t, key, b)
    {
      hide HashOf, Remove;
      bufs[b] := bufs[b].(key := key, refcnt := 1, valid := false, dirty := false);
      hashTable[HashOf(key)] := [b] + hashTable[HashOf(key)];
      lruList, threads := [b] + Remove(lruList, b), threads[t := Use(b, key, Waiting)];
      assert bufs[..] == AfterMiss(c, t, key, b).bufs && hashTable[..] == AfterMiss(c, t, key, b).buckets;
    }

    // ----- steps on the thread's own buffer

    /** The end of `bcache_get`: entering the buffer's lock, once it is free. */
    method Lock(t: nat, b: nat)
      requires Valid() && t in threads && threads[t].phase.Waiting? && threads[t].buf == b && b < BCACHE_SIZE
      requires bufs[b].holder == None
      modifies this`threads, bufs
      ensures Valid() && Snapshot() == AfterLock(old(Snapshot()), t)
    {
      LockKeeps(Snapshot(), t);
      bufs[b] := bufs[b].(holder := Some(t));
      threads := SetPhase(threads, t, Holding(false));
    }

    /** The rest of `bread`: afterwards the buffer shows what the disk holds for the requested block. */
    method Fill(t: nat, b: nat, key: Key)
      requires Valid() && t in threads && threads[t] == Use(b, key, Holding(false)) && b < BCACHE_SIZE
      modifies bufs
      ensures Valid() && Snapshot() == AfterFill(old(Snapshot()), t)
      ensures bufs[b].valid && bufs[b].key == key && bufs[b].data == OnDisk(disk, key)
    {
      ghost var c := Snapshot();
      FillKeeps(c, t);
      Basics(c);
      hide Inv, Hashed, OnDisk;
      if !bufs[b].valid {
        bufs[b] := bufs[b].(data := OnDisk(disk, key), valid := true);
      }
      assert threads == SetPhase(threads, t, threads[t].phase);
      assert Snapshot() == AfterFill(c, t);
    }

    /** The holder writes into `b->data`. */
    method Modify(t: nat, b: nat, data: Block)
      requires Valid() && t in threads && threads[t].phase.Holding? && threads[t].buf == b && b < BCACHE_SIZE
      requires bufs[b].valid
      modifies this`threads, bufs
      ensures Valid() && Snapshot() == AfterModify(old(Snapshot()), t, data)
    {
      ModifyKeeps(Snapshot(), t, data);
      bufs[b] := bufs[b].(data := data);
      threads := SetPhase(threads, t, Holding(true));
    }

    /** `bwrite`. */
    method Write(t: nat, b: nat)
      requires Valid() && t in threads && threads[t].phase.Holding? && threads[t].buf == b && b < BCACHE_SIZE
      modifies this, bufs
      ensures Valid() && Snapshot() == AfterWrite(old(Snapshot()), t)
    {
      ghost var c := Snapshot();
      WriteKeeps(c, t);
      if !bufs[b].valid {
        return;
      }
      bufs[b] := bufs[b].(dirty := true);
      disk := disk[bufs[b].key := bufs[b].data];
      bufs[b] := bufs[b].(dirty := false);
      threads := SetPhase(threads, t, Holding(false));
      assert Snapshot() == AfterWrite(c, t);
    }

    /** `brelse` up to the buffer's unlock; changes must have been written. */
    method Unlock(t: nat, b: nat)
      requires Valid() && t in threads && threads[t].phase == Holding(false) && threads[t].buf == b && b < BCACHE_SIZE
      modifies this`threads, bufs
      ensures Valid() && Snapshot() == AfterUnlock(old(Snapshot()), t)
    {
      UnlockKeeps(Snapshot(), t);
      bufs[b] := bufs[b].(holder := None);
      threads := SetPhase(threads, t, Leaving);
    }

    /** The rest of `brelse`, inside the cache lock. */
    method Drop(t: nat, b: nat)
      requires Valid() && t in threads && threads[t].phase.Leaving? && threads[t].buf == b && b < BCACHE_SIZE
      modifies this, bufs
      ensures Valid() && old(bufs[b]).refcnt > 0 && Snapshot() == AfterDrop(old(Snapshot()), t)
      ensures old(bufs[b]).refcnt > 1 ==> lruList == old(lruList)
      ensures old(bufs[b]).refcnt == 1 ==> MovedToTail(old(lruList), b, lruList)
    {
      ghost var c := Snapshot();
      DropKeeps(c, t);
      Basics(c);
      TailMoved(lruList, b);
      hide MovedToTail, Remove;
      bufs[b] := bufs[b].(refcnt := bufs[b].refcnt - 1);
      if bufs[b].refcnt == 0 {
        lruList := Remove(lruList, b);
        lruList := lruList + [b];
      }
      threads := threads - {t};
      assert Snapshot() == AfterDrop(c, t);
    }
  }

  lemma HitGotten(c: Cache, t: nat, k: Key, b: nat)
    requires Inv(c) && t !in c.threads && Hit(c, k, b)
    ensures Sizes(c) && b < BCACHE_SIZE && Inv(AfterHit(c, t, b)) && Gotten(c, t, k, b, AfterHit(c, t, b))
    ensures b in c.lru
  {
    HitKeeps(c, t, b);
  }

  lemma MissGotten(c: Cache, t: nat, k: Key, b: nat)
    requires Inv(c) && t !in c.threads && b < BCACHE_SIZE && (exists i: nat :: Victim(c, i) && c.lru[i] == b)
    requires forall x: nat | Hashed(c, x) :: c.bufs[x].key != k
    ensures Inv(AfterMiss(c, t, k, b)) && Gotten(c, t, k, b, AfterMiss(c, t, k, b))
  {
    MissKeeps(c, t, k, b);
  }

  lemma Basics(c: Cache)
    requires Inv(c)
    ensures Sizes(c) && (forall b: nat :: b in c.lru <==> b < BCACHE_SIZE)
    ensures forall b: nat | b < BCACHE_SIZE :: !c.bufs[b].dirty
  {
    forall b: nat | b < BCACHE_SIZE
      ensures !c.bufs[b].dirty
    {
      assert Agrees(c, b);
    }
  }
}
