/**
 The driver's virtqueue code on its memory: the descriptor table with its intrusive free
 list, the two rings with 16-bit indices, and the token table; plus the device's side of
 the rings as two nondeterministic steps.  Every method performs one protocol step.
 */
module Virtq {
  import opened Bits
  import opened LinkedLists
  import opened VirtqProtocol

  const VIRTQ_SIZE: nat := 32
  const U16: nat := 65536

  /** `struct virtq_desc`, with the two flag bits the driver uses. */
  datatype Desc = Desc(addr: nat, len: nat, nextFlag: bool, writeFlag: bool, next: nat)

  datatype Buf = Buf(addr: nat, len: nat)

  datatype UsedElem = UsedElem(id: nat, len: nat)

  /** The chain contents of a request: device-readable buffers, then device-writable ones. */
  function Segs(inBufs: seq<Buf>, outBufs: seq<Buf>): (s: seq<Seg>)
    ensures |s| == |inBufs| + |outBufs|
  {
    seq(|inBufs| + |outBufs|, i requires 0 <= i < |inBufs| + |outBufs| =>
      if i < |inBufs| then Seg(inBufs[i].addr, inBufs[i].len, false)
      else Seg(outBufs[i - |inBufs|].addr, outBufs[i - |inBufs|].len, true))
  }

  // ----- how memory represents the protocol state

  /** The free list: its links start at `head` and follow `next`. */
  ghost predicate FreeLinked(descs: seq<Desc>, head: nat, free: seq<nat>) {
    && (free != [] ==> head == free[0])
    && (forall i | 0 <= i < |free| :: free[i] < |descs|)
    && (forall i | 0 <= i < |free| - 1 :: descs[free[i]].next == free[i + 1])
  }

  /** The i-th descriptor of a request's chain. */
  function Link(r: Req, i: nat): Desc
    requires |r.chain| == |r.segs| && i < |r.chain|
  {
    var more := i + 1 < |r.chain|;
    Desc(r.segs[i].addr, r.segs[i].len, more, r.segs[i].write, if more then r.chain[i + 1] else 0)
  }

  ghost predicate Written(descs: seq<Desc>, data: seq<nat>, r: Req) {
    && WellFormed(r)
    && (forall i | 0 <= i < |r.chain| :: r.chain[i] < |descs|)
    && (forall i {:trigger Link(r, i)} | 0 <= i < |r.chain| :: descs[r.chain[i]] == Link(r, i))
    && r.chain[0] < |data| && data[r.chain[0]] == r.token
  }

  function Slot(count: nat, n: nat): (s: nat)
    requires 0 < n
    ensures s < n
  {
    count % n
  }

  /** Ring entries number start, start+1, ... hold the given values. */
  ghost predicate RingHolds<T>(ring: seq<T>, start: nat, values: seq<T>)
    requires |ring| > 0
  {
    |values| <= |ring| && forall i | 0 <= i < |values| :: ring[Slot(start + i, |ring|)] == values[i]
  }

  function Heads(rs: seq<Req>): (h: seq<nat>)
    requires forall r | r in rs :: r.chain != []
    ensures |h| == |rs|
  {
    seq(|rs|, i requires 0 <= i < |rs| => rs[i].chain[0])
  }

  function Elems(us: seq<Used>): (h: seq<UsedElem>)
    requires forall u | u in us :: u.req.chain != []
    ensures |h| == |us|
  {
    seq(|us|, i requires 0 <= i < |us| => UsedElem(us[i].req.chain[0], us[i].len))
  }

  // ----- rings with wrapping indices

  /** Distinct entries of a window no longer than the ring sit in distinct slots. */
  lemma DistinctSlots(n: nat, start: nat, i: nat, j: nat)
    requires 0 < n && i < j < i + n
    ensures Slot(start + i, n) != Slot(start + j, n)
  {
    var a, b := start + i, start + j;
    if a % n == b % n {
      assert b - a == (b / n - a / n) * n;
      var k := b / n - a / n;
      if k <= 0 {
        NotPositive(k, n);
      } else {
        AtLeast(k, n);
      }
      assert false;
    }
  }

  lemma NotPositive(k: int, n: nat)
    requires k <= 0
    ensures k * n <= 0
  {
  }

  lemma AtLeast(k: int, n: nat)
    requires k >= 1
    ensures k * n >= n
  {
  }

  /** Appending at the back of a window that is not full overwrites no entry of it. */
  lemma RingPush<T>(ring: seq<T>, start: nat, values: seq<T>, v: T)
    requires 0 < |ring| && RingHolds(ring, start, values) && |values| < |ring|
    ensures RingHolds(ring[Slot(start + |values|, |ring|) := v], start, values + [v])
  {
    var ring', vs := ring[Slot(start + |values|, |ring|) := v], values + [v];
    forall i | 0 <= i < |vs|
      ensures ring'[Slot(start + i, |ring|)] == vs[i]
    {
      if i < |values| {
        DistinctSlots(|ring|, start, i, |values|);
        assert ring[Slot(start + i, |ring|)] == values[i];
      }
    }
  }

  lemma RingPop<T>(ring: seq<T>, start: nat, values: seq<T>)
    requires 0 < |ring| && RingHolds(ring, start, values) && values != []
    ensures ring[Slot(start, |ring|)] == values[0] && RingHolds(ring, start + 1, values[1..])
  {
    assert ring[Slot(start + 0, |ring|)] == values[0];
    forall i | 0 <= i < |values[1..]|
      ensures ring[Slot(start + 1 + i, |ring|)] == values[1..][i]
    {
      assert ring[Slot(start + (i + 1), |ring|)] == values[i + 1];
    }
  }

  /** Two unread entries of a window, found through wrapped 16-bit indices, share a slot. */
  predicate Collide(n: nat, start: nat, i: nat, j: nat)
    requires 0 < n
  {
    i < j < n && Slot((start + i) % U16, n) == Slot((start + j) % U16, n)
  }

  /**
   With 16-bit indices, no window that the ring could hold ever has two entries in one slot
   exactly when the ring size divides 2^16.
   */
  lemma WrapKeepsApart(n: nat)
    requires 0 < n <= U16
    ensures (forall start: nat, i: nat, j: nat :: !Collide(n, start, i, j)) <==> U16 % n == 0
  {
    if U16 % n == 0 {
      forall start: nat, i: nat, j: nat
        ensures !Collide(n, start, i, j)
      {
        if i < j < n {
          WrapOne(n, start + i);
          WrapOne(n, start + j);
          DistinctSlots(n, start, i, j);
        }
      }
    } else {
      var q, j := U16 / n, U16 % n;
      assert U16 - 1 == q * n + (j - 1);
      DivModUnique(U16 - 1, n, q, j - 1);
      DivModUnique(j - 1, n, 0, j - 1);
      assert (U16 - 1 + 0) % U16 == U16 - 1 && (U16 - 1 + j) % U16 == j - 1;
      assert Collide(n, U16 - 1, 0, j);
    }
  }

  /** In a queue of size 3 the entries with indices 65535 and 0 share slot 0. */
  lemma ThreeCollides()
    ensures Collide(3, U16 - 1, 0, 1) && Slot(U16 - 1, 3) == 0
  {
  }

  lemma WrapOne(n: nat, c: nat)
    requires 0 < n && U16 % n == 0
    ensures Slot(c % U16, n) == Slot(c, n)
  {
    var m, k, r := U16 / n, c / U16, c % U16;
    assert U16 == m * n;
    assert c == k * (m * n) + r;
    assert k * (m * n) == (k * m) * n;
    ModShift(k * m, n, r);
  }

  lemma ModShift(k: nat, n: nat, r: nat)
    requires 0 < n
    ensures (k * n + r) % n == r % n
  {
    var q, s := r / n, r % n;
    assert r == q * n + s;
    assert k * n + r == (k + q) * n + s;
    DivModUnique(k * n + r, n, k + q, s);
  }

  // ----- frames

  lemma WrittenElsewhere(descs: seq<Desc>, data: seq<nat>, descs': seq<Desc>, data': seq<nat>, r: Req,
                         touched: seq<nat>)
    requires Written(descs, data, r) && |descs'| == |descs| && |data'| == |data|
    requires Disjoint(r.chain, touched)
    requires forall d: nat | d < |descs| && d !in touched :: descs'[d] == descs[d]
    requires forall d: nat | d < |data| && d !in touched :: data'[d] == data[d]
    ensures Written(descs', data', r)
  {
    assert r.chain[0] in r.chain;
  }

  lemma IndicesDiffer(a: nat, b: nat)
    requires a <= b < a + U16
    ensures a % U16 == b % U16 <==> a == b
  {
  }

  lemma WrapSucc(a: nat)
    ensures (a + 1) % U16 == (a % U16 + 1) % U16
  {
  }

  // ----- the whole memory

  /** A snapshot of the queue's memory and of both sides' indices. */
  datatype Mem = Mem(descs: seq<Desc>, avail: seq<nat>, used: seq<UsedElem>, data: seq<nat>,
                     freeHead: nat, numFree: nat,
                     availIdx: nat, availRingIdx: nat, usedIdx: nat, usedRingIdx: nat, deviceAvail: nat)

  ghost predicate Shape(num: nat, m: Mem) {
    && 1 <= num <= VIRTQ_SIZE && U16 % num == 0
    && |m.descs| == |m.avail| == |m.used| == num && |m.data| == VIRTQ_SIZE
  }

  /** Descriptor table and token table hold the free list and every outstanding request. */
  ghost predicate Lists(m: Mem, q: Queue) {
    && m.numFree == |q.free| && FreeLinked(m.descs, m.freeHead, q.free)
    && (forall r | r in q.Outstanding() :: Written(m.descs, m.data, r))
  }

  ghost predicate Nonempty(q: Queue) {
    (forall r | r in q.posted :: r.chain != []) && (forall u | u in q.done :: u.req.chain != [])
  }

  /** The rings hold the unread entries of both directions; the indices are the running counts modulo 2^16. */
  ghost predicate Rings(m: Mem, q: Queue) {
    && |m.avail| > 0 && |m.used| > 0 && Nonempty(q) && |q.posted| <= |q.log|
    && m.availIdx == m.availRingIdx == q.Added() % U16
    && m.deviceAvail == q.Taken() % U16
    && m.usedRingIdx == q.Completed() % U16
    && m.usedIdx == q.Reaped() % U16
    && RingHolds(m.avail, q.Taken(), Heads(q.posted))
    && RingHolds(m.used, q.Reaped(), Elems(q.done))
  }

  ghost predicate Represents(num: nat, m: Mem, q: Queue) {
    Shape(num, m) && Inv(num, q) && Lists(m, q) && Rings(m, q)
  }

  lemma InitialLinks(num: nat, descs: seq<Desc>)
    requires |descs| == num
    requires forall k: nat | k + 1 < num :: descs[k].next == (k + 1) % num
    ensures FreeLinked(descs, 0, InitialQueue(num).free)
  {
    var free := InitialQueue(num).free;
    assert |free| == num && forall i | 0 <= i < num :: free[i] == i;
    hide InitialQueue;
    forall i | 0 <= i < |free| - 1
      ensures descs[free[i]].next == free[i + 1]
    {
      SmallRemainder(i + 1, num);
      assert descs[i].next == (i + 1) % num;
    }
  }

  lemma SmallRemainder(k: nat, n: nat)
    requires k < n
    ensures k % n == k
  {
    DivModUnique(k, n, 0, k);
  }

  lemma InitialFree(num: nat)
    ensures var q := InitialQueue(num);
            && |q.free| == num && (forall i: nat | i < num :: q.free[i] == i) && q.log == [] && q.Outstanding() == []
  {
  }

  lemma InitialRepresents(num: nat, m: Mem)
    requires Shape(num, m)
    requires forall k: nat | k + 1 < num :: m.descs[k].next == (k + 1) % num
    requires m.freeHead == 0 && m.numFree == num
    requires m.availIdx == m.availRingIdx == m.usedIdx == m.usedRingIdx == m.deviceAvail == 0
    ensures Represents(num, m, InitialQueue(num))
  {
    InitialInv(num);
    InitialLinks(num, m.descs);
  }

  /** Comparing 16-bit indices is a sound emptiness test: neither ring ever runs 2^16 entries ahead. */
  lemma EmptyTests(num: nat, m: Mem, q: Queue)
    requires Represents(num, m, q)
    ensures Shape(num, m)
    ensures m.deviceAvail == m.availRingIdx <==> q.posted == []
    ensures m.usedIdx == m.usedRingIdx <==> q.done == []
  {
    DescriptorCount(num, q);
    IndicesDiffer(q.Taken(), q.Added());
    IndicesDiffer(q.Reaped(), q.Completed());
  }

  // ----- device steps keep the representation

  function AfterTake(q: Queue): Queue
    requires q.posted != []
  {
    q.(posted := q.posted[1..], held := q.held + [q.posted[0]])
  }

  lemma TakeRings(num: nat, m: Mem, q: Queue)
    requires Rings(m, q) && q.posted != [] && |m.avail| == num && U16 % num == 0
    ensures m.avail[m.deviceAvail % num] == q.posted[0].chain[0]
    ensures Rings(m.(deviceAvail := (m.deviceAvail + 1) % U16), AfterTake(q))
  {
    WrapOne(num, q.Taken());
    RingPop(m.avail, q.Taken(), Heads(q.posted));
    WrapSucc(q.Taken());
    assert Heads(q.posted[1..]) == Heads(q.posted)[1..];
  }

  lemma TakeRepresents(num: nat, m: Mem, q: Queue)
    requires Represents(num, m, q) && q.posted != []
    ensures m.avail[m.deviceAvail % num] == q.posted[0].chain[0]
    ensures Represents(num, m.(deviceAvail := (m.deviceAvail + 1) % U16), AfterTake(q))
    ensures Step(q, Take, AfterTake(q))
  {
    hide Inv, Lists, Rings, AfterTake;
    TakeRings(num, m, q);
    TakeLists(m, q);
    TakeStep(q);
    StepKeeps(num, q, Take, AfterTake(q));
  }

  lemma TakeStep(q: Queue)
    requires q.posted != []
    ensures Step(q, Take, AfterTake(q))
  {
  }

  lemma TakeLists(m: Mem, q: Queue)
    requires Lists(m, q) && q.posted != []
    ensures Lists(m.(deviceAvail := (m.deviceAvail + 1) % U16), AfterTake(q))
  {
    assert q.posted[0] in q.posted;
    assert forall r | r in AfterTake(q).Outstanding() :: r in q.Outstanding();
    hide FreeLinked, Written;
  }

  function AfterComplete(q: Queue, i: nat, len: nat): Queue
    requires i < |q.held|
  {
    q.(held := q.held[..i] + q.held[i + 1..], done := q.done + [Used(q.held[i], len)])
  }

  function CompletedMem(m: Mem, head: nat, len: nat): Mem
    requires |m.used| > 0
  {
    m.(used := m.used[m.usedRingIdx % |m.used| := UsedElem(head, len)], usedRingIdx := (m.usedRingIdx + 1) % U16)
  }

  lemma CompleteRings(num: nat, m: Mem, q: Queue, i: nat, len: nat)
    requires Rings(m, q) && i < |q.held| && q.held[i].chain != [] && |m.used| == num && U16 % num == 0
    requires |q.done| < num
    ensures Rings(CompletedMem(m, q.held[i].chain[0], len), AfterComplete(q, i, len))
  {
    var v := UsedElem(q.held[i].chain[0], len);
    WrapOne(num, q.Completed());
    RingPush(m.used, q.Reaped(), Elems(q.done), v);
    WrapSucc(q.Completed());
    assert Elems(AfterComplete(q, i, len).done) == Elems(q.done) + [v];
  }

  lemma CompleteRepresents(num: nat, m: Mem, q: Queue, i: nat, len: nat)
    requires Represents(num, m, q) && i < |q.held|
    ensures q.held[i].chain != [] && Step(q, Complete(i, len), AfterComplete(q, i, len))
    ensures Represents(num, CompletedMem(m, q.held[i].chain[0], len), AfterComplete(q, i, len))
  {
    hide Inv, Lists, Rings, AfterComplete, CompletedMem;
    HeldChain(num, q, i);
    CompleteLists(m, q, i, len);
    CompleteRings(num, m, q, i, len);
    CompleteShape(num, m, q.held[i].chain[0], len);
    StepKeeps(num, q, Complete(i, len), AfterComplete(q, i, len));
  }

  lemma HeldChain(num: nat, q: Queue, i: nat)
    requires Inv(num, q) && i < |q.held|
    ensures q.held[i].chain != [] && |q.done| < num
    ensures forall len: nat :: Step(q, Complete(i, len), AfterComplete(q, i, len))
  {
    assert q.held[i] in q.held && q.held[i] in q.Outstanding();
    hide Inv;
    OutstandingWellFormed(num, q, q.held[i]);
    DescriptorCount(num, q);
  }

  lemma CompleteShape(num: nat, m: Mem, head: nat, len: nat)
    requires Shape(num, m)
    ensures Shape(num, CompletedMem(m, head, len))
  {
  }

  lemma CompleteLists(m: Mem, q: Queue, i: nat, len: nat)
    requires Lists(m, q) && i < |q.held| && q.held[i].chain != [] && |m.used| > 0
    ensures Lists(CompletedMem(m, q.held[i].chain[0], len), AfterComplete(q, i, len))
  {
    CompleteMembers(q, i, len);
    hide FreeLinked, Written;
  }

  lemma CompleteMembers(q: Queue, i: nat, len: nat)
    requires i < |q.held|
    ensures forall r | r in AfterComplete(q, i, len).Outstanding() :: r in q.Outstanding()
  {
    var q' := AfterComplete(q, i, len);
    assert Reqs(q'.done) == Reqs(q.done) + [q.held[i]];
    forall r | r in q'.Outstanding()
      ensures r in q.Outstanding()
    {
      assert r in q.posted || r in q.held || r in Reqs(q.done);
    }
  }

  // ----- driver steps keep the representation

  function AfterAdd(q: Queue, segs: seq<Seg>, token: nat): Queue
    requires |segs| <= |q.free|
  {
    var r := NewReq(q, segs, token);
    q.(free := q.free[|segs|..], posted := q.posted + [r], log := q.log + [r])
  }

  /** The chain of `r` is written; every other descriptor is as before. */
  ghost predicate Chained(base: seq<Desc>, descs: seq<Desc>, r: Req)
    requires |r.chain| == |r.segs|
  {
    && |descs| == |base|
    && (forall i | 0 <= i < |r.chain| :: r.chain[i] < |base|)
    && (forall i {:trigger Link(r, i)} | 0 <= i < |r.chain| :: descs[r.chain[i]] == Link(r, i))
    && (forall d: nat | d < |base| && d !in r.chain :: descs[d] == base[d])
  }

  /** What `virtq_add_buf` leaves in memory for the request built from the first free descriptors. */
  ghost predicate AddedMem(m: Mem, q: Queue, segs: seq<Seg>, token: nat, m': Mem)
    requires 1 <= |segs| <= |q.free|
  {
    var n, r := |segs|, NewReq(q, segs, token);
    && r.chain == q.free[..n] && 0 < |m.avail|
    && Chained(m.descs, m'.descs, r)
    && r.chain[0] < |m.data| && m'.data == m.data[r.chain[0] := token]
    && m'.numFree == |q.free| - n && (n < |q.free| ==> m'.freeHead == q.free[n])
    && m'.avail == m.avail[m.availIdx % |m.avail| := r.chain[0]]
    && m'.availIdx == m'.availRingIdx == (m.availIdx + 1) % U16
    && m'.used == m.used && m'.usedIdx == m.usedIdx && m'.usedRingIdx == m.usedRingIdx
    && m'.deviceAvail == m.deviceAvail
  }

  lemma AddRings(num: nat, m: Mem, q: Queue, segs: seq<Seg>, token: nat, m': Mem)
    requires Rings(m, q) && |m.avail| == num && U16 % num == 0 && |q.posted| < num
    requires 1 <= |segs| <= |q.free| && AddedMem(m, q, segs, token, m')
    ensures Rings(m', AfterAdd(q, segs, token))
  {
    var r := NewReq(q, segs, token);
    WrapOne(num, q.Added());
    WrapSucc(q.Added());
    RingPush(m.avail, q.Taken(), Heads(q.posted), r.chain[0]);
    assert Heads(q.posted + [r]) == Heads(q.posted) + [r.chain[0]];
  }

  lemma AddMembers(q: Queue, segs: seq<Seg>, token: nat)
    requires |segs| <= |q.free|
    ensures forall r | r in AfterAdd(q, segs, token).Outstanding() ::
              r in q.Outstanding() || r == NewReq(q, segs, token)
  {
    forall r | r in AfterAdd(q, segs, token).Outstanding()
      ensures r in q.Outstanding() || r == NewReq(q, segs, token)
    {
      assert r in q.posted + [NewReq(q, segs, token)] || r in q.held || r in Reqs(q.done);
    }
  }

  lemma AddLists(num: nat, m: Mem, q: Queue, segs: seq<Seg>, token: nat, m': Mem)
    requires Inv(num, q) && Lists(m, q)
    requires 1 <= |segs| <= |q.free| && AddedMem(m, q, segs, token, m')
    ensures Lists(m', AfterAdd(q, segs, token))
  {
    hide Inv;
    var n, r, free := |segs|, NewReq(q, segs, token), q.free;
    FreeListSound(num, q);
    forall i | n <= i < |free|
      ensures free[i] !in r.chain
    {
    }
    AddMembers(q, segs, token);
    forall o | o in q.Outstanding()
      ensures Written(m'.descs, m'.data, o)
    {
      var i :| 0 <= i < |q.Outstanding()| && q.Outstanding()[i] == o;
      ChainSound(num, q, i);
      WrittenElsewhere(m.descs, m.data, m'.descs, m'.data, o, r.chain);
    }
  }

  lemma AddRepresents(num: nat, m: Mem, q: Queue, segs: seq<Seg>, token: nat, m': Mem)
    requires Represents(num, m, q)
    requires 1 <= |segs| <= |q.free| && AddedMem(m, q, segs, token, m')
    ensures Represents(num, m', AfterAdd(q, segs, token))
    ensures Step(q, Add(segs, token), AfterAdd(q, segs, token))
  {
    DescriptorCount(num, q);
    AddRings(num, m, q, segs, token, m');
    AddLists(num, m, q, segs, token, m');
    StepKeeps(num, q, Add(segs, token), AfterAdd(q, segs, token));
  }

  function AfterGet(q: Queue): Queue
    requires q.done != []
  {
    q.(free := Reverse(q.done[0].req.chain) + q.free, done := q.done[1..], returned := q.returned + [q.done[0].req])
  }

  /** The i-th descriptor of a chain once it is back on the free list. */
  function Freed(head: nat, chain: seq<nat>, i: nat): Desc
    requires i < |chain|
  {
    Desc(0, 0, true, false, if i == 0 then head else chain[i - 1])
  }

  /** The descriptors of `chain[..k]` pushed one by one onto the free list that started at `head`. */
  ghost predicate Pushed(descs: seq<Desc>, descs': seq<Desc>, head: nat, chain: seq<nat>, k: nat)
    requires k <= |chain|
  {
    && |descs'| == |descs|
    && (forall i | 0 <= i < k :: chain[i] < |descs|)
    && (forall i {:trigger Freed(head, chain, i)} | 0 <= i < k :: descs'[chain[i]] == Freed(head, chain, i))
    && (forall d: nat | d < |descs| && d !in chain[..k] :: descs'[d] == descs[d])
  }

  lemma {:induction false} ReverseAt<T>(s: seq<T>, i: nat)
    requires i < |s|
    ensures Reverse(s)[i] == s[|s| - 1 - i]
  {
    if i < |s| - 1 {
      ReverseAt(s[1..], i);
    }
  }

  lemma PushedLinked(descs: seq<Desc>, descs': seq<Desc>, head: nat, free: seq<nat>, chain: seq<nat>)
    requires FreeLinked(descs, head, free) && Pushed(descs, descs', head, chain, |chain|)
    requires chain != [] && Disjoint(chain, free)
    ensures FreeLinked(descs', chain[|chain| - 1], Reverse(chain) + free)
  {
    var all: seq<nat> := Reverse(chain) + free;
    forall i | 0 <= i < |all|
      ensures all[i] < |descs'|
    {
      PushedLinkAt(descs, descs', head, free, chain, i);
    }
    forall i | 0 <= i < |all| - 1
      ensures descs'[all[i]].next == all[i + 1]
    {
      PushedLinkAt(descs, descs', head, free, chain, i);
    }
    ReverseAt(chain, 0);
  }

  lemma PushedLinkAt(descs: seq<Desc>, descs': seq<Desc>, head: nat, free: seq<nat>, chain: seq<nat>, i: nat)
    requires FreeLinked(descs, head, free) && Pushed(descs, descs', head, chain, |chain|)
    requires chain != [] && Disjoint(chain, free)
    requires i < |Reverse(chain) + free|
    ensures var all: seq<nat> := Reverse(chain) + free;
            all[i] < |descs'| && (i + 1 < |all| ==> descs'[all[i]].next == all[i + 1])
  {
    var n, all: seq<nat> := |chain|, Reverse(chain) + free;
    if i < n {
      hide FreeLinked, Disjoint;
      var j := n - 1 - i;
      ReverseAt(chain, i);
      assert all[i] == chain[j] && chain[j] < |descs| && descs'[chain[j]] == Freed(head, chain, j);
      if j > 0 {
        ReverseAt(chain, i + 1);
        assert all[i + 1] == chain[j - 1];
      } else if free != [] {
        FirstFree(descs, head, free);
        assert all[i + 1] == free[0];
      }
    } else {
      UntouchedFree(descs, descs', head, free, chain, i - n);
      assert all[i] == free[i - n];
    }
  }

  lemma FirstFree(descs: seq<Desc>, head: nat, free: seq<nat>)
    requires FreeLinked(descs, head, free) && free != []
    ensures head == free[0]
  {
  }

  lemma UntouchedFree(descs: seq<Desc>, descs': seq<Desc>, head: nat, free: seq<nat>, chain: seq<nat>, i: nat)
    requires FreeLinked(descs, head, free) && Pushed(descs, descs', head, chain, |chain|)
    requires Disjoint(chain, free) && i < |free|
    ensures free[i] < |descs'| && (i + 1 < |free| ==> descs'[free[i]].next == free[i + 1])
  {
    assert chain[..|chain|] == chain;
    assert free[i] in free;
  }

  /** What `virtq_get_buf` leaves in memory after reaping the oldest used entry. */
  ghost predicate GottenMem(m: Mem, q: Queue, m': Mem)
    requires q.done != [] && q.done[0].req.chain != []
  {
    var chain := q.done[0].req.chain;
    && Pushed(m.descs, m'.descs, m.freeHead, chain, |chain|)
    && chain[0] < |m.data| && m'.data == m.data[chain[0] := 0]
    && m'.numFree == m.numFree + |chain| && m'.freeHead == chain[|chain| - 1]
    && m'.usedIdx == (m.usedIdx + 1) % U16
    && m'.avail == m.avail && m'.used == m.used && m'.usedRingIdx == m.usedRingIdx
    && m'.availIdx == m.availIdx && m'.availRingIdx == m.availRingIdx && m'.deviceAvail == m.deviceAvail
  }

  lemma GetRings(m: Mem, q: Queue, m': Mem)
    requires Rings(m, q) && q.done != [] && GottenMem(m, q, m')
    ensures Rings(m', AfterGet(q))
  {
    RingPop(m.used, q.Reaped(), Elems(q.done));
    WrapSucc(q.Reaped());
    assert Elems(q.done[1..]) == Elems(q.done)[1..];
  }

  /** The oldest finished request's place among the outstanding ones. */
  lemma DoneFirst(q: Queue)
    requires q.done != []
    ensures var i := |q.posted| + |q.held|;
            && i < |q.Outstanding()| && q.Outstanding()[i] == q.done[0].req
            && AfterGet(q).Outstanding() == q.Outstanding()[..i] + q.Outstanding()[i + 1..]
  {
    var i := |q.posted| + |q.held|;
    assert q.Outstanding()[..i] == q.posted + q.held;
    assert q.Outstanding()[i + 1..] == Reqs(q.done[1..]);
  }

  lemma GetLists(num: nat, m: Mem, q: Queue, m': Mem)
    requires Inv(num, q) && Lists(m, q) && q.done != [] && q.done[0].req.chain != [] && GottenMem(m, q, m')
    ensures Lists(m', AfterGet(q))
  {
    hide Inv;
    DoneFirst(q);
    var chain := q.done[0].req.chain;
    ChainSound(num, q, |q.posted| + |q.held|);
    PushedLinked(m.descs, m'.descs, m.freeHead, q.free, chain);
    assert chain[..|chain|] == chain;
    hide FreeLinked, Pushed;
    forall r | r in AfterGet(q).Outstanding()
      ensures Written(m'.descs, m'.data, r)
    {
      OtherChain(num, q, r);
      assert Written(m.descs, m.data, r);
      WrittenElsewhere(m.descs, m.data, m'.descs, m'.data, r, chain);
    }
  }

  /** A request that stays outstanding shares no descriptor with the one that is reaped. */
  lemma OtherChain(num: nat, q: Queue, r: Req)
    requires Inv(num, q) && q.done != [] && r in AfterGet(q).Outstanding()
    ensures r in q.Outstanding() && Disjoint(r.chain, q.done[0].req.chain)
  {
    hide Inv;
    DoneFirst(q);
    var k, all := |q.posted| + |q.held|, q.Outstanding();
    var i :| 0 <= i < |all| && i != k && all[i] == r;
    if i < k {
      ChainsDisjoint(num, q, i, k);
    } else {
      ChainsDisjoint(num, q, k, i);
    }
  }

  lemma GetRepresents(num: nat, m: Mem, q: Queue, m': Mem)
    requires Represents(num, m, q) && q.done != [] && q.done[0].req.chain != [] && GottenMem(m, q, m')
    ensures Represents(num, m', AfterGet(q)) && Step(q, Get, AfterGet(q))
  {
    GetRings(m, q, m');
    GetLists(num, m, q, m');
    StepKeeps(num, q, Get, AfterGet(q));
  }

  class VirtQueue {
    const num: nat
    const descs: array<Desc>
    const availRing: array<nat>
    const usedRing: array<UsedElem>
    const data: array<nat>
    var availRingIdx: nat
    var usedRingIdx: nat
    var freeHead: nat
    var numFree: nat
    var availIdx: nat
    var usedIdx: nat

    // the device: how far it has read the available ring
    var deviceAvail: nat

    // the protocol state this memory represents
    ghost var q: Queue

    ghost function Snapshot(): Mem
      reads this, descs, availRing, usedRing, data
    {
      Mem(descs[..], availRing[..], usedRing[..], data[..], freeHead, numFree,
          availIdx, availRingIdx, usedIdx, usedRingIdx, deviceAvail)
    }

    ghost predicate Valid()
      reads this, descs, availRing, usedRing, data
    {
      availRing as object != data && Represents(num, Snapshot(), q)
    }

    constructor (num: nat)
      requires 1 <= num <= VIRTQ_SIZE && U16 % num == 0
      ensures Valid() && this.num == num && q == InitialQueue(num)
      ensures |q.free| == num && (forall i: nat | i < num :: q.free[i] == i) && q.log == [] && q.Outstanding() == []
      ensures fresh(descs) && fresh(availRing) && fresh(usedRing) && fresh(data)
    {
      this.num := num;
      numFree, freeHead, availIdx, usedIdx := num, 0, 0, 0;
      data := new nat[VIRTQ_SIZE](_ => 0);
      descs := new Desc[num](_ => Desc(0, 0, false, false, 0));
      availRing := new nat[num](_ => 0);
      usedRing := new UsedElem[num](_ => UsedElem(0, 0));
      availRingIdx, usedRingIdx, deviceAvail := 0, 0, 0;
      q := InitialQueue(num);
      new;
      InitialFree(num);
      hide InitialQueue, Represents;
      for i := 0 to num
        invariant forall k | 0 <= k < i :: descs[k] == Desc(0, 0, true, false, (k + 1) % num)
        invariant q == InitialQueue(num) && numFree == num && freeHead == 0
        invariant availIdx == usedIdx == availRingIdx == usedRingIdx == deviceAvail == 0
      {
        descs[i] := Desc(0, 0, true, false, (i + 1) % num);
      }
      descs[num - 1] := descs[num - 1].(nextFlag := false);
      descs[num - 1] := descs[num - 1].(next := 0);
      InitialRepresents(num, Snapshot());
    }

    /** `virtq_desc_count`: the descriptors held by outstanding requests. */
    method DescCount() returns (count: nat)
      requires Valid()
      ensures count == TotalLength(q.Outstanding())
    {
      DescriptorCount(num, q);
      count := num - numFree;
    }

    /** `virtq_has_buf` compares indices modulo 2^16 only, and is right all the same. */
    method HasBuf() returns (b: bool)
      requires Valid()
      ensures b <==> q.done != []
    {
      EmptyTests(num, Snapshot(), q);
      b := usedIdx != usedRingIdx;
    }

    // ----- device steps

    /** The device reads the next available entry, if any, and holds that chain. */
    method DeviceTake() returns (head: nat, taken: bool)
      requires Valid()
      modifies this
      ensures Valid() && taken == (old(q.posted) != [])
      ensures if taken then Step(old(q), Take, q) && head == old(q.posted)[0].chain[0] else q == old(q)
    {
      hide Represents;
      ghost var m := Snapshot();
      EmptyTests(num, m, q);
      if deviceAvail == availRingIdx {
        return 0, false;
      }
      TakeRepresents(num, m, q);
      head, taken := availRing[deviceAvail % num], true;
      deviceAvail := (deviceAvail + 1) % U16;
      q := AfterTake(q);
      assert Snapshot() == m.(deviceAvail := (m.deviceAvail + 1) % U16);
    }

    /** The device finishes any chain it holds and publishes it in the used ring. */
    method DeviceComplete(ghost i: nat, head: nat, len: nat)
      requires Valid() && i < |q.held| && q.held[i].chain != [] && head == q.held[i].chain[0]
      modifies this, usedRing
      ensures Valid() && Step(old(q), Complete(i, len), q)
      ensures q.done == old(q.done) + [Used(old(q.held)[i], len)]
    {
      hide Represents;
      ghost var m := Snapshot();
      EmptyTests(num, m, q);
      CompleteRepresents(num, m, q, i, len);
      usedRing[usedRingIdx % num] := UsedElem(head, len);
      usedRingIdx := (usedRingIdx + 1) % U16;
      q := AfterComplete(q, i, len);
      assert Snapshot() == CompletedMem(m, head, len);
    }

    // ----- driver steps

    /** Unlinks the first free descriptor; 65535 when there is none. */
    method AllocDesc() returns (idx: nat)
      requires numFree > 0 ==> freeHead < descs.Length
      modifies this`freeHead, this`numFree
      ensures old(numFree) == 0 ==> idx == U16 - 1 && numFree == 0 && freeHead == old(freeHead)
      ensures old(numFree) > 0 ==>
                idx == old(freeHead) && numFree == old(numFree) - 1 && freeHead == descs[old(freeHead)].next
    {
      if numFree == 0 {
        return U16 - 1;
      }
      idx := freeHead;
      freeHead := descs[idx].next;
      numFree := numFree - 1;
    }

    /** Pushes a descriptor onto the free list. */
    method FreeDesc(idx: nat)
      requires idx < descs.Length
      modifies this`freeHead, this`numFree, descs
      ensures descs[..] == old(descs[..])[idx := Desc(0, 0, true, false, old(freeHead))]
      ensures freeHead == idx && numFree == old(numFree) + 1
    {
      descs[idx] := Desc(0, 0, true, false, freeHead);
      freeHead := idx;
      numFree := numFree + 1;
    }

    /** One round of the loops of `virtq_add_buf`: fill the descriptor and, unless it is the last, link a new one. */
    method AppendDesc(prev: nat, addr: nat, len: nat, write: bool, more: bool,
                      ghost m: Mem, ghost free: seq<nat>, ghost r: Req, ghost p: nat) returns (prev': nat)
      requires FreeLinked(m.descs, m.freeHead, free) && NoDup(free)
      requires |r.chain| == |r.segs| && |r.chain| <= |free| && r.chain == free[..|r.chain|]
      requires p < |r.chain| && more == (p + 1 < |r.chain|) && r.segs[p] == Seg(addr, len, write)
      requires Built(m.descs, descs[..], r, p) && prev == r.chain[p]
      requires numFree == |free| - (p + 1) && (p + 1 < |free| ==> freeHead == free[p + 1])
      modifies this`freeHead, this`numFree, descs
      ensures Built(m.descs, descs[..], r, p + 1) && prev' == r.chain[if more then p + 1 else p]
      ensures var a := if more then p + 2 else p + 1; numFree == |free| - a && (a < |free| ==> freeHead == free[a])
    {
      hide Built, FreeLinked;
      ghost var before := descs[..];
      BuiltNext(m.descs, before, m.freeHead, free, r, p);
      descs[prev] := descs[prev].(addr := addr, len := len, nextFlag := false, writeFlag := write);
      prev' := prev;
      if more {
        var next := AllocDesc();
        descs[prev] := descs[prev].(next := next);
        descs[prev] := descs[prev].(nextFlag := true);
        prev' := next;
      }
      assert descs[..] == before[prev := Partial(m.descs, r, p)];
      BuildStep(m.descs, before, r, p);
    }

    /** The loops of `virtq_add_buf`: readable buffers, then writable ones, then the end of the chain. */
    method FillChain(head: nat, inBufs: seq<Buf>, outBufs: seq<Buf>,
                     ghost m: Mem, ghost free: seq<nat>, ghost r: Req)
      requires r.segs == Segs(inBufs, outBufs) && 1 <= |r.segs| <= |free| && r.chain == free[..|r.segs|]
      requires FreeLinked(m.descs, m.freeHead, free) && NoDup(free) && NoDup(r.chain)
      requires Built(m.descs, descs[..], r, 0) && head == r.chain[0] && numFree == |free| - 1
      requires 1 < |free| ==> freeHead == free[1]
      modifies this`freeHead, this`numFree, descs
      ensures Chained(m.descs, descs[..], r)
      ensures numFree == |free| - |r.chain| && (|r.chain| < |free| ==> freeHead == free[|r.chain|])
    {
      hide Built, FreeLinked, NoDup;
      var prev := head;
      ghost var total := |inBufs| + |outBufs|;
      for i := 0 to |inBufs|
        invariant Built(m.descs, descs[..], r, i) && prev == r.chain[if i < total then i else i - 1]
        invariant var a := if i < total then i + 1 else i; numFree == |free| - a && (a < |free| ==> freeHead == free[a])
      {
        prev := AppendDesc(prev, inBufs[i].addr, inBufs[i].len, false, i < |inBufs| - 1 || |outBufs| > 0, m,
            free, r, i);
      }
      for i := 0 to |outBufs|
        invariant var p := |inBufs| + i;
                  && Built(m.descs, descs[..], r, p) && prev == r.chain[if p < total then p else p - 1]
                  && (var a := if p < total then p + 1 else p;
                      numFree == |free| - a && (a < |free| ==> freeHead == free[a]))
      {
        prev := AppendDesc(prev, outBufs[i].addr, outBufs[i].len, true, i < |outBufs| - 1, m, free, r, |inBufs| + i);
      }
      ghost var built := descs[..];
      FinishedChain(m.descs, built, r);
      descs[prev] := descs[prev].(nextFlag := false);
      descs[prev] := descs[prev].(next := 0);
      assert descs[..] == built[prev := built[prev].(nextFlag := false, next := 0)];
    }

    /**
     `virtq_add_buf`: refuses when too few descriptors are free, else posts one new request.  In
     memory its descriptors, the first free ones, are linked through `next`; the device may write
     the buffers of the second list and those alone.
     */
    method AddBuf(inBufs: seq<Buf>, outBufs: seq<Buf>, token: nat) returns (ret: int)
      requires Valid() && |inBufs| + |outBufs| >= 1
      modifies this, descs, data, availRing
      ensures Valid()
      ensures var segs := Segs(inBufs, outBufs);
              if |segs| > |old(q.free)|
              then ret == -1 && Step(old(q), Refuse(segs), q)
              else Step(old(q), Add(segs, token), q) && ret == old(q.free)[0]
      ensures var n := |inBufs| + |outBufs|;
              n <= |old(q.free)| ==>
                && data[old(q.free)[0]] == token && availRing[old(availIdx) % num] == old(q.free)[0]
                && q.log == old(q.log) + [q.log[|old(q.log)|]] && q.posted == old(q.posted) + [q.log[|old(q.log)|]]
                && q.log[|old(q.log)|].token == token && q.log[|old(q.log)|].chain == old(q.free)[..n]
                && forall i: nat | i < n ::
                     && old(q.free)[i] < num
                     && var d := descs[old(q.free)[i]];
                     && (i < |inBufs| ==> d.addr == inBufs[i].addr && d.len == inBufs[i].len && !d.writeFlag)
                     && (i >= |inBufs| ==>
                           && var b := outBufs[i - |inBufs|];
                           && d.addr == b.addr && d.len == b.len && d.writeFlag)
                     && (if i + 1 < n then d.nextFlag && d.next == old(q.free)[i + 1] else !d.nextFlag)
    {
      hide Represents, Step;
      ret := PostRequest(inBufs, outBufs, token);
    }

    /** `virtq_add_buf` with the request it posts. */
    method PostRequest(inBufs: seq<Buf>, outBufs: seq<Buf>, token: nat) returns (ret: int)
      requires Valid() && |inBufs| + |outBufs| >= 1
      modifies this, descs, data, availRing
      ensures Valid()
      ensures var segs := Segs(inBufs, outBufs);
              if |segs| > |old(q.free)|
              then ret == -1 && Step(old(q), Refuse(segs), q)
              else Step(old(q), Add(segs, token), q) && ret == old(q.free)[0]
      ensures var n := |inBufs| + |outBufs|;
              n <= |old(q.free)| ==>
                && data[old(q.free)[0]] == token && availRing[old(availIdx) % num] == old(q.free)[0]
                && q.log == old(q.log) + [q.log[|old(q.log)|]] && q.posted == old(q.posted) + [q.log[|old(q.log)|]]
                && q.log[|old(q.log)|].token == token && q.log[|old(q.log)|].chain == old(q.free)[..n]
                && forall i: nat | i < n ::
                     old(q.free)[i] < num && Shows(descs[old(q.free)[i]], i, inBufs, outBufs, old(q.free)[..n])
    {
      hide Represents, Built, Chained, Step, FreeLinked, NoDup, Shows;
      ghost var m, q0, segs := Snapshot(), q, Segs(inBufs, outBufs);
      AddStart(num, m, q, segs, token);
      var total := |inBufs| + |outBufs|;
      if total > numFree {
        return -1;
      }
      var head := AllocDesc();
      data[head] := token;
      FillChain(head, inBufs, outBufs, m, q.free, NewReq(q, segs, token));
      ChainShown(m.descs, descs[..], inBufs, outBufs, NewReq(q, segs, token));
      var slot := availIdx % num;
      availRing[slot] := head;
      availIdx := (availIdx + 1) % U16;
      availRingIdx := availIdx;
      ret := head;
      q := AfterAdd(q, segs, token);
      AddRepresents(num, m, q0, segs, token, Snapshot());
    }

    /** The walk of `virtq_get_buf`: frees the descriptors of a chain, following `next` while the flag is set. */
    method FreeChain(first: nat, ghost m: Mem, ghost r: Req)
      requires Written(m.descs, m.data, r) && NoDup(r.chain) && r.chain != [] && |r.chain| == |r.segs|
      requires (forall i | 0 <= i < |r.chain| :: r.chain[i] < descs.Length) && first == r.chain[0]
      requires descs[..] == m.descs && freeHead == m.freeHead && numFree == m.numFree
      modifies this`freeHead, this`numFree, descs
      ensures Pushed(m.descs, descs[..], m.freeHead, r.chain, |r.chain|)
      ensures freeHead == r.chain[|r.chain| - 1] && numFree == m.numFree + |r.chain|
    {
      hide Written;
      ghost var chain, k := r.chain, 0;
      var head := first;
      LinkUnwalked(m, r, descs[..], m.freeHead, k);
      hide Pushed;
      while descs[head].nextFlag
        invariant k < |chain| && head == chain[k] && descs[..][head] == Link(r, k)
        invariant Pushed(m.descs, descs[..], m.freeHead, chain, k)
        invariant freeHead == (if k == 0 then m.freeHead else chain[k - 1]) && numFree == m.numFree + k
        decreases |chain| - k
      {
        var next := descs[head].next;
        PushStep(m, r, descs[..], m.freeHead, k);
        FreeDesc(head);
        head := next;
        k := k + 1;
        LinkUnwalked(m, r, descs[..], m.freeHead, k);
      }
      PushStep(m, r, descs[..], m.freeHead, k);
      FreeDesc(head);
    }

    /** `virtq_get_buf`: hands back the token of the oldest finished request and frees exactly its chain. */
    method GetBuf() returns (token: nat, len: nat)
      requires Valid()
      modifies this, descs, data
      ensures Valid()
      ensures old(q.done) == [] ==> token == 0 && q == old(q)
      ensures old(q.done) != [] ==>
                Step(old(q), Get, q) && token == old(q).done[0].req.token && len == old(q).done[0].len
    {
      hide Represents, Step, Pushed, Written;
      ghost var m, q0 := Snapshot(), q;
      EmptyTests(num, m, q);
      if usedIdx == usedRingIdx {
        return 0, 0;
      }
      DoneEntry(num, m, q);
      ghost var chain := q.done[0].req.chain;
      var head := usedRing[usedIdx % num].id;
      len := usedRing[usedIdx % num].len;
      token := data[head];
      data[head] := 0;
      FreeChain(head, m, q.done[0].req);
      usedIdx := (usedIdx + 1) % U16;
      q := AfterGet(q);
      GetRepresents(num, m, q0, Snapshot());
    }
  }

  /** The oldest used entry names a written, duplicate-free chain. */
  lemma DoneEntry(num: nat, m: Mem, q: Queue)
    requires Represents(num, m, q) && q.done != []
    ensures var r := q.done[0].req;
            && Written(m.descs, m.data, r) && NoDup(r.chain) && Shape(num, m)
            && r.chain != [] && |r.chain| == |r.segs| && (forall i | 0 <= i < |r.chain| :: r.chain[i] < num)
            && m.data[r.chain[0]] == r.token && Pushed(m.descs, m.descs, m.freeHead, r.chain, 0)
            && m.used[m.usedIdx % num] == UsedElem(r.chain[0], q.done[0].len)
  {
    DoneFirst(q);
    assert q.done[0].req in q.Outstanding();
    ChainSound(num, q, |q.posted| + |q.held|);
    UsedEntry(num, m, q);
  }

  lemma UsedEntry(num: nat, m: Mem, q: Queue)
    requires Rings(m, q) && |m.used| == num && U16 % num == 0 && q.done != []
    ensures m.used[m.usedIdx % num] == UsedElem(q.done[0].req.chain[0], q.done[0].len)
  {
    WrapOne(num, q.Reaped());
    RingPop(m.used, q.Reaped(), Elems(q.done));
  }

  /** Descriptors further down the chain are still as the request wrote them. */
  lemma LinkUnwalked(m: Mem, r: Req, descs: seq<Desc>, head: nat, k: nat)
    requires Written(m.descs, m.data, r) && NoDup(r.chain) && k < |r.chain|
    requires Pushed(m.descs, descs, head, r.chain, k)
    ensures descs[r.chain[k]] == Link(r, k)
  {
    assert r.chain[k] !in r.chain[..k];
  }

  lemma PushStep(m: Mem, r: Req, descs: seq<Desc>, head: nat, k: nat)
    requires Written(m.descs, m.data, r) && NoDup(r.chain) && k < |r.chain|
    requires Pushed(m.descs, descs, head, r.chain, k) && r.chain[k] < |descs|
    ensures Pushed(m.descs, descs[r.chain[k] := Freed(head, r.chain, k)], head, r.chain, k + 1)
  {
    var chain, descs' := r.chain, descs[r.chain[k] := Freed(head, r.chain, k)];
    hide Written;
    forall i | 0 <= i < k + 1
      ensures chain[i] < |m.descs| && descs'[chain[i]] == Freed(head, chain, i)
    {
      if i < k {
        assert chain[i] != chain[k];
      }
    }
    hide NoDup;
    forall d: nat | d < |m.descs| && d !in chain[..k + 1]
      ensures descs'[d] == m.descs[d]
    {
      assert chain[..k + 1][k] == chain[k];
      assert forall i | 0 <= i < k :: chain[..k][i] == chain[..k + 1][i];
    }
  }

  // ----- building a chain

  /** A filled descriptor of the chain; the last one still has its old `next`. */
  function Partial(base: seq<Desc>, r: Req, i: nat): Desc
    requires |r.chain| == |r.segs| && i < |r.chain| && r.chain[i] < |base|
  {
    if i + 1 < |r.chain| then Link(r, i) else Link(r, i).(next := base[r.chain[i]].next)
  }

  /** The first `p` descriptors of the chain are filled, everything else is as before. */
  ghost predicate Built(base: seq<Desc>, descs: seq<Desc>, r: Req, p: nat)
    requires |r.chain| == |r.segs| && p <= |r.chain|
  {
    && |descs| == |base|
    && (forall i | 0 <= i < |r.chain| :: r.chain[i] < |base|)
    && (forall i {:trigger Partial(base, r, i)} | 0 <= i < p :: descs[r.chain[i]] == Partial(base, r, i))
    && (forall d: nat | d < |base| && d !in r.chain[..p] :: descs[d] == base[d])
  }

  lemma BuiltNext(base: seq<Desc>, descs: seq<Desc>, head: nat, free: seq<nat>, r: Req, p: nat)
    requires FreeLinked(base, head, free) && NoDup(free)
    requires |r.chain| == |r.segs| && |r.chain| <= |free| && r.chain == free[..|r.chain|]
    requires p < |r.chain| && Built(base, descs, r, p)
    ensures |descs| == |base| && (forall i | 0 <= i < |r.chain| :: r.chain[i] < |base|)
    ensures descs[r.chain[p]] == base[r.chain[p]]
    ensures p + 1 < |r.chain| ==> free[p + 1] == r.chain[p + 1] && r.chain[p + 1] != r.chain[p]
    ensures p + 2 < |free| && p + 1 < |r.chain| ==> descs[free[p + 1]].next == free[p + 2]
  {
    assert r.chain[p] !in r.chain[..p];
    if p + 1 < |r.chain| {
      assert r.chain[p + 1] !in r.chain[..p];
      assert free[p + 1] == r.chain[p + 1];
    }
  }

  lemma BuildStep(base: seq<Desc>, descs: seq<Desc>, r: Req, p: nat)
    requires |r.chain| == |r.segs| && NoDup(r.chain) && p < |r.chain| && Built(base, descs, r, p)
    ensures Built(base, descs[r.chain[p] := Partial(base, r, p)], r, p + 1)
  {
    var chain, descs' := r.chain, descs[r.chain[p] := Partial(base, r, p)];
    forall i | 0 <= i < p + 1
      ensures descs'[chain[i]] == Partial(base, r, i)
    {
      if i < p {
        assert chain[i] != chain[p];
      }
    }
    hide NoDup;
    forall d: nat | d < |base| && d !in chain[..p + 1]
      ensures descs'[d] == base[d]
    {
      assert chain[..p + 1][p] == chain[p];
      assert forall i | 0 <= i < p :: chain[..p][i] == chain[..p + 1][i];
    }
  }

  lemma AddStart(num: nat, m: Mem, q: Queue, segs: seq<Seg>, token: nat)
    requires Represents(num, m, q) && segs != []
    ensures Shape(num, m) && m.numFree == |q.free|
    ensures |segs| > |q.free| ==> Step(q, Refuse(segs), q)
    ensures |segs| <= |q.free| ==>
              && var r := NewReq(q, segs, token);
              && FreeLinked(m.descs, m.freeHead, q.free) && NoDup(q.free) && NoDup(r.chain)
              && m.freeHead == q.free[0] < num && r.chain == q.free[..|segs|]
              && (forall i | 0 <= i < |q.free| :: q.free[i] < num)
              && (1 < |q.free| ==> m.descs[q.free[0]].next == q.free[1])
              && Built(m.descs, m.descs, r, 0)
  {
    FreeListSound(num, q);
  }

  lemma FinishedChain(base: seq<Desc>, built: seq<Desc>, r: Req)
    requires |r.chain| == |r.segs| >= 1 && Built(base, built, r, |r.chain|) && NoDup(r.chain)
    ensures var last := r.chain[|r.chain| - 1];
            last < |built| && Chained(base, built[last := built[last].(nextFlag := false, next := 0)], r)
  {
    var n, last := |r.chain|, r.chain[|r.chain| - 1];
    var descs := built[last := built[last].(nextFlag := false, next := 0)];
    assert r.chain[..n] == r.chain;
    forall i | 0 <= i < n
      ensures descs[r.chain[i]] == Link(r, i)
    {
      assert built[r.chain[i]] == Partial(base, r, i);
      if i < n - 1 {
        assert r.chain[i] != r.chain[n - 1];
      }
    }
    hide NoDup;
    assert last in r.chain;
  }

  // ----- what the device sees

  /** Descriptor `d` is number `i` of a chain that shows the buffers, each with its address, length and direction. */
  predicate Shows(d: Desc, i: nat, inBufs: seq<Buf>, outBufs: seq<Buf>, chain: seq<nat>)
    requires |chain| == |inBufs| + |outBufs|
  {
    && (i < |inBufs| ==> d.addr == inBufs[i].addr && d.len == inBufs[i].len && !d.writeFlag)
    && (|inBufs| <= i < |chain| ==>
          d.addr == outBufs[i - |inBufs|].addr && d.len == outBufs[i - |inBufs|].len && d.writeFlag)
    && (if i + 1 < |chain| then d.nextFlag && d.next == chain[i + 1] else !d.nextFlag)
  }

  lemma ChainShown(base: seq<Desc>, descs: seq<Desc>, inBufs: seq<Buf>, outBufs: seq<Buf>, r: Req)
    requires |r.chain| == |r.segs| && r.segs == Segs(inBufs, outBufs) && Chained(base, descs, r)
    ensures |descs| == |base| && |r.chain| == |inBufs| + |outBufs|
    ensures forall i: nat | i < |r.chain| ::
              r.chain[i] < |descs| && Shows(descs[r.chain[i]], i, inBufs, outBufs, r.chain)
  {
    forall i: nat | i < |r.chain|
      ensures r.chain[i] < |descs| && Shows(descs[r.chain[i]], i, inBufs, outBufs, r.chain)
    {
      assert descs[r.chain[i]] == Link(r, i);
      hide Chained;
    }
  }

  /** Following `next` from a chain head, as the device does (at most `fuel` descriptors). */
  function Walk(descs: seq<Desc>, d: nat, fuel: nat): seq<Seg>
    decreases fuel
  {
    if fuel == 0 || d >= |descs| then []
    else
      var s := [Seg(descs[d].addr, descs[d].len, descs[d].writeFlag)];
      if descs[d].nextFlag then s + Walk(descs, descs[d].next, fuel - 1) else s
  }

  /** Walking a written chain ends by itself and yields exactly the buffers of the request, in order. */
  lemma {:induction false} WalkReads(m: Mem, r: Req, k: nat, fuel: nat)
    requires Written(m.descs, m.data, r) && k < |r.chain| && fuel >= |r.chain| - k
    ensures Walk(m.descs, r.chain[k], fuel) == r.segs[k..]
    decreases |r.chain| - k
  {
    assert m.descs[r.chain[k]] == Link(r, k);
    if k + 1 < |r.chain| {
      WalkReads(m, r, k + 1, fuel - 1);
    }
  }
}
