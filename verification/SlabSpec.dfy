/**
 One slab cache on values: its slabs, its three lists, its counters, and what taking an
 object, returning one, adding a slab and reusing an emptied slab do to them.
 */
module SlabSpec {
  import opened LinkedLists
  import opened Memory
  import opened Bitmap
  import opened SlabLayout

  const SLAB_PAGES: nat := 16

  /** The changing part of `struct slab`. */
  datatype Slab = Slab(total: nat, free: nat, bm: seq<Byte>)

  /** `struct kmem_cache`; slabs are named by the first page of their blob. */
  datatype Cache = Cache(objSize: nat, total: nat, free: nat,
                         partial: seq<nat>, full: seq<nat>, spare: seq<nat>, slabs: map<nat, Slab>)

  /** Object `index` of the slab at page `page`. */
  datatype Object = Object(page: nat, index: nat)

  // ----- the invariant

  predicate SlabOk(objSize: nat, s: Slab)
    requires objSize > 0
  {
    && s.total == Total(objSize) && |s.bm| == BitmapSize(s.total)
    && (forall i: nat | s.total <= i < 8 * |s.bm| :: !Bit(s.bm, i))
    && s.free == |ClearBits(s.bm, s.total)|
  }

  /** The lists share no slab, hold exactly the slabs, and sort them by how many free objects they have. */
  ghost predicate Sorted(c: Cache) {
    && NoDup(c.partial) && NoDup(c.full) && NoDup(c.spare)
    && (forall p :: p in c.slabs <==> p in c.partial || p in c.full || p in c.spare)
    && (forall p | p in c.partial :: p !in c.full && p !in c.spare)
    && (forall p | p in c.full :: p !in c.spare)
    && (forall p | p in c.slabs :: p in c.full <==> c.slabs[p].free == 0)
    && (forall p | p in c.spare && p in c.slabs :: c.slabs[p].free == c.slabs[p].total)
  }

  /** Free objects of the slabs on a list. */
  function FreeOn(slabs: map<nat, Slab>, list: seq<nat>): nat {
    if list == [] then 0
    else (if list[0] in slabs then slabs[list[0]].free else 0) + FreeOn(slabs, list[1..])
  }

  ghost predicate Slabs(c: Cache) {
    Sized(c.objSize) && forall p | p in c.slabs :: SlabOk(c.objSize, c.slabs[p])
  }

  /** The cache's counters are the sums over its slabs in service. */
  ghost predicate Counted(c: Cache) {
    && c.objSize > 0
    && c.free == FreeOn(c.slabs, c.partial)
    && c.total == Times(|c.partial| + |c.full|, Total(c.objSize))
  }

  function Times(n: nat, t: nat): nat {
    n * t
  }

  ghost predicate Inv(c: Cache) {
    Slabs(c) && Sorted(c) && Counted(c)
  }

  /** Object `o` exists. */
  predicate Placed(slabs: map<nat, Slab>, o: Object) {
    o.page in slabs && o.index < slabs[o.page].total
  }

  /** Object `o` is handed out and not returned. */
  predicate Used(slabs: map<nat, Slab>, o: Object) {
    && o.page in slabs && o.index < slabs[o.page].total <= 8 * |slabs[o.page].bm|
    && Bit(slabs[o.page].bm, o.index)
  }

  function InUse(slabs: map<nat, Slab>): set<Object> {
    set p, i: nat | p in slabs && 0 <= i < slabs[p].total && Used(slabs, Object(p, i)) :: Object(p, i)
  }

  // ----- the steps

  /** `slab_alloc` of object `i` of the first partial slab, with the cache's counter. */
  function AfterTake(c: Cache, i: nat): Cache
    requires CanTake(c)
  {
    var p := c.partial[0];
    var s := c.slabs[p];
    var s' := Slab(s.total, s.free - 1, Set(s.bm, s.total, i));
    c.(free := c.free - 1, slabs := c.slabs[p := s'],
       partial := if s.free == 1 then c.partial[1..] else c.partial,
       full := if s.free == 1 then [p] + c.full else c.full)
  }

  /** `slab_free` of an object, with the cache's counter. */
  function AfterGive(c: Cache, o: Object): Cache
    requires Used(c.slabs, o)
  {
    var s := c.slabs[o.page];
    var s' := Slab(s.total, s.free + 1, Bitmap.Clear(s.bm, s.total, o.index));
    c.(free := c.free + 1, slabs := c.slabs[o.page := s'],
       partial := if s.free == 0 then [o.page] + c.partial else c.partial,
       full := if s.free == 0 then Remove(c.full, o.page) else c.full)
  }

  function NewSlab(objSize: nat): Slab
    requires objSize > 0
  {
    Slab(Total(objSize), Total(objSize), Zeros(BitmapSize(Total(objSize))))
  }

  /** `slab_init` of the blob at page `p`. */
  function AfterGrow(c: Cache, p: nat): Cache
    requires c.objSize > 0
  {
    c.(total := c.total + Total(c.objSize), free := c.free + Total(c.objSize),
       slabs := c.slabs[p := NewSlab(c.objSize)], partial := c.partial + [p])
  }

  /** The first spare slab goes back into service. */
  function AfterReuse(c: Cache): Cache
    requires c.spare != [] && c.spare[0] in c.slabs
  {
    var s := c.slabs[c.spare[0]];
    c.(total := c.total + s.total, free := c.free + s.free,
       partial := [c.spare[0]] + c.partial, spare := c.spare[1..])
  }

  // ----- sums over lists

  lemma {:induction false} FreeOnUpdate(slabs: map<nat, Slab>, list: seq<nat>, p: nat, s: Slab)
    requires NoDup(list)
    ensures FreeOn(slabs[p := s], list) ==
            FreeOn(slabs, list) + if p in list then s.free - (if p in slabs then slabs[p].free else 0) else 0
  {
    if list != [] {
      FreeOnUpdate(slabs, list[1..], p, s);
      assert list == [list[0]] + list[1..];
    }
  }

  lemma {:induction false} FreeOnAppend(slabs: map<nat, Slab>, list: seq<nat>, p: nat)
    ensures FreeOn(slabs, list + [p]) == FreeOn(slabs, list) + FreeOn(slabs, [p])
  {
    if list != [] {
      FreeOnAppend(slabs, list[1..], p);
      assert (list + [p])[1..] == list[1..] + [p];
    } else {
      assert list + [p] == [p];
    }
  }

  // ----- each step keeps the invariant and does to the objects what it should

  /** A cache that counts a free object has one in its first partial slab. */
  lemma RoomInFront(c: Cache)
    requires Inv(c) && c.free > 0
    ensures c.partial != [] && CanTake(c) && SlabOk(c.objSize, c.slabs[c.partial[0]])
  {
    hide Total, SlabOk, Times;
    if c.partial != [] {
      assert c.partial[0] in c.partial;
      assert SlabOk(c.objSize, c.slabs[c.partial[0]]);
      SlabSize(c.objSize, c.slabs[c.partial[0]]);
    }
  }

  /** No bit is set behind the end of a slab's bitmap: the search from its start is right, and ends at a free object. */
  lemma SearchEnds(objSize: nat, s: Slab)
    requires objSize > 0 && SlabOk(objSize, s)
    ensures s.total > 0 ==> Found(s.bm, s.total, 0) == NextClear(s.bm, s.total, 0)
    ensures |s.bm| == (s.total + 7) / 8
    ensures s.free > 0 ==> exists i: nat :: i < s.total && !Bit(s.bm, i)
  {
    hide Total, Bit;
    if s.total > 0 {
      FoundExact(s.bm, s.total, 0);
      assert s.total < 8 ==> !Bit(s.bm, s.total);
    }
    if s.free > 0 {
      assert ClearBits(s.bm, s.total) != {};
      var i :| i in ClearBits(s.bm, s.total);
    }
  }

  predicate CanTake(c: Cache) {
    && c.free > 0 && c.partial != [] && c.partial[0] in c.slabs
    && var s := c.slabs[c.partial[0]]; s.free > 0 && s.total <= 8 * |s.bm|
  }

  lemma SlabSize(objSize: nat, s: Slab)
    requires objSize > 0 && SlabOk(objSize, s)
    ensures s.total == Total(objSize) && s.total <= 8 * |s.bm|
  {
    hide Total;
  }

  // ----- one slab

  lemma TakenSlabOk(objSize: nat, s: Slab, i: nat)
    requires objSize > 0 && SlabOk(objSize, s) && i in ClearBits(s.bm, s.total)
    ensures s.free > 0 && SlabOk(objSize, Slab(s.total, s.free - 1, Set(s.bm, s.total, i)))
    ensures forall j: nat | j < s.total :: Bit(Set(s.bm, s.total, i), j) <==> j == i || Bit(s.bm, j)
  {
    SetClearBits(s.bm, s.total, i);
    hide Bit, ObjectNum, AllocSize;
    forall j: nat | j < 8 * |s.bm|
      ensures Bit(Set(s.bm, s.total, i), j) <==> j == i || Bit(s.bm, j)
    {
      SetBit(s.bm, s.total, i, j);
    }
  }

  lemma GivenSlabOk(objSize: nat, s: Slab, i: nat)
    requires objSize > 0 && SlabOk(objSize, s) && i < s.total && Bit(s.bm, i)
    ensures s.free < s.total && SlabOk(objSize, Slab(s.total, s.free + 1, Bitmap.Clear(s.bm, s.total, i)))
    ensures forall j: nat | j < s.total :: Bit(Bitmap.Clear(s.bm, s.total, i), j) <==> j != i && Bit(s.bm, j)
  {
    ClearClearBits(s.bm, s.total, i);
    ClearCount(Bitmap.Clear(s.bm, s.total, i), s.total);
    hide Bit, ObjectNum, AllocSize;
    forall j: nat | j < 8 * |s.bm|
      ensures Bit(Bitmap.Clear(s.bm, s.total, i), j) <==> j != i && Bit(s.bm, j)
    {
      ClearBit(s.bm, s.total, i, j);
    }
  }

  lemma NewSlabOk(objSize: nat)
    requires objSize > 0
    ensures SlabOk(objSize, NewSlab(objSize))
    ensures forall i: nat | i < Total(objSize) :: !Bit(NewSlab(objSize).bm, i)
  {
    ZeroedBits(BitmapSize(Total(objSize)), Total(objSize));
  }

  // ----- the cache

  lemma TakeSorted(c: Cache, i: nat)
    requires Sorted(c) && CanTake(c)
    ensures Sorted(AfterTake(c, i))
  {
    hide Set;
    PopFacts(c.partial);
  }

  lemma GiveSorted(c: Cache, o: Object)
    requires Sorted(c) && Used(c.slabs, o) && o.page !in c.spare
    ensures Sorted(AfterGive(c, o))
  {
    hide Bit, Bitmap.Clear;
    if c.slabs[o.page].free == 0 {
      Refilled(c, o.page, AfterGive(c, o).slabs[o.page]);
    }
    hide Remove;
  }

  /** A full slab that gets an object back moves to the partial list. */
  lemma Refilled(c: Cache, p: nat, s: Slab)
    requires Sorted(c) && p in c.slabs && c.slabs[p].free == 0 && p !in c.spare && s.free > 0
    ensures Sorted(c.(slabs := c.slabs[p := s], partial := [p] + c.partial, full := Remove(c.full, p)))
  {
    RemoveFacts(c.full, p);
    hide Remove;
    PushFacts(c.partial, p);
  }

  /** Nothing on the spare list is in use. */
  lemma SpareUnused(c: Cache, o: Object)
    requires Slabs(c) && Sorted(c) && Used(c.slabs, o)
    ensures o.page !in c.spare
  {
    hide Total;
    GivenSlabOk(c.objSize, c.slabs[o.page], o.index);
  }

  lemma TakeCounted(c: Cache, i: nat)
    requires Sorted(c) && Counted(c) && CanTake(c)
    ensures Counted(AfterTake(c, i))
  {
    hide Set, Total;
    var p := c.partial[0];
    FreeOnUpdate(c.slabs, c.partial, p, AfterTake(c, i).slabs[p]);
    assert FreeOn(AfterTake(c, i).slabs, c.partial) == AfterTake(c, i).slabs[p].free + FreeOn(AfterTake(c,
        i).slabs, c.partial[1..]);
  }

  lemma GiveCounted(c: Cache, o: Object)
    requires Sorted(c) && Counted(c) && Used(c.slabs, o) && o.page !in c.spare
    ensures Counted(AfterGive(c, o))
  {
    hide Bitmap.Clear, Bit, Total;
    var c' := AfterGive(c, o);
    FreeOnUpdate(c.slabs, c.partial, o.page, c'.slabs[o.page]);
    RemoveFacts(c.full, o.page);
    assert o.page !in c.partial ==> ([o.page] + c.partial)[1..] == c.partial;
  }

  lemma GrowCounted(c: Cache, p: nat)
    requires Sorted(c) && Counted(c) && p !in c.slabs
    ensures Counted(AfterGrow(c, p))
  {
    hide Total, Zeros;
    var c' := AfterGrow(c, p);
    FreeOnUpdate(c.slabs, c.partial, p, c'.slabs[p]);
    FreeOnAppend(c'.slabs, c.partial, p);
    TimesNext(|c.partial| + |c.full|, Total(c.objSize));
  }

  lemma TimesNext(n: nat, t: nat)
    ensures Times(n + 1, t) == Times(n, t) + t
  {
  }

  lemma TakeKeeps(c: Cache, i: nat)
    requires Inv(c) && CanTake(c) && i in ClearBits(c.slabs[c.partial[0]].bm, Total(c.objSize))
    ensures Inv(AfterTake(c, i))
    ensures Object(c.partial[0], i) !in InUse(c.slabs)
    ensures InUse(AfterTake(c, i).slabs) == InUse(c.slabs) + {Object(c.partial[0], i)}
  {
    hide Total;
    TakenSlabOk(c.objSize, c.slabs[c.partial[0]], i);
    TakeSorted(c, i);
    TakeCounted(c, i);
    TakeUsed(c, i);
  }

  lemma TakeUsed(c: Cache, i: nat)
    requires Slabs(c) && CanTake(c) && i in ClearBits(c.slabs[c.partial[0]].bm, Total(c.objSize))
    ensures Object(c.partial[0], i) !in InUse(c.slabs)
    ensures InUse(AfterTake(c, i).slabs) == InUse(c.slabs) + {Object(c.partial[0], i)}
  {
    hide Total;
    TakenSlabOk(c.objSize, c.slabs[c.partial[0]], i);
    hide Bit, Set;
    forall o: Object
      ensures Used(AfterTake(c, i).slabs, o) <==> Used(c.slabs, o) || o == Object(c.partial[0], i)
    {
    }
  }

  lemma GiveKeeps(c: Cache, o: Object)
    requires Inv(c) && Used(c.slabs, o)
    ensures Inv(AfterGive(c, o))
    ensures InUse(AfterGive(c, o).slabs) == InUse(c.slabs) - {o}
  {
    hide Total, Sorted, Counted;
    SpareUnused(c, o);
    GivenSlabOk(c.objSize, c.slabs[o.page], o.index);
    GiveSorted(c, o);
    GiveCounted(c, o);
    hide Bit, Bitmap.Clear;
    forall a: Object
      ensures Used(AfterGive(c, o).slabs, a) <==> Used(c.slabs, a) && a != o
    {
    }
  }

  lemma GrowSorted(c: Cache, p: nat)
    requires Sorted(c) && p !in c.slabs && c.objSize > 0 && Total(c.objSize) > 0
    ensures Sorted(AfterGrow(c, p))
  {
    hide Total, Zeros;
    PushFacts(c.partial, p);
  }

  lemma GrowKeeps(c: Cache, p: nat)
    requires Inv(c) && p !in c.slabs
    ensures Inv(AfterGrow(c, p)) && InUse(AfterGrow(c, p).slabs) == InUse(c.slabs)
  {
    NewSlabOk(c.objSize);
    GrowCounted(c, p);
    GrowSorted(c, p);
    hide Total, Sorted, Counted, ClearBits, Zeros, Bit;
    forall a: Object
      ensures Used(AfterGrow(c, p).slabs, a) <==> Used(c.slabs, a)
    {
    }
  }

  lemma ReuseSorted(c: Cache)
    requires Sorted(c) && c.spare != []
    requires var p := c.spare[0]; p in c.slabs && c.slabs[p].free > 0
    ensures Sorted(AfterReuse(c))
  {
    PopFacts(c.spare);
    PushFacts(c.partial, c.spare[0]);
  }

  lemma ReuseKeeps(c: Cache)
    requires Inv(c) && c.spare != []
    ensures c.spare[0] in c.slabs && Inv(AfterReuse(c)) && AfterReuse(c).slabs == c.slabs
    ensures AfterReuse(c).free > 0
  {
    SpareFull(c);
    ReuseSorted(c);
    ReuseCounted(c);
    hide Total, SlabOk, Sized, Sorted, Counted;
  }

  lemma SpareFull(c: Cache)
    requires Slabs(c) && Sorted(c) && c.spare != []
    ensures var p := c.spare[0]; p in c.slabs && c.slabs[p].free == c.slabs[p].total == Total(c.objSize) > 0
  {
    hide Total, ClearBits, Bit;
    assert c.spare[0] in c.spare;
    assert SlabOk(c.objSize, c.slabs[c.spare[0]]);
  }

  lemma ReuseCounted(c: Cache)
    requires Counted(c) && c.spare != []
    requires var p := c.spare[0]; p in c.slabs && c.slabs[p].free == c.slabs[p].total == Total(c.objSize)
    ensures Counted(AfterReuse(c))
  {
    hide Total, Times;
    TimesNext(|c.partial| + |c.full|, Total(c.objSize));
    assert AfterReuse(c).partial[1..] == c.partial;
  }

  // ----- what the invariant means

  /** The first `n` objects of slab `p` that are in use. */
  function UsedIn(slabs: map<nat, Slab>, p: nat, n: nat): set<Object> {
    if n == 0 then {} else UsedIn(slabs, p, n - 1) + if Used(slabs, Object(p, n - 1)) then {Object(p, n - 1)} else {}
  }

  /** The objects in use that lie in the slabs of a list. */
  function UsedOn(slabs: map<nat, Slab>, list: seq<nat>, n: nat): set<Object> {
    if list == [] then {} else UsedIn(slabs, list[0], n) + UsedOn(slabs, list[1..], n)
  }

  lemma {:induction false} UsedInMembers(slabs: map<nat, Slab>, p: nat, n: nat)
    ensures forall o :: o in UsedIn(slabs, p, n) <==> o.page == p && o.index < n && Used(slabs, o)
  {
    hide Used;
    if n > 0 {
      UsedInMembers(slabs, p, n - 1);
    }
  }

  lemma {:induction false} UsedOnMembers(slabs: map<nat, Slab>, list: seq<nat>, n: nat)
    ensures forall o :: o in UsedOn(slabs, list, n) <==> o.page in list && o.index < n && Used(slabs, o)
  {
    hide Used;
    if list != [] {
      UsedInMembers(slabs, list[0], n);
      UsedOnMembers(slabs, list[1..], n);
    }
  }

  lemma {:induction false} UsedInCount(slabs: map<nat, Slab>, p: nat, n: nat)
    requires p in slabs && n <= slabs[p].total <= 8 * |slabs[p].bm|
    ensures |UsedIn(slabs, p, n)| + |ClearBits(slabs[p].bm, n)| == n
  {
    hide ClearBits, Bit, UsedIn;
    if n > 0 {
      UsedInCount(slabs, p, n - 1);
      ClearBitsNext(slabs[p].bm, n - 1);
      UsedInNext(slabs, p, n - 1);
    } else {
      NoneUsedIn(slabs, p);
      NoClearBits(slabs[p].bm);
    }
  }

  lemma NoneUsedIn(slabs: map<nat, Slab>, p: nat)
    ensures UsedIn(slabs, p, 0) == {}
  {
  }

  lemma UsedInNext(slabs: map<nat, Slab>, p: nat, n: nat)
    requires p in slabs && n < slabs[p].total <= 8 * |slabs[p].bm|
    ensures |UsedIn(slabs, p, n + 1)| == |UsedIn(slabs, p, n)| + if Bit(slabs[p].bm, n) then 1 else 0
  {
    hide Bit;
    LastNotIn(slabs, p, n);
    assert Used(slabs, Object(p, n)) == Bit(slabs[p].bm, n);
    hide Used;
  }

  lemma LastNotIn(slabs: map<nat, Slab>, p: nat, n: nat)
    ensures Object(p, n) !in UsedIn(slabs, p, n)
  {
    UsedInMembers(slabs, p, n);
  }

  lemma Disjoint<T>(a: set<T>, b: set<T>)
    requires a !! b
    ensures |a + b| == |a| + |b|
  {
  }

  lemma UsedOnSplit(slabs: map<nat, Slab>, a: seq<nat>, b: seq<nat>, n: nat)
    requires forall p | p in a :: p !in b
    ensures |UsedOn(slabs, a, n) + UsedOn(slabs, b, n)| == |UsedOn(slabs, a, n)| + |UsedOn(slabs, b, n)|
  {
    hide Used;
    UsedOnMembers(slabs, a, n);
    UsedOnMembers(slabs, b, n);
    Disjoint(UsedOn(slabs, a, n), UsedOn(slabs, b, n));
  }

  lemma UsedOnFirst(slabs: map<nat, Slab>, list: seq<nat>, n: nat)
    requires list != [] && NoDup(list)
    ensures |UsedOn(slabs, list, n)| == |UsedIn(slabs, list[0], n)| + |UsedOn(slabs, list[1..], n)|
  {
    hide Used;
    assert list[0] !in list[1..];
    UsedInMembers(slabs, list[0], n);
    UsedOnMembers(slabs, list[1..], n);
    Disjoint(UsedIn(slabs, list[0], n), UsedOn(slabs, list[1..], n));
  }

  lemma {:induction false} UsedOnCount(c: Cache, list: seq<nat>)
    requires Slabs(c) && NoDup(list) && forall p | p in list :: p in c.slabs
    ensures |UsedOn(c.slabs, list, Total(c.objSize))| + FreeOn(c.slabs, list) == Times(|list|, Total(c.objSize))
  {
    hide Total, Times, Used, UsedIn, ClearBits, Bit;
    var t := Total(c.objSize);
    if list == [] {
      ZeroTimes(t);
    } else {
      var p := list[0];
      assert SlabOk(c.objSize, c.slabs[p]);
      SlabSize(c.objSize, c.slabs[p]);
      UsedInCount(c.slabs, p, t);
      assert |UsedIn(c.slabs, p, t)| + c.slabs[p].free == t;
      UsedOnFirst(c.slabs, list, t);
      hide SlabOk, UsedOn;
      UsedOnCount(c, list[1..]);
      TimesNext(|list[1..]|, t);
    }
  }

  lemma ZeroTimes(t: nat)
    ensures Times(0, t) == 0
  {
  }

  lemma TimesAdd(m: nat, n: nat, t: nat)
    ensures Times(m + n, t) == Times(m, t) + Times(n, t)
  {
  }

  lemma {:induction false} FullHaveNone(slabs: map<nat, Slab>, list: seq<nat>)
    requires forall p | p in list :: p in slabs && slabs[p].free == 0
    ensures FreeOn(slabs, list) == 0
  {
    if list != [] {
      FullHaveNone(slabs, list[1..]);
    }
  }

  lemma InService(c: Cache, o: Object)
    requires Slabs(c) && Sorted(c)
    ensures Used(c.slabs, o) ==> (o.page in c.partial || o.page in c.full) && o.index < Total(c.objSize)
    ensures o in InUse(c.slabs) <==> Used(c.slabs, o)
  {
    hide Total;
    if Used(c.slabs, o) {
      SpareUnused(c, o);
      SlabSize(c.objSize, c.slabs[o.page]);
    }
  }

  /** Conservation: every object in service is either free or in use. */
  lemma ObjectCount(c: Cache)
    requires Inv(c)
    ensures |InUse(c.slabs)| + c.free == c.total
  {
    hide Total, Times, UsedOn, InUse, Slabs, FreeOn;
    PartialCount(c);
    FullCount(c);
    TimesAdd(|c.partial|, |c.full|, Total(c.objSize));
    UsedOnSplit(c.slabs, c.partial, c.full, Total(c.objSize));
    AllInService(c);
  }

  lemma PartialCount(c: Cache)
    requires Slabs(c) && Sorted(c)
    ensures |UsedOn(c.slabs, c.partial, Total(c.objSize))| + FreeOn(c.slabs, c.partial)
            == Times(|c.partial|, Total(c.objSize))
  {
    hide Total, Times, SlabOk, UsedOn, FreeOn;
    UsedOnCount(c, c.partial);
  }

  lemma FullCount(c: Cache)
    requires Slabs(c) && Sorted(c)
    ensures |UsedOn(c.slabs, c.full, Total(c.objSize))| == Times(|c.full|, Total(c.objSize))
  {
    hide Total, Times, SlabOk, UsedOn, FreeOn;
    UsedOnCount(c, c.full);
    FullHaveNone(c.slabs, c.full);
  }

  lemma AllInService(c: Cache)
    requires Slabs(c) && Sorted(c)
    ensures InUse(c.slabs) == UsedOn(c.slabs, c.partial, Total(c.objSize)) + UsedOn(c.slabs, c.full, Total(c.objSize))
  {
    UsedOnMembers(c.slabs, c.partial, Total(c.objSize));
    UsedOnMembers(c.slabs, c.full, Total(c.objSize));
    hide Total, SlabOk, Used, InUse;
    forall o
      ensures o in InUse(c.slabs) <==>
              o in UsedOn(c.slabs, c.partial, Total(c.objSize)) + UsedOn(c.slabs, c.full, Total(c.objSize))
    {
      InService(c, o);
    }
  }

  // ----- returning an object twice

  /** A second return of the same object raises the cache's counter and frees nothing: the invariant is lost. */
  lemma DoubleReturn(c: Cache)
    requires Inv(c)
    ensures !Inv(c.(free := c.free + 1))
  {
  }

  // ----- flushing

  predicate Empty(slabs: map<nat, Slab>, p: nat) {
    p in slabs && slabs[p].free == slabs[p].total
  }

  /** What stays on the partial list. */
  function Kept(slabs: map<nat, Slab>, list: seq<nat>): seq<nat> {
    if list == [] then []
    else Kept(slabs, list[..|list| - 1]) + if Empty(slabs, list[|list| - 1]) then [] else [list[|list| - 1]]
  }

  /** The spare list after the empty slabs of `list` were moved to its head one by one. */
  function MovedOnto(slabs: map<nat, Slab>, list: seq<nat>, spare: seq<nat>): seq<nat> {
    if list == [] then spare
    else
      var done := MovedOnto(slabs, list[..|list| - 1], spare);
      if Empty(slabs, list[|list| - 1]) then [list[|list| - 1]] + done else done
  }

  /** `kmem_cache_flush` past its high-water test; the counters stay as they are. */
  function AfterFlush(c: Cache): Cache
    requires c.objSize > 0
  {
    if c.free < 2 * Total(c.objSize) then c
    else c.(partial := Kept(c.slabs, c.partial), spare := MovedOnto(c.slabs, c.partial, c.spare))
  }

  /** Past the high-water mark a flush makes exactly the empty partial slabs spare; every counter stays. */
  lemma FlushMoves(c: Cache)
    requires c.objSize > 0 && c.free >= 2 * Total(c.objSize)
    ensures var c' := AfterFlush(c);
            && (forall p :: p in c'.partial <==> p in c.partial && !Empty(c.slabs, p))
            && (forall p :: p in c'.spare <==> p in c.spare || (p in c.partial && Empty(c.slabs, p)))
            && c'.free == c.free && c'.total == c.total && c'.slabs == c.slabs && c'.full == c.full
  {
    hide Total;
    FlushMembers(c.slabs, c.partial, c.spare);
  }

  lemma {:induction false} FlushMembers(slabs: map<nat, Slab>, list: seq<nat>, spare: seq<nat>)
    ensures forall p :: p in Kept(slabs, list) <==> p in list && !Empty(slabs, p)
    ensures forall p :: p in MovedOnto(slabs, list, spare) <==> p in spare || (p in list && Empty(slabs, p))
  {
    hide Empty;
    if list != [] {
      FlushMembers(slabs, list[..|list| - 1], spare);
      assert list == list[..|list| - 1] + [list[|list| - 1]];
    }
  }

  lemma {:induction false} KeptAll(slabs: map<nat, Slab>, list: seq<nat>, spare: seq<nat>)
    requires forall p | p in list :: !Empty(slabs, p)
    ensures Kept(slabs, list) == list && MovedOnto(slabs, list, spare) == spare
  {
    hide Empty;
    if list != [] {
      var rest, p := list[..|list| - 1], list[|list| - 1];
      assert list == rest + [p];
      assert !Empty(slabs, p);
      KeptAll(slabs, rest, spare);
    }
  }

  lemma {:induction false} KeptFree(slabs: map<nat, Slab>, list: seq<nat>)
    requires forall p | p in list :: p in slabs && slabs[p].total > 0
    ensures FreeOn(slabs, Kept(slabs, list)) <= FreeOn(slabs, list)
    ensures (exists p :: p in list && Empty(slabs, p)) ==> FreeOn(slabs, Kept(slabs, list)) < FreeOn(slabs, list)
  {
    if list != [] {
      var rest, p := list[..|list| - 1], list[|list| - 1];
      KeptFree(slabs, rest);
      assert list == rest + [p];
      FreeOnAppend(slabs, rest, p);
      FreeOnAppend(slabs, Kept(slabs, rest), p);
      assert Kept(slabs, rest) + [] == Kept(slabs, rest);
    }
  }

  /**
   Flushing keeps the counters right exactly when it moves nothing: moved slabs leave the
   lists that `free` sums over, but their objects stay counted.
   */
  lemma FlushExact(c: Cache)
    requires Inv(c)
    ensures Inv(AfterFlush(c)) <==> c.free < 2 * Total(c.objSize) || forall p | p in c.partial :: !Empty(c.slabs, p)
  {
    hide Total, SlabOk, Times;
    if c.free >= 2 * Total(c.objSize) {
      if forall p | p in c.partial :: !Empty(c.slabs, p) {
        KeptAll(c.slabs, c.partial, c.spare);
      } else {
        PartialTotals(c);
        KeptFree(c.slabs, c.partial);
        assert !Counted(AfterFlush(c));
      }
    }
  }

  lemma PartialTotals(c: Cache)
    requires Slabs(c) && Sorted(c)
    ensures forall p | p in c.partial :: p in c.slabs && c.slabs[p].total > 0
  {
    hide Total;
    forall p | p in c.partial
      ensures p in c.slabs && c.slabs[p].total > 0
    {
      assert SlabOk(c.objSize, c.slabs[p]);
    }
  }

  /** Objects counted free beyond those of the slabs in service stay counted when a spare slab is reused. */
  lemma ReuseKeepsExcess(c: Cache)
    requires c.spare != [] && c.spare[0] in c.slabs
    ensures AfterReuse(c).free - FreeOn(c.slabs, AfterReuse(c).partial) == c.free - FreeOn(c.slabs, c.partial)
  {
    assert AfterReuse(c).partial[1..] == c.partial;
  }

  lemma {:induction false} RemoveMiddle(a: seq<nat>, p: nat, b: seq<nat>)
    requires p !in a
    ensures Remove(a + ([p] + b), p) == a + b
  {
    var s := a + ([p] + b);
    if a == [] {
      assert s == [p] + b && a + b == b && s[1..] == b;
    } else {
      RemoveMiddle(a[1..], p, b);
      assert s[1..] == a[1..] + ([p] + b) && s[0] == a[0];
      assert [a[0]] + (a[1..] + b) == a + b;
    }
  }

  lemma {:induction false} KeptMembers(slabs: map<nat, Slab>, list: seq<nat>, p: nat)
    ensures p in Kept(slabs, list) ==> p in list
  {
    if list != [] {
      KeptMembers(slabs, list[..|list| - 1], p);
    }
  }

  // ----- small caches

  /** A cache without slabs. */
  function NewCache(objSize: nat): Cache {
    Cache(objSize, 0, 0, [], [], [], map[])
  }

  lemma EmptyCache(objSize: nat)
    requires Sized(objSize)
    ensures Inv(NewCache(objSize))
  {
    hide Total;
    ZeroTimes(Total(objSize));
  }

  lemma EightBytes()
    ensures Sized(8) && Total(8) == 8058
  {
    hide AllocSize, ObjectNum;
    AllocUnchanged(8);
    NumberIs(8, 8058);
  }

  /** Flushing a cache of two fresh slabs loses the invariant. */
  lemma FlushLoses()
    ensures var c := AfterGrow(AfterGrow(NewCache(8), 0), 16);
            Inv(c) && c.free >= 2 * Total(8) && !Inv(AfterFlush(c))
  {
    EightBytes();
    hide Total, Sized, NewSlab, Inv, AfterFlush;
    EmptyCache(8);
    var c1 := AfterGrow(NewCache(8), 0);
    GrowKeeps(NewCache(8), 0);
    GrowKeeps(c1, 16);
    var c := AfterGrow(c1, 16);
    FlushExact(c);
    assert 0 in c.partial && c.slabs[0] == NewSlab(8) by { assert c.partial == [0, 16]; }
    NewSlabEmpty(8);
  }

  lemma NewSlabEmpty(objSize: nat)
    requires objSize > 0
    ensures NewSlab(objSize).free == NewSlab(objSize).total
  {
  }

  /** Returning an object of a fresh slab, which is not in use, loses the invariant. */
  lemma DoubleReturnLoses()
    ensures var c := AfterGrow(NewCache(8), 0);
            && Inv(c) && Placed(c.slabs, Object(0, 0)) && !Used(c.slabs, Object(0, 0))
            && !Inv(c.(free := c.free + 1))
  {
    EightBytes();
    NewSlabOk(8);
    var c := AfterGrow(NewCache(8), 0);
    hide Total, Sized, Inv, Bit, ClearBits, Zeros, SlabOk;
    EmptyCache(8);
    GrowKeeps(NewCache(8), 0);
    DoubleReturn(c);
  }
}
