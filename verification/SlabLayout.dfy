/**
 Where a slab's header, bitmap and objects lie inside its 64 KB blob.  Sizes and
 addresses are in bytes; a blob starts at a multiple of its own size.
 */
module SlabLayout {
  import opened Bits
  import opened Bitmap

  const BLOB: nat := 65536
  /** sizeof(struct slab) on a 64-bit machine. */
  const HEADER: nat := 56
  /** The numerator in `object_num`: 8 * (BLOB - HEADER) - 7. */
  const BITS: nat := 523833
  const U32: nat := 0x1_0000_0000
  /** From this size on the product in `object_num` wraps. */
  const WIDE: nat := 0x2000_0000

  /** `ALIGN_UP`, by masking: rounds up only for powers of two. */
  function AlignUp(x: nat, n: nat): (r: nat)
    requires n > 0
    ensures x <= r < x + n
  {
    AndSmallRight(x + n - 1, n - 1);
    x + n - 1 - And(x + n - 1, n - 1)
  }

  function AllocSize(objSize: nat): (a: nat)
    requires objSize > 0
    ensures objSize <= a < objSize + 8
  {
    AlignUp(objSize, 8)
  }

  /** `object_num`; the product is taken in 32 bits. */
  function ObjectNum(a: nat): nat {
    BITS / (8 * a % U32 + 1)
  }

  function BitmapSize(total: nat): (r: nat)
    ensures r == (total + 7) / 8
  {
    BytesOf(total);
    AlignUp(total, 8) / 8
  }

  /** Where the first object starts. */
  function Offset(objSize: nat): nat
    requires objSize > 0
  {
    AlignUp(HEADER + BitmapSize(ObjectNum(AllocSize(objSize))), objSize)
  }

  function Total(objSize: nat): nat
    requires objSize > 0
  {
    ObjectNum(AllocSize(objSize))
  }

  /** Sizes of which at least one object fits and whose product with 8 does not wrap. */
  predicate Sized(objSize: nat) {
    objSize > 0 && Total(objSize) > 0 && AllocSize(objSize) < WIDE
  }

  /** Where object `i` of the slab at `base` starts. */
  function Address(objSize: nat, base: nat, i: nat): nat
    requires objSize > 0
  {
    Nth(base + Offset(objSize), AllocSize(objSize), i)
  }

  /** Element `i` of an array of elements of size `a` at `start`. */
  function Nth(start: nat, a: nat, i: nat): nat {
    start + i * a
  }

  lemma {:induction false} AndSmallRight(x: nat, y: nat)
    ensures And(x, y) <= y
    decreases x
  {
    if x > 0 {
      AndSmallRight(x / 2, y / 2);
    }
  }

  /** Masking with 2^k - 1 leaves what aligning down takes off. */
  lemma {:induction false} AndLowMask(x: nat, k: nat)
    ensures x - And(x, Pow2(k) - 1) == Down(x, k)
    decreases k
  {
    if k == 0 {
      AndZero(x);
    } else {
      AndLowMask(x / 2, k - 1);
      AndOdd(x, Pow2(k - 1));
    }
  }

  /** On powers of two `ALIGN_UP` does what its name says. */
  lemma AlignUpAligned(x: nat, k: nat)
    ensures Aligned(AlignUp(x, Pow2(k)), k)
  {
    AndLowMask(x + Pow2(k) - 1, k);
    DownIdempotent(x + Pow2(k) - 1, k);
  }

  lemma RoundUpEight(x: nat)
    ensures AlignUp(x, 8) == (x + 7) / 8 * 8
  {
    assert Pow2(3) == 8;
    AndLowMask(x + 7, 3);
    DownIsMod(x + 7, 3);
  }

  lemma BytesOf(total: nat)
    ensures AlignUp(total, 8) / 8 == (total + 7) / 8
  {
    RoundUpEight(total);
  }

  /** Header, bitmap and all objects have room in the blob. */
  predicate HasRoom(a: nat) {
    Nth(HEADER + BitmapSize(ObjectNum(a)), a, ObjectNum(a)) <= BLOB
  }

  /** `object_num` leaves room for the header, the bitmap and all objects. */
  lemma Room(a: nat)
    requires a < WIDE
    ensures ObjectNum(a) > 0 ==> HasRoom(a)
  {
    NoWrap(a);
    Quotient(BITS, 8 * a + 1);
    var t := ObjectNum(a);
    hide ObjectNum;
    Filled(t, a);
  }

  lemma NoWrap(a: nat)
    requires a < WIDE
    ensures 8 * a % U32 == 8 * a
  {
  }

  lemma Quotient(x: nat, d: nat)
    requires d > 0
    ensures x / d * d <= x && (d <= x ==> x / d >= 1)
  {
    if d <= x && x / d == 0 {
      DivModUnique(x, d, 0, x % d);
      assert false;
    }
  }

  lemma Filled(t: nat, a: nat)
    requires t * (8 * a + 1) <= BITS
    ensures t > 0 ==> Nth(HEADER + BitmapSize(t), a, t) <= BLOB
  {
    assert t * (8 * a + 1) == 8 * (t * a) + t;
  }

  /** `t` objects of `a` bytes and their bits take up the blob, and one more would not fit. */
  predicate Takes(a: nat, t: nat) {
    t * (8 * a + 1) <= BITS < t * (8 * a + 1) + (8 * a + 1)
  }

  lemma NumberIs(a: nat, t: nat)
    requires a < WIDE && Takes(a, t)
    ensures ObjectNum(a) == t
  {
    NoWrap(a);
    DivModUnique(BITS, 8 * a + 1, t, BITS - t * (8 * a + 1));
  }

  /** Exactly the sizes for which the product does not wrap get room, if they get any object at all. */
  lemma RoomExact(a: nat)
    requires ObjectNum(a) > 0
    ensures HasRoom(a) <==> a < WIDE
  {
    if a < WIDE {
      Room(a);
    } else {
      hide ObjectNum;
      Spacing(HEADER + BitmapSize(ObjectNum(a)), a, 0, ObjectNum(a));
    }
  }

  /** Objects of 2^29 bytes: the code counts 523833 of them in a blob. */
  lemma WideObjects()
    ensures ObjectNum(WIDE) == BITS && !HasRoom(WIDE)
  {
    assert 8 * WIDE % U32 + 1 == 1;
    RoomExact(WIDE);
  }

  lemma Spacing(start: nat, a: nat, i: nat, j: nat)
    requires i < j
    ensures start <= Nth(start, a, i) && Nth(start, a, i) + a <= Nth(start, a, j)
  {
    var d := j - i - 1;
    calc {
      j * a;
      { assert j == i + d + 1; }
      (i + d + 1) * a;
      i * a + d * a + a;
    }
  }

  lemma IndexOf(start: nat, a: nat, i: nat)
    requires a > 0
    ensures (Nth(start, a, i) - start) / a == i
  {
    DivModUnique(i * a, a, i, 0);
  }

  lemma Around(base: nat, at: nat)
    requires base % BLOB == 0 && base <= at < base + BLOB
    ensures at - at % BLOB == base
  {
    DivModUnique(at, BLOB, base / BLOB, at - base);
  }

  /**
   For every object size: objects start past the header and bitmap and inside the blob, so
   aligning an object's address down to the blob size finds its slab, and dividing finds its index.
   */
  lemma StartsInBlob(objSize: nat, base: nat, i: nat)
    requires Sized(objSize) && i < Total(objSize) && base % BLOB == 0
    ensures HEADER + BitmapSize(Total(objSize)) <= Offset(objSize)
    ensures base + Offset(objSize) <= Address(objSize, base, i) < base + BLOB
    ensures Address(objSize, base, i) - Address(objSize, base, i) % BLOB == base
    ensures (Address(objSize, base, i) - base - Offset(objSize)) / AllocSize(objSize) == i
  {
    hide AlignUp, ObjectNum, BitmapSize;
    var a, o, t := AllocSize(objSize), Offset(objSize), Total(objSize);
    Room(a);
    Spacing(base + o, a, i, t);
    assert Nth(base + o, a, t) == base + o + t * a && Nth(HEADER + BitmapSize(t), a, t) <= BLOB;
    IndexOf(base + o, a, i);
    Around(base, Address(objSize, base, i));
  }

  /** Bytes that `ALIGN_UP` inserts before the first object, which `object_num` does not plan for. */
  function Padding(objSize: nat): nat
    requires objSize > 0
  {
    Offset(objSize) - (HEADER + BitmapSize(Total(objSize)))
  }

  /** Bytes that `object_num` leaves over. */
  function Slack(objSize: nat): nat
    requires Sized(objSize)
  {
    Room(AllocSize(objSize));
    BLOB - Nth(HEADER + BitmapSize(Total(objSize)), AllocSize(objSize), Total(objSize))
  }

  /** The padding fits into what is left over. */
  predicate Fits(objSize: nat)
    requires Sized(objSize)
  {
    Padding(objSize) <= Slack(objSize)
  }

  /** The last object ends inside the blob. */
  predicate LastEnds(objSize: nat)
    requires objSize > 0
  {
    Address(objSize, 0, Total(objSize)) <= BLOB
  }

  lemma FitsEnd(objSize: nat)
    requires Sized(objSize)
    ensures Fits(objSize) <==> LastEnds(objSize)
  {
    hide AllocSize, AlignUp, ObjectNum, BitmapSize;
    Room(AllocSize(objSize));
  }

  /** For every object size: all objects of a slab end inside its blob exactly when the padding fits. */
  lemma AllEndInside(objSize: nat, base: nat)
    requires Sized(objSize)
    ensures (forall i: nat | i < Total(objSize) :: EndsInside(objSize, base, i)) <==> Fits(objSize)
  {
    FitsEnd(objSize);
    var a, o, t := AllocSize(objSize), Offset(objSize), Total(objSize);
    hide AllocSize, Offset, Total, Fits;
    LastEnd(base + o, a, t);
    LastEnd(o, a, t);
    Shifted(base, o, a, t);
    if Fits(objSize) {
      forall i: nat | i < t
        ensures EndsInside(objSize, base, i)
      {
        Spacing(base + o, a, i, t);
      }
    } else {
      assert !EndsInside(objSize, base, t - 1);
    }
  }

  predicate EndsInside(objSize: nat, base: nat, i: nat)
    requires objSize > 0
  {
    Address(objSize, base, i) + AllocSize(objSize) <= base + BLOB
  }

  lemma LastEnd(start: nat, a: nat, t: nat)
    requires t > 0
    ensures Nth(start, a, t - 1) + a == Nth(start, a, t)
  {
    assert t * a == (t - 1) * a + a;
  }

  lemma Shifted(base: nat, o: nat, a: nat, t: nat)
    ensures Nth(base + o, a, t) == base + Nth(o, a, t)
  {
  }

  /** For every object size: only the last object of a slab can run past the blob. */
  lemma OnlyLastOverruns(objSize: nat, base: nat, i: nat)
    requires Sized(objSize) && i + 1 < Total(objSize) && base % BLOB == 0
    ensures EndsInside(objSize, base, i)
  {
    StartsInBlob(objSize, base, i + 1);
    hide AllocSize, Offset, Total;
    Spacing(base + Offset(objSize), AllocSize(objSize), i, i + 1);
  }

  lemma AndOdd2(x: nat, m: nat)
    requires m % 2 == 1
    ensures And(x, m) == x % 2 + 2 * And(x / 2, m / 2)
  {
    hide And;
    AndStep(x, m);
  }

  /** Masking with bits that end in 111 keeps the lowest three. */
  lemma AndSeven(x: nat, m: nat)
    requires m % 8 == 7
    ensures And(x, m) % 8 == x % 8
  {
    hide And;
    var y, n := x / 2, m / 2;
    var k := m / 8;
    DivModUnique(m, 2, 4 * k + 3, 1);
    DivModUnique(n, 2, 2 * k + 1, 1);
    DivModUnique(n / 2, 2, k, 1);
    AndOdd2(x, m);
    AndOdd2(y, n);
    AndOdd2(y / 2, n / 2);
    LowThree(x, And(x, m), And(y, n), And(y / 2, n / 2), And(y / 2 / 2, n / 2 / 2));
  }

  lemma LowThree(x: nat, a: nat, b: nat, c: nat, r: nat)
    requires a == x % 2 + 2 * b && b == x / 2 % 2 + 2 * c && c == x / 2 / 2 % 2 + 2 * r
    ensures a % 8 == x % 8
  {
    var y, z := x / 2, x / 2 / 2;
    var t := x % 2 + 2 * (y % 2) + 4 * (z % 2);
    DivModUnique(x, 8, z / 2, t);
    DivModUnique(a, 8, r, t);
  }

  /**
   Objects are multiples of 8 bytes apart, so they start at multiples of 8 exactly when the first
   one does; for sizes divisible by 8 it does.
   */
  lemma ObjectsAligned(objSize: nat, base: nat, i: nat)
    requires objSize > 0 && base % 8 == 0
    ensures AllocSize(objSize) % 8 == 0
    ensures Address(objSize, base, i) % 8 == 0 <==> Offset(objSize) % 8 == 0
    ensures objSize % 8 == 0 ==> Offset(objSize) % 8 == 0
  {
    hide AllocSize, Offset, Nth;
    SizeAligned(objSize);
    NthAligned(base, Offset(objSize), AllocSize(objSize), i);
    if objSize % 8 == 0 {
      StartAligned(objSize);
    }
  }

  lemma StartAligned(objSize: nat)
    requires objSize > 0 && objSize % 8 == 0
    ensures Offset(objSize) % 8 == 0
  {
    hide AllocSize, ObjectNum, BitmapSize, AlignUp;
    OffsetAligned(HEADER + BitmapSize(ObjectNum(AllocSize(objSize))), objSize);
  }

  lemma NthAligned(base: nat, o: nat, a: nat, i: nat)
    requires base % 8 == 0 && a % 8 == 0
    ensures Nth(base + o, a, i) % 8 == 0 <==> o % 8 == 0
  {
    EightTimes(i, a);
  }

  lemma SizeAligned(objSize: nat)
    requires objSize > 0
    ensures AllocSize(objSize) % 8 == 0
  {
    hide And;
    RoundUpEight(objSize);
    DivModUnique((objSize + 7) / 8 * 8, 8, (objSize + 7) / 8, 0);
  }

  lemma OffsetAligned(x: nat, n: nat)
    requires n > 0 && n % 8 == 0
    ensures AlignUp(x, n) % 8 == 0
  {
    hide And;
    AndSeven(x + n - 1, n - 1);
    Divides(x + n - 1, AlignUp(x, n));
  }

  lemma Divides(x: nat, y: nat)
    requires y <= x && (x - y) % 8 == x % 8
    ensures y % 8 == 0
  {
  }

  lemma EightTimes(i: nat, a: nat)
    requires a % 8 == 0
    ensures i * a % 8 == 0
  {
    var k := a / 8;
    assert i * a == (i * k) * 8;
  }

  /** Objects of 12 bytes start 4 bytes off. */
  lemma TwelveOff()
    ensures Sized(12) && Offset(12) == 564 && Address(12, 0, 0) % 8 == 4
  {
    hide And, ObjectNum, AlignUp, Pow2;
    RoundUpEight(12);
    NumberIs(16, 4060);
    TwelveMask();
    assert BitmapSize(4060) == 508;
    hide AllocSize, BitmapSize;
    assert Offset(12) == AlignUp(564, 12) == 564;
  }

  lemma TwelveMask()
    ensures AlignUp(564, 12) == 564
  {
    hide And;
    AndStep(575, 11);
    AndStep(287, 5);
    AndStep(143, 2);
    AndStep(71, 1);
    AndStep(35, 0);
    AndStep(17, 0);
    AndStep(8, 0);
    AndStep(4, 0);
    AndStep(2, 0);
    AndStep(1, 0);
    AndZero(0);
  }

  /**
   Two objects never overlap, whatever their size and whether or not they fit: an object that
   runs past its blob ends before the first object of the next slab.
   */
  lemma ObjectsDisjoint(objSize: nat, b: nat, i: nat, c: nat, j: nat)
    requires Sized(objSize) && i < Total(objSize) && j < Total(objSize) && b % BLOB == 0 && c % BLOB == 0
    requires b != c || i != j
    ensures Address(objSize, b, i) + AllocSize(objSize) <= Address(objSize, c, j)
         || Address(objSize, c, j) + AllocSize(objSize) <= Address(objSize, b, i)
  {
    var a, o, t := AllocSize(objSize), Offset(objSize), Total(objSize);
    Room(a);
    hide AlignUp, ObjectNum, BitmapSize, Offset, AllocSize, Total;
    if b == c {
      if i < j { Spacing(b + o, a, i, j); } else { Spacing(b + o, a, j, i); }
    } else {
      Spacing(b + o, a, i, t);
      Spacing(c + o, a, j, t);
      if b < c { Apart(b, c); } else { Apart(c, b); }
    }
  }

  lemma Apart(b: nat, c: nat)
    requires b % BLOB == 0 && c % BLOB == 0 && b < c
    ensures b + BLOB <= c
  {
  }

  /** Objects of a power-of-two size fit. */
  lemma PowerOfTwoFits(k: nat)
    requires k <= 15
    ensures Sized(Pow2(k)) && Fits(Pow2(k))
  {
    PowerEnds(k);
    PowerTotal(k);
    hide Pow2, Total, Fits, LastEnds, Sized;
    FitsEnd(Pow2(k));
  }

  lemma PowerTotal(k: nat)
    requires k <= 15
    ensures Sized(Pow2(k))
  {
    if k < 3 {
      assert Pow2(k) in [1, 2, 4];
      hide Pow2, AllocSize, ObjectNum;
      RoundToEight(Pow2(k));
    } else {
      hide Pow2, AllocSize, ObjectNum;
      MultipleOfEight(k);
    }
  }

  lemma PowerEnds(k: nat)
    requires k <= 15
    ensures LastEnds(Pow2(k))
  {
    if k < 3 {
      assert Pow2(k) in [1, 2, 4];
      TinyFits(Pow2(k));
    } else {
      LargeFits(k);
    }
  }

  lemma LargeFits(k: nat)
    requires 3 <= k <= 15
    ensures LastEnds(Pow2(k))
  {
    hide And, Pow2, Down, Aligned, ObjectNum, BitmapSize, AlignUp, AllocSize, Nth;
    var n := Pow2(k);
    var h := HEADER + BitmapSize(ObjectNum(n));
    MultipleOfEight(k);
    Room(n);
    AlignUpMultiple(h, k);
    assert Offset(n) == AlignUp(h, n);
    WholeEnd(AlignUp(h, n), ObjectNum(n), Pow2(16 - k), n, h);
  }

  lemma AlignUpMultiple(x: nat, k: nat)
    ensures AlignUp(x, Pow2(k)) % Pow2(k) == 0
  {
    hide AlignUp, Pow2;
    AlignUpAligned(x, k);
    DownIsMod(AlignUp(x, Pow2(k)), k);
  }

  lemma WholeEnd(o: nat, t: nat, y: nat, n: nat, h: nat)
    requires n > 0 && o % n == 0 && o < h + n && Nth(h, n, t) <= BLOB == Nth(0, n, y)
    ensures Nth(o, n, t) <= BLOB
  {
    WholeNumber(o, t, y, n);
  }

  lemma TinyFits(n: nat)
    requires n in [1, 2, 4]
    ensures LastEnds(n)
  {
    RoundToEight(n);
    hide AllocSize, ObjectNum, AlignUp;
    assert Offset(n) < 1064 + n;
    hide Offset;
    assert Nth(Offset(n), 8, 8058) == Offset(n) + 64464;
  }

  lemma RoundToEight(n: nat)
    requires n in [1, 2, 4]
    ensures AllocSize(n) == 8 && ObjectNum(8) == 8058
  {
    hide And, ObjectNum;
    NumberIs(8, 8058);
    RoundUpEight(n);
  }

  lemma MultipleOfEight(k: nat)
    requires 3 <= k <= 15
    ensures Pow2(k) <= 32768 && AllocSize(Pow2(k)) == Pow2(k) && ObjectNum(Pow2(k)) > 0
    ensures Nth(0, Pow2(k), Pow2(16 - k)) == BLOB
  {
    PowersAround(k);
    hide Pow2;
    AllocUnchanged(Pow2(k));
    hide AllocSize;
    SomeFit(Pow2(k));
  }

  lemma PowersAround(k: nat)
    requires 3 <= k <= 15
    ensures Pow2(k) % 8 == 0 && Pow2(k) <= 32768 && Nth(0, Pow2(k), Pow2(16 - k)) == BLOB
  {
    BlobIsPower();
    EightBelow(k);
    hide Pow2;
    Pow2Monotone(k, 16);
    Pow2Add(16 - k, k);
  }

  lemma EightBelow(k: nat)
    requires 3 <= k
    ensures Pow2(k) % 8 == 0
  {
    assert Pow2(k) == 2 * Pow2(k - 1) && Pow2(k - 1) == 2 * Pow2(k - 2) && Pow2(k - 2) == 2 * Pow2(k - 3);
    hide Pow2;
    DivModUnique(Pow2(k), 8, Pow2(k - 3), 0);
  }

  lemma SomeFit(a: nat)
    requires a <= 32768
    ensures ObjectNum(a) > 0
  {
    NoWrap(a);
    Quotient(BITS, 8 * a + 1);
  }

  lemma WholeNumber(o: nat, t: nat, y: nat, n: nat)
    requires n > 0 && o % n == 0 && Nth(o, n, t) < Nth(0, n, y) + n
    ensures Nth(o, n, t) <= Nth(0, n, y)
  {
    var x := o / n + t;
    assert x * n == o / n * n + t * n;
    if x > y {
      Spacing(0, n, y, x);
    }
  }

  lemma BlobIsPower()
    ensures Pow2(16) == BLOB
  {
    Powers();
    Pow2Add(8, 8);
  }

  /** The object sizes of the `kmalloc` pools. */
  const KMALLOC_SIZES: seq<nat> := [8, 16, 24, 32, 48, 64, 96, 128, 192, 256, 384, 512, 768, 1024, 1536, 2048,
      3072, 4096]

  /** Among the `kmalloc` pools exactly those of 24 and 48 bytes have a last object that runs past its blob. */
  lemma KmallocFits(k: nat)
    requires k < |KMALLOC_SIZES|
    ensures var n := KMALLOC_SIZES[k]; Sized(n) && (Fits(n) <==> n != 24 && n != 48)
  {
    var n := KMALLOC_SIZES[k];
    PoolTotal(n);
    hide LastEnds, Fits, Total, Sized;
    FitsEnd(n);
    if n in [24, 48, 96, 192, 384, 768, 1536, 3072] {
      OtherPool(n);
    } else {
      PoolPower(n);
    }
  }

  lemma PoolTotal(n: nat)
    requires n > 0 && n % 8 == 0 && n <= 32768
    ensures Sized(n)
  {
    AllocUnchanged(n);
    SomeFit(n);
  }

  /**
   The caches outside `kmalloc`: inodes (176 bytes) and directory entries (168) overrun their
   blobs, by 32 and 88 bytes; files (96) and super blocks (128) do not.
   */
  lemma FileSystemCaches()
    ensures Address(176, 0, Total(176)) == BLOB + 32 && Address(168, 0, Total(168)) == BLOB + 88
    ensures Sized(176) && !Fits(176) && Sized(168) && !Fits(168)
    ensures Sized(96) && Fits(96) && Sized(128) && Fits(128)
  {
    InodeEnd();
    DentryEnd();
    PoolTotal(176);
    PoolTotal(168);
    PoolTotal(96);
    Pool96();
    PoolTotal(128);
    PoolPower(128);
    hide Fits, Address, Total, Sized;
    FitsEnd(176);
    FitsEnd(168);
    FitsEnd(96);
    FitsEnd(128);
  }

  lemma InodeEnd()
    ensures Address(176, 0, Total(176)) == BLOB + 32
  {
    InodeMask();
    hide And, Address, Total, AllocSize;
    LastEndsAt(176, 371, 6);
  }

  lemma DentryEnd()
    ensures Address(168, 0, Total(168)) == BLOB + 88
  {
    DentryMask();
    hide And, Address, Total, AllocSize;
    LastEndsAt(168, 389, 0);
  }

  /** Where the last object of a slab ends, from the number of objects and the bits that `ALIGN_UP` masks off. */
  lemma LastEndsAt(n: nat, total: nat, mask: nat)
    requires 0 < n < WIDE && n % 8 == 0 && Takes(n, total)
    requires mask == And(HEADER + (total + 7) / 8 + n - 1, n - 1)
    ensures Offset(n) + mask == HEADER + (total + 7) / 8 + n - 1
    ensures Total(n) == total && Address(n, 0, Total(n)) == Nth(Offset(n), n, total)
  {
    hide And, AllocSize, ObjectNum, Nth, Takes;
    AllocUnchanged(n);
    NumberIs(n, total);
  }

  lemma InodeMask()
    ensures And(278, 175) == 6
  {
    hide And;
    AndStep(278, 175);
    AndStep(139, 87);
    AndStep(69, 43);
    AndStep(34, 21);
    AndStep(17, 10);
    AndStep(8, 5);
    AndStep(4, 2);
    AndStep(2, 1);
    AndZero(1);
  }

  lemma DentryMask()
    ensures And(272, 167) == 0
  {
    hide And;
    AndStep(272, 167);
    AndStep(136, 83);
    AndStep(68, 41);
    AndStep(34, 20);
    AndStep(17, 10);
    AndStep(8, 5);
    AndStep(4, 2);
    AndStep(2, 1);
    AndZero(1);
  }

  lemma AndStep(x: nat, y: nat)
    ensures And(x, y) == (if x % 2 == 1 && y % 2 == 1 then 1 else 0) + 2 * And(x / 2, y / 2)
  {
  }

  lemma OtherPool(n: nat)
    requires n in [24, 48, 96, 192, 384, 768, 1536, 3072]
    ensures LastEnds(n) <==> n != 24 && n != 48
  {
    hide LastEnds;
    match n
    case 24 => Pool24();
    case 48 => Pool48();
    case 96 => Pool96();
    case 192 => Pool192();
    case 384 => Pool384();
    case 768 => Pool768();
    case 1536 => Pool1536();
    case 3072 => Pool3072();
  }

  lemma Pool24()
    ensures Total(24) == 2714 && Address(24, 0, 2714) == BLOB + 16 && !LastEnds(24)
  {
    PoolPowers();
    hide Pow2, And, AllocSize, ObjectNum, Total, Address;
    ThreeMaskIs(3, 8, 52, 3);
    LastEndsAt(24, 2714, 3);
  }

  lemma Pool48()
    ensures !LastEnds(48)
  {
    PoolPowers();
    hide Pow2, And, AllocSize, ObjectNum, Total, Address;
    ThreeMaskIs(4, 16, 17, 1);
    LastEndsAt(48, 1360, 1);
  }

  lemma Pool96()
    ensures LastEnds(96)
  {
    PoolPowers();
    hide Pow2, And, AllocSize, ObjectNum, Total, Address;
    ThreeMaskIs(5, 32, 7, 13);
    LastEndsAt(96, 681, 77);
  }

  lemma Pool192()
    ensures LastEnds(192)
  {
    PoolPowers();
    hide Pow2, And, AllocSize, ObjectNum, Total, Address;
    ThreeMaskIs(6, 64, 4, 34);
    LastEndsAt(192, 340, 34);
  }

  lemma Pool384()
    ensures LastEnds(384)
  {
    PoolPowers();
    hide Pow2, And, AllocSize, ObjectNum, Total, Address;
    ThreeMaskIs(7, 128, 3, 77);
    LastEndsAt(384, 170, 333);
  }

  lemma Pool768()
    ensures LastEnds(768)
  {
    PoolPowers();
    hide Pow2, And, AllocSize, ObjectNum, Total, Address;
    ThreeMaskIs(8, 256, 3, 66);
    LastEndsAt(768, 85, 578);
  }

  lemma Pool1536()
    ensures LastEnds(1536)
  {
    PoolPowers();
    hide Pow2, And, AllocSize, ObjectNum, Total, Address;
    ThreeMaskIs(9, 512, 3, 61);
    LastEndsAt(1536, 42, 1085);
  }

  lemma Pool3072()
    ensures LastEnds(3072)
  {
    PoolPowers();
    hide Pow2, And, AllocSize, ObjectNum, Total, Address;
    ThreeMaskIs(10, 1024, 3, 58);
    LastEndsAt(3072, 21, 2106);
  }

  /** Masking with 3 * h - 1, for a power of two h. */
  lemma ThreeMaskIs(j: nat, h: nat, q: nat, r: nat)
    requires h == Pow2(j) && r < h
    ensures And(q * h + r, 3 * h - 1) == r + if q / 2 % 2 == 1 then 2 * h else 0
  {
    var x := q * h + r;
    hide And, Pow2, Down, Shr;
    AndThree(x, j);
    DownIsMod(x, j);
    ShrIsDiv(x, j);
    DivModUnique(x, h, q, r);
  }

  /** Masking with 3 * 2^j - 1. */
  lemma {:induction false} AndThree(x: nat, j: nat)
    ensures And(x, 3 * Pow2(j) - 1) == x - Down(x, j) + if Shr(x, j) / 2 % 2 == 1 then 2 * Pow2(j) else 0
    decreases j
  {
    if j == 0 {
      AndTwo(x);
    } else {
      hide And;
      AndThree(x / 2, j - 1);
      AndOdd(x, 3 * Pow2(j - 1));
      assert 3 * Pow2(j) == 2 * (3 * Pow2(j - 1));
    }
  }

  lemma AndTwo(x: nat)
    ensures And(x, 2) == if x / 2 % 2 == 1 then 2 else 0
  {
    AndZero(x / 4);
    assert And(x / 2, 1) == (if x / 2 % 2 == 1 then 1 else 0) + 2 * And(x / 2 / 2, 0);
  }

  /** Masking with an odd number takes the low bit as it is. */
  lemma AndOdd(x: nat, h: nat)
    requires h > 0
    ensures And(x, 2 * h - 1) == x % 2 + 2 * And(x / 2, h - 1)
  {
    var m := 2 * h - 1;
    assert m / 2 == h - 1 && m % 2 == 1;
  }

  lemma AllocUnchanged(n: nat)
    requires n > 0 && n % 8 == 0
    ensures AllocSize(n) == n
  {
    RoundUpEight(n);
  }

  lemma PoolPower(n: nat)
    requires n in [8, 16, 32, 64, 128, 256, 512, 1024, 2048, 4096]
    ensures LastEnds(n)
  {
    PoolPowers();
    hide LastEnds, Pow2;
    var k :=
      match n
      case 8 => 3 case 16 => 4 case 32 => 5 case 64 => 6 case 128 => 7
      case 256 => 8 case 512 => 9 case 1024 => 10 case 2048 => 11 case _ => 12;
    PowerEnds(k);
  }

  lemma PoolPowers()
    ensures Pow2(3) == 8 && Pow2(4) == 16 && Pow2(5) == 32 && Pow2(6) == 64 && Pow2(7) == 128
    ensures Pow2(8) == 256 && Pow2(9) == 512 && Pow2(10) == 1024 && Pow2(11) == 2048 && Pow2(12) == 4096
  {
    assert Pow2(8) == 2 * Pow2(7) && Pow2(9) == 2 * Pow2(8) && Pow2(10) == 2 * Pow2(9);
    assert Pow2(11) == 2 * Pow2(10) && Pow2(12) == 2 * Pow2(11);
  }
}
