/** The slab bitmaps of `bitmap.h`: one bit per object, packed into bytes. */
module Bitmap {
  import opened Bits
  import opened Memory

  /** Bit `i` of the map. */
  predicate Bit(bm: seq<Byte>, i: nat)
    requires i / 8 < |bm|
  {
    Shr(bm[i / 8], i % 8) % 2 == 1
  }

  /** `bitmap_get`: out of range reads as 0. */
  predicate Get(bm: seq<Byte>, len: nat, i: nat)
    requires len <= 8 * |bm|
  {
    i < len && Bit(bm, i)
  }

  /** `bitmap_set` and `bitmap_clear`; out of range is ignored. */
  function Set(bm: seq<Byte>, len: nat, i: nat): (r: seq<Byte>)
    requires len <= 8 * |bm|
    ensures |r| == |bm|
  {
    if i >= len then bm
    else
      OrBound(bm[i / 8], i % 8);
      bm[i / 8 := Or(bm[i / 8], Pow2(i % 8))]
  }

  function Clear(bm: seq<Byte>, len: nat, i: nat): (r: seq<Byte>)
    requires len <= 8 * |bm|
    ensures |r| == |bm|
  {
    if i >= len then bm
    else
      PowBound(i % 8);
      AndSmall(bm[i / 8], 255 - Pow2(i % 8));
      bm[i / 8 := And(bm[i / 8], 255 - Pow2(i % 8))]
  }

  // ----- single bits of bytes

  /** Bit `j` of a number. */
  predicate NBit(x: nat, j: nat) {
    Shr(x, j) % 2 == 1
  }

  lemma {:induction false} NBitOr(x: nat, y: nat, j: nat)
    ensures NBit(Or(x, y), j) <==> NBit(x, j) || NBit(y, j)
    decreases j
  {
    if j > 0 {
      NBitOr(x / 2, y / 2, j - 1);
    }
    if x == 0 && y == 0 {
      NBitZero(j);
    }
  }

  lemma {:induction false} NBitAnd(x: nat, y: nat, j: nat)
    ensures NBit(And(x, y), j) <==> NBit(x, j) && NBit(y, j)
    decreases j
  {
    if j > 0 {
      NBitAnd(x / 2, y / 2, j - 1);
    }
    if x == 0 {
      NBitZero(j);
    }
  }

  lemma {:induction false} NBitZero(j: nat)
    ensures !NBit(0, j)
  {
    if j > 0 {
      NBitZero(j - 1);
    }
  }

  lemma {:induction false} NBitPow(k: nat, j: nat)
    ensures NBit(Pow2(k), j) <==> j == k
    decreases j
  {
    if j > 0 && k > 0 {
      NBitPow(k - 1, j - 1);
    } else if j > 0 {
      NBitZero(j - 1);
    }
  }

  /** Complementing the low `w` bits. */
  lemma {:induction false} NBitNot(x: nat, w: nat, j: nat)
    requires j < w && x < Pow2(w)
    ensures NBit(Pow2(w) - 1 - x, j) <==> !NBit(x, j)
    decreases w
  {
    var y := Pow2(w) - 1 - x;
    assert y / 2 == Pow2(w - 1) - 1 - x / 2 && y % 2 == 1 - x % 2;
    if j > 0 {
      NBitNot(x / 2, w - 1, j - 1);
    }
  }

  lemma {:induction false} OrSmall(x: nat, y: nat, w: nat)
    requires x < Pow2(w) && y < Pow2(w)
    ensures Or(x, y) < Pow2(w)
    decreases w
  {
    if w > 0 {
      OrSmall(x / 2, y / 2, w - 1);
    }
  }

  lemma {:induction false} AndSmall(x: nat, y: nat)
    ensures And(x, y) <= x
    decreases x
  {
    if x > 0 {
      AndSmall(x / 2, y / 2);
    }
  }

  lemma Powers()
    ensures Pow2(8) == 256
  {
    assert Pow2(4) == 16;
    Pow2Add(4, 4);
  }

  lemma OrBound(x: nat, k: nat)
    requires x < 256 && k < 8
    ensures Or(x, Pow2(k)) < 256
  {
    Powers();
    Pow2Monotone(k, 7);
    Pow2Monotone(7, 8);
    OrSmall(x, Pow2(k), 8);
  }

  lemma PowBound(k: nat)
    requires k < 8
    ensures Pow2(k) <= 128
  {
    Powers();
    Pow2Monotone(k, 7);
    assert Pow2(8) == 2 * Pow2(7);
  }

  // ----- what setting and clearing do

  lemma SetBit(bm: seq<Byte>, len: nat, i: nat, j: nat)
    requires len <= 8 * |bm| && i < len && j / 8 < |bm|
    ensures Bit(Set(bm, len, i), j) <==> j == i || Bit(bm, j)
  {
    if j / 8 == i / 8 {
      NBitOr(bm[i / 8], Pow2(i % 8), j % 8);
      NBitPow(i % 8, j % 8);
    }
  }

  lemma ClearBit(bm: seq<Byte>, len: nat, i: nat, j: nat)
    requires len <= 8 * |bm| && i < len && j / 8 < |bm|
    ensures Bit(Clear(bm, len, i), j) <==> j != i && Bit(bm, j)
  {
    if j / 8 == i / 8 {
      PowBound(i % 8);
      Powers();
      NBitAnd(bm[i / 8], 255 - Pow2(i % 8), j % 8);
      NBitNot(Pow2(i % 8), 8, j % 8);
      NBitPow(i % 8, j % 8);
    }
  }

  /** The clear bits among the first `len`. */
  function ClearBits(bm: seq<Byte>, len: nat): (r: set<nat>)
    requires len <= 8 * |bm|
  {
    set i: nat | 0 <= i < len && !Bit(bm, i)
  }

  lemma SetClearBits(bm: seq<Byte>, len: nat, i: nat)
    requires len <= 8 * |bm| && i in ClearBits(bm, len)
    ensures ClearBits(Set(bm, len, i), len) == ClearBits(bm, len) - {i}
    ensures |ClearBits(Set(bm, len, i), len)| == |ClearBits(bm, len)| - 1
  {
    forall j: nat | j < len
      ensures Bit(Set(bm, len, i), j) <==> j == i || Bit(bm, j)
    {
      SetBit(bm, len, i, j);
    }
    assert ClearBits(Set(bm, len, i), len) == ClearBits(bm, len) - {i};
  }

  lemma ClearClearBits(bm: seq<Byte>, len: nat, i: nat)
    requires len <= 8 * |bm| && i < len && Bit(bm, i)
    ensures ClearBits(Clear(bm, len, i), len) == ClearBits(bm, len) + {i}
    ensures |ClearBits(Clear(bm, len, i), len)| == |ClearBits(bm, len)| + 1
  {
    forall j: nat | j < len
      ensures Bit(Clear(bm, len, i), j) <==> j != i && Bit(bm, j)
    {
      ClearBit(bm, len, i, j);
    }
    assert ClearBits(Clear(bm, len, i), len) == ClearBits(bm, len) + {i};
  }

  lemma ClearBitsNext(bm: seq<Byte>, n: nat)
    requires n < 8 * |bm|
    ensures |ClearBits(bm, n + 1)| == |ClearBits(bm, n)| + if Bit(bm, n) then 0 else 1
  {
    assert ClearBits(bm, n + 1) == ClearBits(bm, n) + if Bit(bm, n) then {} else {n};
  }

  lemma NoClearBits(bm: seq<Byte>)
    ensures ClearBits(bm, 0) == {}
  {
  }

  lemma {:induction false} ClearCount(bm: seq<Byte>, len: nat)
    requires len <= 8 * |bm|
    ensures |ClearBits(bm, len)| <= len
  {
    if len > 0 {
      ClearCount(bm, len - 1);
      ClearBitsNext(bm, len - 1);
    }
  }

  lemma {:induction false} ZeroedBits(n: nat, len: nat)
    requires len <= 8 * n
    ensures forall i: nat | i < 8 * n :: !Bit(Zeros(n), i)
    ensures |ClearBits(Zeros(n), len)| == len
  {
    forall i: nat | i < 8 * n
      ensures !Bit(Zeros(n), i)
    {
      NBitZero(i % 8);
    }
    if len > 0 {
      ZeroedBits(n, len - 1);
      hide Bit, ClearBits;
      ClearBitsNext(Zeros(n), len - 1);
    }
  }

  // ----- the search

  lemma {:induction false} NBitHigh(x: nat, j: nat)
    requires x < Pow2(j)
    ensures !NBit(x, j)
    decreases j
  {
    if j > 0 {
      NBitHigh(x / 2, j - 1);
    }
  }

  /** Masking keeps the low `t` bits. */
  lemma NBitMask(x: nat, t: nat, j: nat)
    ensures NBit(And(x, Pow2(t) - 1), j) <==> j < t && NBit(x, j)
  {
    hide NBit, And, Pow2;
    NBitAnd(x, Pow2(t) - 1, j);
    LowMaskBit(t, j);
  }

  /** Position of the lowest set bit. */
  method LowestOne(x: Byte) returns (off: nat)
    requires x != 0
    ensures off < 8 && NBit(x, off) && forall j: nat | j < off :: !NBit(x, j)
  {
    off := 0;
    var b: nat := x;
    while b % 2 == 0
      invariant b == Shr(x, off) && b != 0 && off < 8
      invariant forall j: nat | j < off :: !NBit(x, j)
      decreases b
    {
      assert !NBit(x, off);
      ShrShr(x, off, 1);
      assert Shr(Shr(x, off), 1) == Shr(b / 2, 0);
      if off == 7 {
        ShrIsDiv(x, 8);
        Powers();
      }
      b := b / 2;
      off := off + 1;
    }
  }

  /** The lowest clear bit from `start` on, or `len` when there is none. */
  function NextClear(bm: seq<Byte>, len: nat, start: nat): (r: nat)
    requires len <= 8 * |bm|
    ensures r <= len && (start <= len ==> start <= r) && (r < len ==> !Bit(bm, r))
    ensures forall j: nat | start <= j < r :: Bit(bm, j)
    decreases len - start
  {
    if start >= len then len
    else if !Bit(bm, start) then start
    else NextClear(bm, len, start + 1)
  }

  /** The search in two parts. */
  lemma {:induction false} NextClearCut(bm: seq<Byte>, mid: nat, len: nat, start: nat)
    requires start <= mid <= len <= 8 * |bm|
    ensures var m := NextClear(bm, mid, start);
            NextClear(bm, len, start) == if m < mid then m else NextClear(bm, len, mid)
    decreases mid - start
  {
    hide Bit;
    if start < mid {
      NextClearCut(bm, mid, len, start + 1);
    }
  }

  /** The end of the byte of `start`. */
  function Stop(start: nat): (r: nat)
    ensures start < r
  {
    8 * (start / 8) + 8
  }

  /**
   What the search returns.  The byte of `start` is looked at to its end, even when the map
   ends earlier, and a bit found in it is moved up by the bit offset of `start`.
   */
  function Found(bm: seq<Byte>, len: nat, start: nat): nat
    requires len <= 8 * |bm|
  {
    if start >= len then len
    else
      var e := NextClear(bm, Stop(start), start);
      if e < Stop(start) then e + start % 8 else NextClear(bm, len, start)
  }

  /**
   The search is right exactly when `start` is past the end, when its byte is full from there
   on, or from a byte boundary when the first clear bit of the byte is not behind the map's end.
   Otherwise it returns that bit moved up by the bit offset of `start`.
   */
  lemma FoundExact(bm: seq<Byte>, len: nat, start: nat)
    requires start < len <= 8 * |bm|
    ensures var stop := 8 * (start / 8) + 8;
            var e := NextClear(bm, stop, start);
            && ((Found(bm, len, start) == NextClear(bm, len, start)) <==> (e == stop || (start % 8 == 0 && e <= len)))
            && (e < stop ==> Found(bm, len, start) == e + start % 8)
  {
    hide Bit, NextClear;
    if Stop(start) <= len {
      NextClearCut(bm, Stop(start), len, start);
    } else {
      NextClearCut(bm, len, Stop(start), start);
    }
  }

  /** From bit 1 of an empty byte the search returns bit 2. */
  lemma FoundTwice()
    ensures NextClear([0], 8, 1) == 1 && Found([0], 8, 1) == 2
  {
    NBitZero(1);
  }

  /** In a full map of three bits, with the next bit of its byte set too, the search returns 4. */
  lemma FoundBehind()
    ensures NextClear([0x0F], 3, 0) == 3 && Found([0x0F], 3, 0) == 4
  {
    var bm: seq<Byte> := [0x0F];
    assert Bit(bm, 0) && Bit(bm, 1) && Bit(bm, 2) && Bit(bm, 3) && !Bit(bm, 4);
    hide Bit;
    assert NextClear(bm, 8, 4) == 4;
    assert NextClear(bm, 8, 2) == NextClear(bm, 8, 3) == 4;
    assert NextClear(bm, 8, 0) == NextClear(bm, 8, 1) == 4;
    assert NextClear(bm, 3, 2) == NextClear(bm, 3, 3) == 3;
    assert NextClear(bm, 3, 0) == NextClear(bm, 3, 1) == 3;
  }

  /** `bitmap_find_next_clear`. */
  method FindNextClear(bm: seq<Byte>, len: nat, start: nat) returns (r: nat)
    requires |bm| == (len + 7) / 8
    ensures r == Found(bm, len, start)
  {
    if start >= len {
      return len;
    }
    var at, off := start / 8, start % 8;
    StartMask(off);
    hide Bit, NBit, NextClear, And, Pow2, Window;
    AndSmall(255 - bm[at], 256 - Pow2(off));
    var b: Byte := And(255 - bm[at], 256 - Pow2(off));
    StartWindow(bm[at], off);
    if b != 0 {
      var low := LowestOne(b);
      ByteNext(bm, at, off, 8, b, low);
      return 8 * at + off + low;
    }
    ByteNext(bm, at, off, 8, b, 8);
    r := ScanLater(bm, len, at + 1);
    FullStart(bm, len, start);
  }

  /** The loop over the bytes behind that of the start, the last one masked at the end of the map. */
  method ScanLater(bm: seq<Byte>, len: nat, from: nat) returns (r: nat)
    requires |bm| == (len + 7) / 8 && from <= |bm|
    ensures r == NextClear(bm, len, 8 * from)
  {
    hide Bit, NBit, NextClear, And, Pow2, Window;
    var maxByte := (len + 7) / 8;
    for i := from to maxByte
      invariant NextClear(bm, len, 8 * from) == NextClear(bm, len, 8 * i)
    {
      var b: Byte := 255 - bm[i];
      ghost var tail := Tail(len, i);
      if i == maxByte - 1 {
        var tailBits := len % 8;
        if tailBits != 0 {
          AndSmall(b, Pow2(tailBits) - 1);
          b := And(b, Pow2(tailBits) - 1);
        }
      }
      TailWindow(bm[i], tail);
      if b != 0 {
        var low := LowestOne(b);
        ByteNext(bm, i, 0, tail, b, low);
        NextClearCut(bm, 8 * i + tail, len, 8 * i);
        return 8 * i + low;
      }
      ByteNext(bm, i, 0, tail, b, tail);
      NextClearCut(bm, 8 * i + tail, len, 8 * i);
      PastEnd(bm, len, 8 * i + tail, 8 * i + 8);
    }
    PastEnd(bm, len, len, 8 * maxByte);
    r := len;
  }

  /** How many bits of byte `i` are in the map. */
  function Tail(len: nat, i: nat): (r: nat)
    requires i < (len + 7) / 8
    ensures 0 < r <= 8 && 8 * i + r <= len && (r < 8 ==> 8 * i + r == len)
  {
    if i == (len + 7) / 8 - 1 && len % 8 != 0 then len % 8 else 8
  }

  lemma PastEnd(bm: seq<Byte>, len: nat, a: nat, b: nat)
    requires len <= 8 * |bm| && (a == b || (a >= len && b >= len))
    ensures NextClear(bm, len, a) == NextClear(bm, len, b)
    ensures a >= len ==> NextClear(bm, len, a) == len
  {
    hide Bit;
  }

  /** When the byte of the start has no clear bit, the search goes on at its end. */
  lemma FullStart(bm: seq<Byte>, len: nat, start: nat)
    requires start < len <= 8 * |bm| && NextClear(bm, Stop(start), start) == Stop(start)
    ensures Found(bm, len, start) == NextClear(bm, len, Stop(start))
  {
    hide Bit, NextClear;
    if Stop(start) <= len {
      NextClearCut(bm, Stop(start), len, start);
    } else {
      NextClearCut(bm, len, Stop(start), start);
      PastEnd(bm, len, Stop(start), Stop(start));
    }
  }

  // ----- one byte

  /** Of the clear bits of `x`, `b` shows those from `lo` up to `hi`. */
  ghost predicate Window(x: Byte, lo: nat, hi: nat, b: nat) {
    forall j: nat | j < 8 :: NBit(b, j) <==> lo <= j < hi && !NBit(x, j)
  }

  lemma StartMask(off: nat)
    requires off < 8
    ensures 0 <= 256 - Pow2(off) < 256
  {
    PowBound(off);
  }

  lemma StartWindow(x: Byte, off: nat)
    requires off < 8 && Pow2(off) <= 256
    ensures Window(x, off, 8, And(255 - x, 256 - Pow2(off)))
  {
    var b := And(255 - x, 256 - Pow2(off));
    forall j: nat | j < 8
      ensures NBit(b, j) <==> off <= j < 8 && !NBit(x, j)
    {
      hide NBit, And, Pow2;
      StartBit(x, off, j);
    }
    hide NBit, And, Pow2;
    assert Window(x, off, 8, b);
  }

  lemma StartBit(x: Byte, off: nat, j: nat)
    requires off < 8 && j < 8 && Pow2(off) <= 256
    ensures NBit(And(255 - x, 256 - Pow2(off)), j) <==> off <= j && !NBit(x, j)
  {
    Powers();
    hide NBit, And, Pow2;
    NBitAnd(255 - x, 256 - Pow2(off), j);
    NBitNot(x, 8, j);
    NBitNot(Pow2(off) - 1, 8, j);
    LowMaskBit(off, j);
  }

  lemma LowMaskBit(t: nat, j: nat)
    ensures NBit(Pow2(t) - 1, j) <==> j < t
  {
    hide NBit, Pow2;
    if j < t {
      NBitZero(j);
      NBitNot(0, t, j);
    } else {
      Pow2Monotone(t, j);
      NBitHigh(Pow2(t) - 1, j);
    }
  }

  lemma TailWindow(x: Byte, tail: nat)
    requires 0 < tail <= 8
    ensures Window(x, 0, tail, if tail == 8 then 255 - x else And(255 - x, Pow2(tail) - 1))
  {
    var b := if tail == 8 then 255 - x else And(255 - x, Pow2(tail) - 1);
    Powers();
    hide NBit, And, Pow2;
    forall j: nat | j < 8
      ensures NBit(b, j) <==> 0 <= j < tail && !NBit(x, j)
    {
      NBitNot(x, 8, j);
      NBitMask(255 - x, tail, j);
    }
    assert Window(x, 0, tail, b);
  }

  /** The first clear bit of byte `i` among its bits `lo` .. `hi`, from what the window shows. */
  lemma ByteNext(bm: seq<Byte>, i: nat, lo: nat, hi: nat, b: nat, low: nat)
    requires i < |bm| && lo <= hi <= 8 && Window(bm[i], lo, hi, b)
    requires if b == 0 then low == hi else low < 8 && NBit(b, low) && forall j: nat | j < low :: !NBit(b, j)
    ensures NextClear(bm, 8 * i + hi, 8 * i + lo) == 8 * i + low
    ensures b != 0 ==> lo <= low < hi
  {
    hide NBit, Bit, NextClear;
    assert b != 0 ==> NBit(b, low);
    forall k: nat | 8 * i <= k < 8 * i + 8
      ensures Bit(bm, k) == NBit(bm[i], k - 8 * i)
    {
      ByteBit(bm, i, k);
    }
    forall k: nat | 8 * i + lo <= k < 8 * i + low
      ensures Bit(bm, k)
    {
      var j := k - 8 * i;
      NBitZero(j);
      assert NBit(b, j) <==> lo <= j < hi && !NBit(bm[i], j);
    }
    NextClearIs(bm, 8 * i + hi, 8 * i + lo, 8 * i + low);
  }

  lemma ByteBit(bm: seq<Byte>, i: nat, k: nat)
    requires i < |bm| && 8 * i <= k < 8 * i + 8
    ensures Bit(bm, k) == NBit(bm[i], k - 8 * i)
  {
    assert k / 8 == i && k % 8 == k - 8 * i;
  }

  lemma {:induction false} NextClearIs(bm: seq<Byte>, len: nat, start: nat, k: nat)
    requires start <= k <= len <= 8 * |bm| && (forall j: nat | start <= j < k :: Bit(bm, j))
    requires k < len ==> !Bit(bm, k)
    ensures NextClear(bm, len, start) == k
    decreases k - start
  {
    hide Bit;
    if start < k {
      NextClearIs(bm, len, start + 1, k);
    }
  }
}
