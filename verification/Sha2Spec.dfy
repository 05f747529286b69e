/**
 Padding, parsing and folding of FIPS 180-4 (sections 5.1, 5.2, 6.2 and 6.4), for any
 compression function, any block size and any width of the length field.
 */
module Sha2Spec {
  import opened Bits
  import opened Memory

  /** Eight words and a block give eight words. */
  type Compression = (seq<nat>, seq<Byte>) -> seq<nat>

  /** `v` as `n` bytes, most significant first, higher bytes dropped. */
  function BigEndian(v: nat, n: nat): (s: seq<Byte>)
    ensures |s| == n
  {
    if n == 0 then [] else BigEndian(v / 256, n - 1) + [v % 256]
  }

  /** The zero bytes needed so that message, marker, zeros and length field fill whole blocks. */
  function ZeroCount(len: nat, block: nat, field: nat): (k: nat)
    requires 0 < block && field < block
    ensures (len + 1 + k + field) % block == 0 && k < block
  {
    PadFills(len, block, field);
    var used := (len + 1 + field) % block;
    if used == 0 then 0 else block - used
  }

  lemma PadFills(len: nat, block: nat, field: nat)
    requires 0 < block && field < block
    ensures var used := (len + 1 + field) % block;
            (len + 1 + (if used == 0 then 0 else block - used) + field) % block == 0
  {
    var n := len + 1 + field;
    var q, r := n / block, n % block;
    assert n == q * block + r;
    if r != 0 {
      assert n + (block - r) == (q + 1) * block + 0;
      DivModUnique(n + (block - r), block, q + 1, 0);
    }
  }

  /** The padded message: marker bit, zeros, and the length in bits. */
  function Pad(msg: seq<Byte>, block: nat, field: nat): seq<Byte>
    requires 0 < block && field < block
  {
    msg + [0x80] + Zeros(ZeroCount(|msg|, block, field)) + BigEndian(8 * |msg|, field)
  }

  /** The compression function folded over the blocks of `msg`; a rest shorter than a block is ignored. */
  function Fold(f: Compression, st: seq<nat>, msg: seq<Byte>, block: nat): seq<nat>
    requires 0 < block
    decreases |msg|
  {
    if |msg| < block then st else Fold(f, f(st, msg[..block]), msg[block..], block)
  }

  lemma {:induction false} FoldConcat(f: Compression, st: seq<nat>, a: seq<Byte>, b: seq<Byte>, block: nat)
    requires 0 < block && |a| % block == 0
    ensures Fold(f, st, a + b, block) == Fold(f, Fold(f, st, a, block), b, block)
    decreases |a|
  {
    if |a| < block {
      SmallMod(|a|, block);
      assert a + b == b;
    } else {
      DropBlock(|a|, block);
      FoldConcat(f, f(st, a[..block]), a[block..], b, block);
      assert (a + b)[..block] == a[..block] && (a + b)[block..] == a[block..] + b;
    }
  }

  lemma SmallMod(n: nat, block: nat)
    requires n < block
    ensures n % block == n
  {
    DivModUnique(n, block, 0, n);
  }

  lemma DropBlock(n: nat, block: nat)
    requires 0 < block <= n
    ensures (n - block) % block == n % block
  {
    var q, r := n / block, n % block;
    assert n == q * block + r;
    if q == 0 {
      assert false;
    }
    assert n - block == (q - 1) * block + r;
    DivModUnique(n - block, block, q - 1, r);
  }

  lemma FoldOne(f: Compression, st: seq<nat>, b: seq<Byte>, block: nat)
    requires 0 < block && |b| == block
    ensures Fold(f, st, b, block) == f(st, b)
  {
    assert b[..block] == b && b[block..] == [];
  }

  // ----- big-endian bytes

  lemma ShrByte(v: nat)
    ensures Shr(v, 8) == v / 256
  {
    assert Pow2(8) == 256 by { assert Pow2(4) == 16; Pow2Add(4, 4); }
    ShrIsDiv(v, 8);
  }

  /** Byte `i` is the word shifted right, as the code extracts it. */
  lemma {:induction false} BigEndianAt(v: nat, n: nat, i: nat)
    requires i < n
    ensures BigEndian(v, n)[i] == Shr(v, 8 * (n - 1 - i)) % 256
    decreases n
  {
    if i < n - 1 {
      BigEndianAt(v / 256, n - 1, i);
      ShrByte(v);
      ShrShr(v, 8, 8 * (n - 2 - i));
    }
  }

  /** A number written in two halves. */
  lemma {:induction false} BigEndianConcat(hi: nat, lo: nat, m: nat, n: nat)
    requires lo < Pow2(8 * n)
    ensures BigEndian(hi * Pow2(8 * n) + lo, m + n) == BigEndian(hi, m) + BigEndian(lo, n)
    decreases n
  {
    if n > 0 {
      var p := Pow2(8 * (n - 1));
      assert Pow2(8 * n) == 256 * p by {
        assert Pow2(8) == 256 by { assert Pow2(4) == 16; Pow2Add(4, 4); }
        Pow2Add(8 * (n - 1), 8);
      }
      var v := hi * Pow2(8 * n) + lo;
      Regroup(hi, p, lo);
      BigEndianConcat(hi, lo / 256, m, n - 1);
    } else {
      assert Pow2(0) == 1;
    }
  }

  lemma Regroup(hi: nat, p: nat, lo: nat)
    ensures var v := hi * (256 * p) + lo; v / 256 == hi * p + lo / 256 && v % 256 == lo % 256
  {
    var v := hi * (256 * p) + lo;
    assert v == (hi * p + lo / 256) * 256 + lo % 256;
    DivModUnique(v, 256, hi * p + lo / 256, lo % 256);
  }

  /** Bytes beyond the field are dropped: only the number modulo 2^(8n) matters. */
  lemma BigEndianMod(v: nat, n: nat)
    ensures BigEndian(v, n) == BigEndian(v % Pow2(8 * n), n)
  {
    hide BigEndian, Pow2;
    DivMod(v, Pow2(8 * n));
    BigEndianDrop(v / Pow2(8 * n), v % Pow2(8 * n), n);
  }

  lemma BigEndianDrop(hi: nat, lo: nat, n: nat)
    ensures lo < Pow2(8 * n) ==> BigEndian(hi * Pow2(8 * n) + lo, n) == BigEndian(lo, n)
  {
    if lo < Pow2(8 * n) {
      BigEndianConcat(hi, lo, 0, n);
      assert BigEndian(hi, 0) + BigEndian(lo, n) == BigEndian(lo, n);
    }
  }

  lemma DivMod(v: nat, p: nat)
    requires 0 < p
    ensures v == (v / p) * p + v % p && v % p < p
  {
  }
}
