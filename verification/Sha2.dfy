/**
 The streaming contexts of `sha2.c`: partial block buffer, running byte count, chunked
 updates and the two-branch padding, proved to hash the padded message of FIPS 180-4
 whatever the chunks.  The compression function is a parameter.
 */
module Sha2 {
  import opened Bits
  import opened Memory
  import opened Sha2Spec

  const U64: nat := 0x1_0000_0000_0000_0000

  // ----- absorbing data

  /** After `msg`: whole blocks are folded into `st`, the rest is buffered. */
  ghost predicate Absorbed(f: Compression, init: seq<nat>, msg: seq<Byte>, block: nat, st: seq<nat>, rest: seq<Byte>) {
    && |rest| < block && |rest| <= |msg|
    && var head := msg[..|msg| - |rest|];
       |head| % block == 0 && msg == head + rest && st == Fold(f, init, head, block)
  }

  lemma AbsorbedNothing(f: Compression, init: seq<nat>, block: nat)
    requires 0 < block
    ensures Absorbed(f, init, [], block, init, [])
  {
    SmallMod(0, block);
  }

  lemma RestSize(f: Compression, init: seq<nat>, msg: seq<Byte>, block: nat, st: seq<nat>, rest: seq<Byte>)
    requires Absorbed(f, init, msg, block, st, rest)
    ensures |msg| % block == |rest|
  {
    var h := |msg| - |rest|;
    assert h == (h / block) * block;
    DivModUnique(|msg|, block, h / block, |rest|);
  }

  /** Data that does not complete a block is only buffered. */
  lemma AbsorbRest(f: Compression, init: seq<nat>, msg: seq<Byte>, block: nat, st: seq<nat>, rest: seq<Byte>,
                   d: seq<Byte>)
    requires Absorbed(f, init, msg, block, st, rest) && |rest| + |d| < block
    ensures Absorbed(f, init, msg + d, block, st, rest + d)
  {
    assert (msg + d)[..|msg| - |rest|] == msg[..|msg| - |rest|];
  }

  /** Data that completes a block is folded in. */
  lemma AbsorbBlock(f: Compression, init: seq<nat>, msg: seq<Byte>, block: nat, st: seq<nat>, rest: seq<Byte>,
                    d: seq<Byte>)
    requires Absorbed(f, init, msg, block, st, rest) && |rest| + |d| == block
    ensures Absorbed(f, init, msg + d, block, f(st, rest + d), [])
  {
    var head := msg[..|msg| - |rest|];
    FoldConcat(f, init, head, rest + d, block);
    FoldOne(f, st, rest + d, block);
    hide Fold;
    assert msg + d == head + (rest + d);
    assert (msg + d)[..|msg + d|] == msg + d;
    NextMultiple(|head|, block);
  }

  lemma NextMultiple(n: nat, block: nat)
    requires 0 < block && n % block == 0
    ensures (n + block) % block == 0
  {
    var q := n / block;
    assert n + block == (q + 1) * block;
    DivModUnique(n + block, block, q + 1, 0);
  }

  /** The body of `sha256_update` and `sha512_update`: complete the buffered block, then go on with whole blocks. */
  method Absorb(f: Compression, ghost init: seq<nat>, ghost msg: seq<Byte>, block: nat,
                st: seq<nat>, buf: array<Byte>, used: nat, data: seq<Byte>) returns (st': seq<nat>)
    requires buf.Length == block && used < block && Absorbed(f, init, msg, block, st, buf[..used])
    modifies buf
    ensures Absorbed(f, init, msg + data, block, st', buf[..(|msg| + |data|) % block])
  {
    hide Absorbed;
    if used == 0 {
      st' := AbsorbBlocks(f, init, msg, block, st, buf, data);
      return;
    }
    ghost var rest := buf[..used];
    var avail := block - used;
    if |data| < avail {
      AbsorbRest(f, init, msg, block, st, rest, data);
      CopyIn(buf, used, data);
      assert buf[..used + |data|] == rest + data;
      RestSize(f, init, msg + data, block, st, rest + data);
      return st;
    }
    AbsorbBlock(f, init, msg, block, st, rest, data[..avail]);
    CopyIn(buf, used, data[..avail]);
    assert buf[..] == rest + data[..avail];
    st' := f(st, buf[..]);
    st' := AbsorbBlocks(f, init, msg + data[..avail], block, st', buf, data[avail..]);
    assert msg + data[..avail] + data[avail..] == msg + data;
  }

  /** Its loop over whole blocks, and the copy of what is left into the buffer. */
  method AbsorbBlocks(f: Compression, ghost init: seq<nat>, ghost msg: seq<Byte>, block: nat,
                      st: seq<nat>, buf: array<Byte>, data: seq<Byte>) returns (st': seq<nat>)
    requires buf.Length == block && 0 < block && Absorbed(f, init, msg, block, st, [])
    modifies buf
    ensures Absorbed(f, init, msg + data, block, st', buf[..(|msg| + |data|) % block])
  {
    hide Absorbed;
    st' := st;
    var p := 0;
    assert msg + data[..0] == msg;
    while |data| - p >= block
      invariant p <= |data| && Absorbed(f, init, msg + data[..p], block, st', [])
    {
      var chunk := data[p..p + block];
      AbsorbBlock(f, init, msg + data[..p], block, st', [], chunk);
      assert [] + chunk == chunk && msg + data[..p] + chunk == msg + data[..p + block];
      st' := f(st', chunk);
      p := p + block;
    }
    KeepRest(f, init, msg, block, st', data, p);
    CopyIn(buf, 0, data[p..]);
    assert buf[..|data| - p] == data[p..];
  }

  lemma KeepRest(f: Compression, init: seq<nat>, msg: seq<Byte>, block: nat, st: seq<nat>, data: seq<Byte>, p: nat)
    requires p <= |data| < p + block && Absorbed(f, init, msg + data[..p], block, st, [])
    ensures Absorbed(f, init, msg + data, block, st, data[p..])
    ensures (|msg| + |data|) % block == |data| - p
  {
    hide Absorbed;
    var tail := data[p..];
    assert |tail| == |data| - p && |msg + data| == |msg| + |data|;
    AbsorbRest(f, init, msg + data[..p], block, st, [], tail);
    assert msg + data[..p] + tail == msg + data && [] + tail == tail;
    RestSize(f, init, msg + data, block, st, tail);
  }

  // ----- padding

  lemma ZeroCountValue(head: nat, rest: nat, block: nat, field: nat)
    requires field < block && rest < block && head % block == 0
    ensures ZeroCount(head + rest, block, field)
              == if rest + 1 <= block - field then block - field - rest - 1 else (block - rest - 1) + (block - field)
  {
    var q, n := head / block, head + rest + 1 + field;
    assert head == q * block;
    if rest + 1 + field < block {
      DivModUnique(n, block, q, rest + 1 + field);
    } else if rest + 1 + field < 2 * block {
      assert n == (q + 1) * block + (rest + 1 + field - block);
      DivModUnique(n, block, q + 1, rest + 1 + field - block);
    }
  }

  lemma {:induction false} ZerosConcat(m: nat, n: nat)
    ensures Zeros(m) + Zeros(n) == Zeros(m + n)
  {
    if m > 0 {
      ZerosConcat(m - 1, n);
    }
  }

  lemma AbsorbedAll(f: Compression, init: seq<nat>, msg: seq<Byte>, block: nat, st: seq<nat>)
    requires Absorbed(f, init, msg, block, st, [])
    ensures st == Fold(f, init, msg, block)
  {
    assert msg[..|msg|] == msg;
  }

  /** The part before the length: the marker, and a block of its own when the length no longer fits behind it. */
  method Mark(f: Compression, ghost init: seq<nat>, ghost msg: seq<Byte>, block: nat, field: nat,
              st: seq<nat>, buf: array<Byte>, used: nat) returns (st': seq<nat>, used': nat, ghost zeros: nat)
    requires 0 < field < block && buf.Length == block && used < block && Absorbed(f, init, msg, block, st, buf[..used])
    modifies buf
    ensures used' <= block - field && zeros + (block - field - used') == ZeroCount(|msg|, block, field)
    ensures Absorbed(f, init, msg + ([0x80] + Zeros(zeros)), block, st', buf[..used'])
  {
    ghost var rest := buf[..used];
    ZeroCountValue(|msg| - used, used, block, field);
    hide Absorbed, ZeroCount;
    buf[used] := 0x80;
    st', used', zeros := st, used + 1, 0;
    if used' > block - field {
      zeros := block - used';
      Clear(buf, used', block - used');
      hide Zeros;
      ghost var d := [0x80] + Zeros(zeros);
      assert buf[..] == rest + d;
      AbsorbBlock(f, init, msg, block, st, rest, d);
      st', used' := f(st', buf[..]), 0;
      assert buf[..0] == [];
    } else {
      AbsorbRest(f, init, msg, block, st, rest, [0x80]);
      assert buf[..used'] == rest + [0x80] && [0x80] + Zeros(0) == [0x80];
    }
  }

  /** The end of `sha256_final` and `sha512_final`: marker, zeros and length, in one block or in two. */
  method Finish(f: Compression, ghost init: seq<nat>, ghost msg: seq<Byte>, block: nat, field: nat,
                st: seq<nat>, buf: array<Byte>, used: nat, lenBytes: seq<Byte>) returns (st': seq<nat>)
    requires 0 < field < block && |lenBytes| == field && buf.Length == block && used < block
    requires Absorbed(f, init, msg, block, st, buf[..used])
    modifies buf
    ensures st' == Fold(f, init, msg + [0x80] + Zeros(ZeroCount(|msg|, block, field)) + lenBytes, block)
  {
    hide Absorbed, ZeroCount, Zeros;
    var used';
    ghost var zeros;
    st', used', zeros := Mark(f, init, msg, block, field, st, buf, used);
    ghost var rest, more := buf[..used'], block - field - used';
    ghost var start := msg + ([0x80] + Zeros(zeros));
    Clear(buf, used', block - field - used');
    CopyIn(buf, block - field, lenBytes);
    assert buf[..] == rest + (Zeros(more) + lenBytes);
    AbsorbBlock(f, init, start, block, st', rest, Zeros(more) + lenBytes);
    st' := f(st', buf[..]);
    AbsorbedAll(f, init, start + (Zeros(more) + lenBytes), block, st');
    ZerosConcat(zeros, more);
    assert start + (Zeros(more) + lenBytes) == msg + [0x80] + (Zeros(zeros) + Zeros(more)) + lenBytes;
  }

  // ----- words and bytes

  /** The eight shifts that write a 64-bit word. */
  function Bytes64(v: nat): seq<Byte> {
    [Shr(v, 56) % 256, Shr(v, 48) % 256, Shr(v, 40) % 256, Shr(v, 32) % 256,
     Shr(v, 24) % 256, Shr(v, 16) % 256, Shr(v, 8) % 256, v % 256]
  }

  lemma Bytes64IsBigEndian(v: nat)
    ensures Bytes64(v) == BigEndian(v, 8)
  {
    hide Shr, BigEndian;
    forall i: nat | i < 8
      ensures Bytes64(v)[i] == BigEndian(v, 8)[i]
    {
      BigEndianAt(v, 8, i);
      ShrZero(v);
    }
  }

  lemma ShrZero(v: nat)
    ensures Shr(v, 0) == v
  {
  }

  /** The words of a state as bytes, `w` bytes each. */
  function WordBytes(st: seq<nat>, w: nat): (s: seq<Byte>)
    ensures |s| == |st| * w
  {
    if st == [] then [] else WordBytes(st[..|st| - 1], w) + BigEndian(st[|st| - 1], w)
  }

  ghost predicate Compresses(f: Compression) {
    forall s: seq<nat>, b: seq<Byte> | |s| == 8 :: |f(s, b)| == 8
  }

  lemma {:induction false} FoldSize(f: Compression, st: seq<nat>, msg: seq<Byte>, block: nat)
    requires 0 < block && Compresses(f) && |st| == 8
    ensures |Fold(f, st, msg, block)| == 8
    decreases |msg|
  {
    if |msg| >= block {
      FoldSize(f, f(st, msg[..block]), msg[block..], block);
    }
  }

  /** The bytes of one word, most significant first, by shifting. */
  method WriteWord(v: nat, w: nat, digest: array<Byte>, at: nat)
    requires at + w <= digest.Length
    modifies digest
    ensures digest[..at + w] == old(digest[..at]) + BigEndian(v, w)
  {
    for j := 0 to w
      invariant digest[..at] == old(digest[..at]) && digest[at..at + j] == BigEndian(v, w)[..j]
    {
      BigEndianAt(v, w, j);
      digest[at + j] := Shr(v, 8 * (w - 1 - j)) % 256;
    }
  }

  function Bytes(i: nat, w: nat): nat {
    i * w
  }

  lemma WordBytesStart(st: seq<nat>, w: nat)
    ensures Bytes(0, w) == 0 && WordBytes(st[..0], w) == []
  {
  }

  lemma WordBytesStep(st: seq<nat>, i: nat, w: nat, n: nat)
    requires i < |st| == 8 && 8 * w <= n
    ensures Bytes(i + 1, w) == Bytes(i, w) + w && Bytes(i, w) + w <= n
    ensures WordBytes(st[..i + 1], w) == WordBytes(st[..i], w) + BigEndian(st[i], w)
  {
    assert st[..i + 1][..i] == st[..i];
    assert (8 - i) * w == w + (8 - (i + 1)) * w;
  }

  lemma {:induction false} WordBytesAt(st: seq<nat>, w: nat, i: nat, j: nat)
    requires i < |st| && j < w
    ensures Bytes(i, w) + j < Bytes(|st|, w)
    ensures WordBytes(st, w)[Bytes(i, w) + j] == Shr(st[i], 8 * (w - 1 - j)) % 256
  {
    hide Shr, BigEndian;
    var k := |st| - 1;
    assert (k + 1) * w == k * w + w;
    if i == k {
      BigEndianAt(st[k], w, j);
    } else {
      WordBytesAt(st[..k], w, i, j);
    }
  }

  lemma EightTimes(i: nat, w: nat)
    ensures i >= 8 ==> i * w >= 8 * w
  {
  }

  /** Each word is written with its most significant byte first. */
  lemma DigestBytes(st: seq<nat>, w: nat, digest: seq<Byte>)
    requires |st| == 8 && 0 < w && digest == WordBytes(st, w)
    ensures forall k: nat | k < 8 * w :: k / w < 8 && digest[k] == Shr(st[k / w], 8 * (w - 1 - k % w)) % 256
  {
    hide Shr, WordBytes;
    forall k: nat | k < 8 * w
      ensures k / w < 8 && digest[k] == Shr(st[k / w], 8 * (w - 1 - k % w)) % 256
    {
      var i, j := k / w, k % w;
      assert k == i * w + j;
      EightTimes(i, w);
      WordBytesAt(st, w, i, j);
    }
  }

  /** The loop that writes the digest, `w` bytes for each of the eight words. */
  method WriteDigest(st: seq<nat>, w: nat, digest: array<Byte>)
    requires |st| == 8 && 0 < w && 8 * w <= digest.Length
    modifies digest
    ensures forall k: nat | k < 8 * w :: k / w < 8 && digest[k] == Shr(st[k / w], 8 * (w - 1 - k % w)) % 256
  {
    hide WordBytes, BigEndian, Shr;
    var at := 0;
    WordBytesStart(st, w);
    for i := 0 to 8
      invariant at == Bytes(i, w) && digest[..at] == WordBytes(st[..i], w)
    {
      WordBytesStep(st, i, w, digest.Length);
      WriteWord(st[i], w, digest, at);
      at := at + w;
    }
    assert st[..8] == st;
    DigestBytes(st, w, digest[..8 * w]);
  }

  // ----- the contexts

  lemma FinishDigest(f: Compression, init: seq<nat>, msg: seq<Byte>, block: nat, field: nat, bits: nat)
    requires 0 < field < block && bits == 8 * |msg| % Pow2(8 * field)
    ensures msg + [0x80] + Zeros(ZeroCount(|msg|, block, field)) + BigEndian(bits, field) == Pad(msg, block, field)
  {
    BigEndianMod(8 * |msg|, field);
  }

  lemma WordSize()
    ensures Pow2(64) == U64
  {
    Squares();
    hide Pow2;
    Pow2Add(32, 32);
  }

  lemma Squares()
    ensures Pow2(32) == 0x1_0000_0000
  {
    assert Pow2(8) == 256 by { assert Pow2(4) == 16; Pow2Add(4, 4); }
    hide Pow2;
    Pow2Add(8, 8);
    Pow2Add(16, 16);
  }

  /** A 64-bit count knows the position in the block. */
  lemma Position(n: nat, block: nat)
    requires block == 64 || block == 128
    ensures (n % U64) % block == n % block
  {
    var q, r := n / U64, n % U64;
    assert n == q * U64 + r;
    if block == 64 {
      DivModUnique(n, 64, q * 0x400_0000_0000_0000 + r / 64, r % 64);
    } else {
      DivModUnique(n, 128, q * 0x200_0000_0000_0000 + r / 128, r % 128);
    }
  }

  /** It may be advanced modulo 2^64, and the carry test sees when it wraps. */
  lemma Advance(n: nat, d: nat)
    requires d < U64
    ensures (n % U64 + d) % U64 == (n + d) % U64
    ensures (n + d) / U64 == n / U64 + (if (n + d) % U64 < d then 1 else 0)
  {
    var q, r := n / U64, n % U64;
    assert n == q * U64 + r;
    if r + d < U64 {
      DivModUnique(n + d, U64, q, r + d);
    } else {
      DivModUnique(n + d, U64, q + 1, r + d - U64);
    }
  }

  lemma CountStep(n: nat, d: nat, block: nat)
    requires d < U64 && (block == 64 || block == 128)
    ensures (n % U64) % block == n % block
    ensures (n % U64 + d) % U64 == (n + d) % U64
    ensures (n + d) / U64 == n / U64 + (if (n + d) % U64 < d then 1 else 0)
  {
    Position(n, block);
    Advance(n, d);
  }

  /** The two words of the 128-bit count after an update, with the carry. */
  lemma CountPair(n: nat, d: nat)
    requires d < U64
    ensures var low, high := n % U64, n / U64 % U64;
            var low' := (low + d) % U64;
            && low % 128 == n % 128 && low' == (n + d) % U64
            && (n + d) / U64 % U64 == if low' < d then (high + 1) % U64 else high
  {
    CountStep(n, d, 128);
  }

  lemma BitCount(n: nat)
    ensures n % U64 * 8 % U64 == 8 * n % Pow2(8 * 8)
  {
    WordSize();
    var q, r := n / U64, n % U64;
    assert n == q * U64 + r;
    var b := 8 * r / U64;
    assert 8 * n == (8 * q + b) * U64 + 8 * r % U64;
    DivModUnique(8 * n, U64, 8 * q + b, 8 * r % U64);
  }

  /** `struct sha256_ctx`; SHA-224 differs in the initial state and in how much of the digest is kept. */
  class Sha256Ctx {
    const f: Compression
    ghost const init: seq<nat>
    var state: seq<nat>
    var count: nat
    const buf: array<Byte>
    ghost var message: seq<Byte>

    ghost predicate Valid()
      reads this, buf
    {
      && buf.Length == 64 && |init| == 8 && Compresses(f)
      && count == |message| % U64
      && Absorbed(f, init, message, 64, state, buf[..|message| % 64])
    }

    constructor (f: Compression, initState: seq<nat>)
      requires |initState| == 8 && Compresses(f)
      ensures Valid() && message == [] && this.f == f && init == initState && fresh(buf)
    {
      this.f, init, state, count := f, initState, initState, 0;
      buf := new Byte[64];
      message := [];
      AbsorbedNothing(f, initState, 64);
    }

    method Update(data: seq<Byte>)
      requires Valid() && |data| < U64
      modifies this, buf
      ensures Valid() && message == old(message) + data
    {
      hide Absorbed, Compresses;
      CountStep(|message|, |data|, 64);
      var used := count % 64;
      count := (count + |data|) % U64;
      state := Absorb(f, init, message, 64, state, buf, used, data);
      message := message + data;
    }

    /** The digest depends on the message alone, not on how it was cut into updates. */
    method Final(digest: array<Byte>)
      requires Valid() && digest.Length >= 32 && digest != buf
      modifies this, buf, digest
      ensures var st := Fold(f, init, Pad(old(message), 64, 8), 64);
              |st| == 8 && forall k: nat | k < 32 :: digest[k] == Shr(st[k / 4], 8 * (3 - k % 4)) % 256
    {
      hide Absorbed, Compresses, Pad, Pow2, Bytes64, Shr, Fold;
      CountStep(|message|, 0, 64);
      var used := count % 64;
      var bits := count * 8 % U64;
      BitCount(|message|);
      FinishDigest(f, init, message, 64, 8, bits);
      Bytes64IsBigEndian(bits);
      state := Finish(f, init, message, 64, 8, state, buf, used, Bytes64(bits));
      FoldSize(f, init, Pad(message, 64, 8), 64);
      WriteDigest(state, 4, digest);
    }
  }

  /** `struct sha512_ctx` with its 128-bit byte count; SHA-384 differs as SHA-224 does. */
  class Sha512Ctx {
    const f: Compression
    ghost const init: seq<nat>
    var state: seq<nat>
    var countLow: nat
    var countHigh: nat
    const buf: array<Byte>
    ghost var message: seq<Byte>

    ghost predicate Valid()
      reads this, buf
    {
      && buf.Length == 128 && |init| == 8 && Compresses(f)
      && countLow == |message| % U64 && countHigh == |message| / U64 % U64
      && Absorbed(f, init, message, 128, state, buf[..|message| % 128])
    }

    constructor (f: Compression, initState: seq<nat>)
      requires |initState| == 8 && Compresses(f)
      ensures Valid() && message == [] && this.f == f && init == initState && fresh(buf)
    {
      this.f, init, state, countLow, countHigh := f, initState, initState, 0, 0;
      buf := new Byte[128];
      message := [];
      AbsorbedNothing(f, initState, 128);
    }

    method Update(data: seq<Byte>)
      requires Valid() && |data| < U64
      modifies this, buf
      ensures Valid() && message == old(message) + data
    {
      hide Absorbed, Compresses;
      CountPair(|message|, |data|);
      var used := countLow % 128;
      countLow := (countLow + |data|) % U64;
      if countLow < |data| {
        countHigh := (countHigh + 1) % U64;
      }
      var st := Absorb(f, init, message, 128, state, buf, used, data);
      state, message := st, message + data;
      assert |message| == |old(message)| + |data|;
    }

    method Final(digest: array<Byte>)
      requires Valid() && digest.Length >= 64 && digest != buf
      modifies this, buf, digest
      ensures var st := Fold(f, init, Pad(old(message), 128, 16), 128);
              |st| == 8 && forall k: nat | k < 64 :: digest[k] == Shr(st[k / 8], 8 * (7 - k % 8)) % 256
    {
      hide Absorbed, Compresses, Pad, Pow2, Bytes64, Or, Shr, Fold;
      CountStep(|message|, 0, 128);
      var used := countLow % 128;
      var bitsLow := countLow * 8 % U64;
      var bitsHigh := Or(countHigh * 8 % U64, countLow / 0x2000_0000_0000_0000);
      LengthField(|message|, countLow, countHigh, bitsLow, bitsHigh);
      FinishDigest(f, init, message, 128, 16, bitsHigh * U64 + bitsLow);
      Bytes64IsBigEndian(bitsHigh);
      Bytes64IsBigEndian(bitsLow);
      state := Finish(f, init, message, 128, 16, state, buf, used, Bytes64(bitsHigh) + Bytes64(bitsLow));
      FoldSize(f, init, Pad(message, 128, 16), 128);
      WriteDigest(state, 8, digest);
    }
  }

  lemma OrCarry(high: nat, low: nat)
    requires low < U64
    ensures Or(high * 8 % U64, low / 0x2000_0000_0000_0000) == high * 8 % U64 + low / 0x2000_0000_0000_0000
  {
    assert Pow2(3) == 8;
    DownIsMod(high * 8 % U64, 3);
    OrLowBits(high * 8 % U64, low / 0x2000_0000_0000_0000, 3);
  }

  /** The two halves of the bit count, shifted across the word boundary, are the length field modulo 2^128. */
  lemma LengthField(n: nat, low: nat, high: nat, bitsLow: nat, bitsHigh: nat)
    requires low == n % U64 && high == n / U64 % U64
    requires bitsLow == low * 8 % U64 && bitsHigh == Or(high * 8 % U64, low / 0x2000_0000_0000_0000)
    ensures bitsHigh * U64 + bitsLow == 8 * n % Pow2(8 * 16)
    ensures BigEndian(bitsHigh * U64 + bitsLow, 16) == BigEndian(bitsHigh, 8) + BigEndian(bitsLow, 8)
  {
    hide Or, Pow2, BigEndian;
    WordSize();
    Pow2Add(64, 64);
    OrCarry(high, low);
    var k, v := n / U64 / U64, bitsHigh * U64 + bitsLow;
    Halves(n, k, low, high, bitsLow, bitsHigh);
    DivModUnique(8 * n, U64 * U64, 8 * k + high * 8 / U64, v);
    BigEndianConcat(bitsHigh, bitsLow, 8, 8);
  }

  lemma Halves(n: nat, k: nat, low: nat, high: nat, bitsLow: nat, bitsHigh: nat)
    requires low == n % U64 && high == n / U64 % U64 && k == n / U64 / U64
    requires bitsLow == low * 8 % U64 && bitsHigh == high * 8 % U64 + low / 0x2000_0000_0000_0000
    ensures 8 * n == (8 * k + high * 8 / U64) * (U64 * U64) + (bitsHigh * U64 + bitsLow)
    ensures bitsHigh < U64 && bitsLow < U64
  {
    var m := n / U64;
    assert n == m * U64 + low && m == k * U64 + high;
    var carry, hb, c := high * 8 / U64, high * 8 % U64, low / 0x2000_0000_0000_0000;
    assert 8 * high == carry * U64 + hb && 8 * low == c * U64 + bitsLow;
    assert 8 * n == (8 * (k * U64) + carry * U64 + hb) * U64 + c * U64 + bitsLow;
  }
}
