/**
 The LZ4 block format as `lz4.c` uses it, on values: sequences of literals and matches,
 their bytes, and a decoder whose match copy goes byte by byte.
 */
module Lz4Format {
  import opened Memory
  import opened Options

  const MINMATCH: nat := 4

  /** Literals followed by a copy of `matchLen` bytes from `offset` bytes back. */
  datatype Sequence = Sequence(lits: seq<Byte>, offset: nat, matchLen: nat)

  predicate WellFormed(s: Sequence) {
    0 < s.offset < 65536 && MINMATCH <= s.matchLen
  }

  // ----- lengths

  function Nibble(n: nat): (r: nat)
    ensures r < 16
  {
    if n < 15 then n else 15
  }

  function ExtBytes(n: nat): seq<Byte> {
    if n >= 255 then [255] + ExtBytes(n - 255) else [n]
  }

  /** The bytes that continue a length whose nibble is full. */
  function Ext(n: nat): seq<Byte> {
    if n < 15 then [] else ExtBytes(n - 15)
  }

  function ReadExt(rest: seq<Byte>, acc: nat): (r: Option<(nat, seq<Byte>)>)
    ensures r.Some? ==> |r.value.1| < |rest| && r.value.1 == rest[|rest| - |r.value.1|..]
  {
    if rest == [] then None
    else if rest[0] == 255 then ReadExt(rest[1..], acc + 255)
    else Some((acc + rest[0], rest[1..]))
  }

  /** A length from its nibble and whatever bytes continue it, with the bytes after them. */
  function ReadLen(rest: seq<Byte>, nibble: nat): (r: Option<(nat, seq<Byte>)>)
    ensures r.Some? ==> |r.value.1| <= |rest| && r.value.1 == rest[|rest| - |r.value.1|..]
  {
    if nibble == 15 then ReadExt(rest, 15) else Some((nibble, rest))
  }

  lemma ExtShape(n: nat)
    ensures ExtBytes(n) == if n >= 255 then [255] + ExtBytes(n - 255) else [n]
    ensures |ExtBytes(n)| >= 1
  {
  }

  lemma {:induction false} ReadExtBytes(n: nat, post: seq<Byte>, acc: nat)
    ensures ReadExt(ExtBytes(n) + post, acc) == Some((acc + n, post))
  {
    hide ExtBytes;
    ExtShape(n);
    var rest := ExtBytes(n) + post;
    if n >= 255 {
      ReadExtBytes(n - 255, post, acc + 255);
      assert rest[1..] == ExtBytes(n - 255) + post;
    } else {
      assert rest[1..] == post;
    }
  }

  lemma ReadLenExt(n: nat, post: seq<Byte>)
    ensures ReadLen(Ext(n) + post, Nibble(n)) == Some((n, post))
  {
    if n >= 15 {
      ReadExtBytes(n - 15, post, 15);
    } else {
      assert Ext(n) + post == post;
    }
  }

  lemma {:induction false} ExtBytesSize(n: nat)
    ensures |ExtBytes(n)| == n / 255 + 1
  {
    if n >= 255 {
      ExtBytesSize(n - 255);
    }
  }

  // ----- encoding

  function Token(lits: nat, ml: nat): Byte {
    16 * Nibble(lits) + Nibble(ml)
  }

  function EncodeSequence(s: Sequence): seq<Byte>
    requires WellFormed(s)
  {
    [Token(|s.lits|, s.matchLen - MINMATCH)] + Ext(|s.lits|) + s.lits
      + [s.offset % 256, s.offset / 256] + Ext(s.matchLen - MINMATCH)
  }

  function EncodeLast(lits: seq<Byte>): seq<Byte> {
    if lits == [] then [] else [Token(|lits|, 0)] + Ext(|lits|) + lits
  }

  function EncodeAll(ss: seq<Sequence>): seq<Byte>
    requires forall s | s in ss :: WellFormed(s)
  {
    if ss == [] then [] else EncodeAll(ss[..|ss| - 1]) + EncodeSequence(ss[|ss| - 1])
  }

  // ----- decoding

  /** Appends `n` bytes one at a time, each copied from `offset` bytes back in the output so far. */
  function MatchCopy(out: seq<Byte>, offset: nat, n: nat): (r: seq<Byte>)
    requires 0 < offset <= |out|
    ensures |r| == |out| + n && out <= r
    decreases n
  {
    if n == 0 then out else MatchCopy(out + [out[|out| - offset]], offset, n - 1)
  }

  /** The decoder on the bytes still to be read and the output so far; None where the code returns -1. */
  function Decode(rest: seq<Byte>, out: seq<Byte>, cap: int): Option<seq<Byte>>
    decreases |rest|
  {
    if rest == [] then Some(out)
    else
      var token := rest[0];
      match ReadLen(rest[1..], token / 16)
      case None => None
      case Some((lits, r1)) =>
        if |r1| < lits || |out| + lits > cap then None
        else DecodeMatch(r1[lits..], token % 16, out + r1[..lits], cap)
  }

  /** The second half of a sequence: offset and match, unless the block ends after the literals. */
  function DecodeMatch(rest: seq<Byte>, nibble: nat, out: seq<Byte>, cap: int): Option<seq<Byte>>
    decreases |rest|
  {
    if rest == [] then Some(out)
    else if |rest| < 2 then None
    else
      var offset := rest[0] as int + 256 * (rest[1] as int);
      if offset == 0 then None
      else
        match ReadLen(rest[2..], nibble)
        case None => None
        case Some((n, r2)) =>
          if |out| + n + MINMATCH > cap || offset > |out| then None
          else Decode(r2, MatchCopy(out, offset, n + MINMATCH), cap)
  }

  // ----- what sequences stand for

  predicate Expandable(out: seq<Byte>, s: Sequence) {
    WellFormed(s) && s.offset <= |out| + |s.lits|
  }

  function ExpandOne(out: seq<Byte>, s: Sequence): seq<Byte>
    requires Expandable(out, s)
  {
    MatchCopy(out + s.lits, s.offset, s.matchLen)
  }

  /** `out` is what the sequences expand to. */
  predicate Expands(ss: seq<Sequence>, out: seq<Byte>) {
    if ss == [] then out == []
    else
      var s := ss[|ss| - 1];
      var before := |out| - |s.lits| - s.matchLen;
      && before >= 0 && Expands(ss[..|ss| - 1], out[..before])
      && Expandable(out[..before], s) && out == ExpandOne(out[..before], s)
  }

  lemma {:induction false} ExpandsWellFormed(ss: seq<Sequence>, out: seq<Byte>)
    requires Expands(ss, out)
    ensures forall s | s in ss :: WellFormed(s)
  {
    if ss != [] {
      var k := |ss| - 1;
      ExpandsWellFormed(ss[..k], out[..|out| - |ss[k].lits| - ss[k].matchLen]);
      assert ss == ss[..k] + [ss[k]];
    }
  }

  // ----- round trip on values

  lemma DecodeMatchPart(s: Sequence, post: seq<Byte>, out: seq<Byte>, cap: int)
    requires WellFormed(s) && s.offset <= |out| && |out| + s.matchLen <= cap
    ensures var ml := s.matchLen - MINMATCH;
            DecodeMatch([s.offset % 256, s.offset / 256] + Ext(ml) + post, Nibble(ml), out, cap)
              == Decode(post, MatchCopy(out, s.offset, s.matchLen), cap)
  {
    hide ReadLen, MatchCopy, Ext, Decode;
    var ml := s.matchLen - MINMATCH;
    var tail: seq<Byte> := [s.offset % 256, s.offset / 256] + Ext(ml) + post;
    assert tail[2..] == Ext(ml) + post;
    ReadLenExt(ml, post);
    assert tail[0] as int + 256 * (tail[1] as int) == s.offset;
  }

  /** The first half of a sequence: token, literal length and literals. */
  function LiteralPart(lits: seq<Byte>, nibble: nat): (r: seq<Byte>)
    requires nibble < 16
    ensures r != []
  {
    [16 * Nibble(|lits|) + nibble] + Ext(|lits|) + lits
  }

  lemma DecodeLiterals(lits: seq<Byte>, nibble: nat, tail: seq<Byte>, out: seq<Byte>, cap: int)
    requires nibble < 16 && |out| + |lits| <= cap
    ensures Decode(LiteralPart(lits, nibble) + tail, out, cap) == DecodeMatch(tail, nibble, out + lits, cap)
  {
    hide ReadLen, DecodeMatch, Ext;
    var rest: seq<Byte> := LiteralPart(lits, nibble) + tail;
    assert rest[1..] == Ext(|lits|) + (lits + tail);
    ReadLenExt(|lits|, lits + tail);
    assert (lits + tail)[|lits|..] == tail && (lits + tail)[..|lits|] == lits;
  }

  lemma DecodeSequence(s: Sequence, post: seq<Byte>, out: seq<Byte>, cap: int)
    requires Expandable(out, s) && |out| + |s.lits| + s.matchLen <= cap
    ensures Decode(EncodeSequence(s) + post, out, cap) == Decode(post, ExpandOne(out, s), cap)
  {
    hide Decode, DecodeMatch, MatchCopy, Ext;
    var ml := s.matchLen - MINMATCH;
    var tail: seq<Byte> := [s.offset % 256, s.offset / 256] + Ext(ml) + post;
    DecodeLiterals(s.lits, Nibble(ml), tail, out, cap);
    assert EncodeSequence(s) + post == LiteralPart(s.lits, Nibble(ml)) + tail;
    DecodeMatchPart(s, post, out + s.lits, cap);
  }

  lemma DecodeLast(lits: seq<Byte>, out: seq<Byte>, cap: int)
    requires |out| + |lits| <= cap
    ensures Decode(EncodeLast(lits), out, cap) == Some(out + lits)
  {
    if lits != [] {
      DecodeLiterals(lits, 0, [], out, cap);
      assert EncodeLast(lits) == LiteralPart(lits, 0) + [];
    } else {
      assert out + lits == out;
    }
  }

  /** Decoding the bytes of sequences and last literals gives back what they stand for. */
  lemma {:induction false} DecodeAll(ss: seq<Sequence>, post: seq<Byte>, out: seq<Byte>, cap: int)
    requires Expands(ss, out) && |out| <= cap
    requires forall s | s in ss :: WellFormed(s)
    ensures Decode(EncodeAll(ss) + post, [], cap) == Decode(post, out, cap)
    decreases |ss|
  {
    hide Decode, EncodeSequence, MatchCopy;
    if ss == [] {
      assert EncodeAll(ss) + post == post;
    } else {
      var k := |ss| - 1;
      var s := ss[k];
      var before := out[..|out| - |s.lits| - s.matchLen];
      DecodeAll(ss[..k], EncodeSequence(s) + post, before, cap);
      assert EncodeAll(ss) + post == EncodeAll(ss[..k]) + (EncodeSequence(s) + post);
      DecodeSequence(s, post, before, cap);
    }
  }

  // ----- the bytes of the format

  lemma {:induction false} ExtBytesAt(n: nat)
    ensures |ExtBytes(n)| == n / 255 + 1 && ExtBytes(n)[n / 255] == n % 255
    ensures forall i: nat | i < n / 255 :: ExtBytes(n)[i] == 255
  {
    if n >= 255 {
      ExtBytesAt(n - 255);
      assert n / 255 == (n - 255) / 255 + 1 && n % 255 == (n - 255) % 255;
    }
  }

  /** How many bytes continue a length. */
  function ExtCount(n: nat): nat {
    if n < 15 then 0 else (n - 15) / 255 + 1
  }

  lemma ExtLayout(n: nat)
    ensures |Ext(n)| == ExtCount(n) && (n >= 15 ==> Ext(n)[(n - 15) / 255] == (n - 15) % 255)
    ensures forall i: nat | i + 1 < ExtCount(n) :: Ext(n)[i] == 255
  {
    if n >= 15 {
      ExtBytesAt(n - 15);
    }
  }

  /** The block format, byte by byte: token, literal length, literals, little-endian offset, match length. */
  lemma SequenceLayout(s: Sequence)
    requires WellFormed(s)
    ensures var n, m, e := |s.lits|, s.matchLen - 4, EncodeSequence(s);
            && |e| == 3 + ExtCount(n) + n + ExtCount(m)
            && e[0] == 16 * (if n < 15 then n else 15) + (if m < 15 then m else 15)
            && (forall k | 1 <= k < ExtCount(n) :: e[k] == 255)
            && (n >= 15 ==> e[ExtCount(n)] == (n - 15) % 255)
    ensures var n, e := |s.lits|, EncodeSequence(s);
            var at := 1 + ExtCount(n) + n;
            at + 2 <= |e| && e[at - n..at] == s.lits && e[at] == s.offset % 256 && e[at + 1] == s.offset / 256
    ensures var m, e := s.matchLen - 4, EncodeSequence(s);
            && (forall k: nat | |e| - ExtCount(m) <= k < |e| - 1 :: e[k] == 255)
            && (m >= 15 ==> e[|e| - 1] == (m - 15) % 255)
  {
    hide Ext;
    var n, m, e := |s.lits|, s.matchLen - 4, EncodeSequence(s);
    ExtLayout(n);
    ExtLayout(m);
    HeadOf(s);
    TailOf(s);
  }

  lemma HeadOf(s: Sequence)
    requires WellFormed(s)
    ensures var n, m, e := |s.lits|, s.matchLen - 4, EncodeSequence(s);
            && |e| == 3 + |Ext(n)| + n + |Ext(m)| && e[0] == 16 * Nibble(n) + Nibble(m)
            && e[1..1 + |Ext(n)|] == Ext(n) && e[1 + |Ext(n)|..1 + |Ext(n)| + n] == s.lits
    ensures forall k | 1 <= k < 1 + |Ext(|s.lits|)| :: EncodeSequence(s)[k] == Ext(|s.lits|)[k - 1]
  {
    hide Ext;
  }

  lemma TailOf(s: Sequence)
    requires WellFormed(s)
    ensures var n, m, e := |s.lits|, s.matchLen - 4, EncodeSequence(s);
            var at := 1 + |Ext(n)| + n;
            && |e| == at + 2 + |Ext(m)| && e[at] == s.offset % 256 && e[at + 1] == s.offset / 256
    ensures var x, e := Ext(s.matchLen - 4), EncodeSequence(s);
            forall k | |e| - |x| <= k < |e| :: e[k] == x[k - (|e| - |x|)]
  {
    hide Ext;
  }

  /** Closing literals: nothing if there are none, else token, length and literals. */
  lemma LastLayout(lits: seq<Byte>)
    ensures var n, e := |lits|, EncodeLast(lits);
            if n == 0 then e == []
            else
              && |e| == 1 + ExtCount(n) + n && e[0] == 16 * (if n < 15 then n else 15) && e[1 + ExtCount(n)..] == lits
              && (forall k | 1 <= k < ExtCount(n) :: e[k] == 255) && (n >= 15 ==> e[ExtCount(n)] == (n - 15) % 255)
  {
    hide Ext;
    ExtLayout(|lits|);
  }
}
