/**
 The LZ4 compressor and decompressor of `lz4.c`: moving positions, a hash table and an
 output buffer updated in loops, proved against the block format.  Pointers are offsets
 from the buffer they point into.
 */
module Lz4 {
  import opened Bits
  import opened Lz4Format
  import opened Lz4Output
  import opened Lz4Search
  import opened Memory
  import opened Options

  lemma OrNibbles(hi: nat, lo: nat)
    requires hi < 16 && lo < 16
    ensures Or(16 * hi, lo) == 16 * hi + lo
  {
    assert Pow2(4) == 16;
    DownIsMod(16 * hi, 4);
    OrLowBits(16 * hi, lo, 4);
  }

  // ----- output buffer

  /** `lz4_write_literal`: the token with an empty match nibble, and the rest of the literal length. */
  method WriteLiteral(dst: array<Byte>, op: nat, literalLen: nat) returns (written: nat)
    requires op + 1 + |Ext(literalLen)| <= dst.Length
    modifies dst
    ensures written == 1 + |Ext(literalLen)|
    ensures dst[..op + written] == old(dst[..op]) + [16 * Nibble(literalLen)] + Ext(literalLen)
    ensures dst[op + written..] == old(dst[op + written..])
  {
    written := 1;
    if literalLen >= 15 {
      dst[op] := 240;
      var more := WriteExt(dst, op + 1, literalLen - 15);
      written := 1 + more;
    } else {
      dst[op] := literalLen * 16;
    }
  }

  /** The loop that writes 255 bytes and a remainder. */
  method WriteExt(dst: array<Byte>, op: nat, len: nat) returns (written: nat)
    requires op + |ExtBytes(len)| <= dst.Length
    modifies dst
    ensures written == |ExtBytes(len)|
    ensures dst[..op + written] == old(dst[..op]) + ExtBytes(len)
    ensures dst[op + written..] == old(dst[op + written..])
  {
    hide ExtBytes, Wrote;
    written := 0;
    var rest := len;
    ghost var start, bytes: seq<Byte> := dst[..], [];
    WroteNothing(start, op);
    while rest >= 255
      invariant |bytes| == written && bytes + ExtBytes(rest) == ExtBytes(len)
      invariant Wrote(start, dst[..], op, op + written, bytes) && dst[op + written..] == start[op + written..]
    {
      MoreExt(bytes, rest, len);
      PutByte(dst, op, op + written, 255, start, bytes);
      bytes := bytes + [255];
      written := written + 1;
      rest := rest - 255;
    }
    LastExt(bytes, rest, len);
    PutByte(dst, op, op + written, rest, start, bytes);
    written := written + 1;
    WroteBytes(start, dst[..], op, op + written, ExtBytes(len));
  }

  lemma MoreExt(bytes: seq<Byte>, rest: nat, len: nat)
    requires rest >= 255 && bytes + ExtBytes(rest) == ExtBytes(len)
    ensures bytes + [255] + ExtBytes(rest - 255) == ExtBytes(len) && |bytes| < |ExtBytes(len)|
  {
    hide ExtBytes;
    ExtShape(rest);
    assert bytes + [255] + ExtBytes(rest - 255) == bytes + ([255] + ExtBytes(rest - 255));
  }

  lemma LastExt(bytes: seq<Byte>, rest: nat, len: nat)
    requires rest < 255 && bytes + ExtBytes(rest) == ExtBytes(len)
    ensures bytes + [rest] == ExtBytes(len)
  {
    hide ExtBytes;
    ExtShape(rest);
  }

  lemma WroteBytes(before: seq<Byte>, after: seq<Byte>, op: nat, to: int, bytes: seq<Byte>)
    requires Wrote(before, after, op, to, bytes)
    ensures op <= to == op + |bytes| <= |after| == |before| && after[..to] == before[..op] + bytes
  {
  }

  /** One more byte behind those written so far. */
  method PutByte(dst: array<Byte>, op: nat, at: nat, v: Byte, ghost before: seq<Byte>, ghost bytes: seq<Byte>)
    requires at < dst.Length && Wrote(before, dst[..], op, at, bytes) && dst[at..] == before[at..]
    modifies dst
    ensures Wrote(before, dst[..], op, at + 1, bytes + [v]) && dst[at + 1..] == before[at + 1..]
  {
    ghost var mid := dst[..];
    WriteByte(dst, at, v);
    Suffix(mid, before, at, at + 1);
  }

  /** `*op++ = v`. */
  method WriteByte(dst: array<Byte>, op: nat, v: Byte)
    requires op < dst.Length
    modifies dst
    ensures dst[..op + 1] == old(dst[..op]) + [v] && dst[op + 1..] == old(dst[op + 1..])
  {
    dst[op] := v;
  }

  /** The match-length loop, which checks the capacity before every byte; -1 when it runs out. */
  method WriteMatchExt(dst: array<Byte>, op: nat, len: nat, cap: int) returns (ret: int)
    requires op <= cap <= dst.Length
    modifies dst
    ensures if op + |ExtBytes(len)| <= cap
            then ret == op + |ExtBytes(len)| && dst[..ret] == old(dst[..op]) + ExtBytes(len)
            else ret == -1
    ensures dst[cap..] == old(dst[cap..])
  {
    hide ExtBytes;
    var at, rest := op, len;
    ExtShape(rest);
    while rest >= 255
      invariant op <= at <= cap && at + |ExtBytes(rest)| == op + |ExtBytes(len)|
      invariant dst[..at] + ExtBytes(rest) == old(dst[..op]) + ExtBytes(len)
      invariant dst[cap..] == old(dst[cap..])
    {
      ExtShape(rest);
      if at >= cap {
        return -1;
      }
      ghost var prefix, before := dst[..at], dst[..];
      WriteByte(dst, at, 255);
      Suffix(dst[..], before, at + 1, cap);
      assert prefix + [255] + ExtBytes(rest - 255) == prefix + ([255] + ExtBytes(rest - 255));
      at := at + 1;
      rest := rest - 255;
    }
    ExtShape(rest);
    if at >= cap {
      return -1;
    }
    ghost var before := dst[..];
    WriteByte(dst, at, rest);
    Suffix(dst[..], before, at + 1, cap);
    ret := at + 1;
  }

  lemma ExtCases(n: nat)
    ensures Ext(n) == if n < 15 then [] else ExtBytes(n - 15)
  {
  }

  function Max(a: int, b: int): int {
    if a > b then a else b
  }

  /**
   The first half of a sequence: token, literal length and literals; -1 when the literals do
   not fit.  Token and length are written before that is known, even past the capacity.
   */
  method EmitLiterals(dst: array<Byte>, cap: int, op: nat, lits: seq<Byte>, ml: nat) returns (ret: int)
    requires cap <= dst.Length && op + 1 + |Ext(|lits|)| <= dst.Length
    modifies dst
    ensures var head := op + 1 + |Ext(|lits|)|;
            if head + |lits| <= cap
            then ret == head + |lits| && Wrote(old(dst[..]), dst[..], op, ret, LiteralBytes(lits, ml))
            else ret == -1 && dst[..head] == old(dst[..op]) + Header(|lits|)
    ensures var m := Max(cap, op + 1 + |Ext(|lits|)|); dst[m..] == old(dst[m..])
  {
    hide Or, Ext, ExtBytes;
    var tokenAt := op;
    ghost var before, header := dst[..op], Header(|lits|);
    var written := WriteLiteral(dst, op, |lits|);
    assert dst[..op + written] == before + header;
    hide Header;
    var at := op + written;
    if at + |lits| > cap {
      Suffix(dst[..], old(dst[..]), at, Max(cap, at));
      return -1;
    }
    ghost var mid := dst[..];
    CopyIn(dst, at, lits);
    at := at + |lits|;
    assert dst[..at] == before + header + lits && dst[at..] == mid[at..];
    PatchToken(dst, tokenAt, at, lits, ml, before);
    Suffix(mid, old(dst[..]), op + written, at);
    Suffix(dst[..], old(dst[..]), at, cap);
    ret := at;
  }

  /** The match nibble joins the token once the literals are in place. */
  method PatchToken(dst: array<Byte>, tokenAt: nat, at: nat, lits: seq<Byte>, ml: nat, ghost before: seq<Byte>)
    requires tokenAt == |before| < at <= dst.Length && dst[..at] == before + Header(|lits|) + lits
    modifies dst
    ensures dst[..at] == before + LiteralBytes(lits, ml) && dst[at..] == old(dst[at..])
  {
    hide Or, Header, LiteralBytes, Ext;
    ghost var full := dst[..at];
    TokenByte(before, lits, ml, full);
    dst[tokenAt] := Or(dst[tokenAt], if ml < 15 then ml else 15);
    TokenSet(before, lits, ml, full, dst[..at]);
  }

  lemma TokenByte(before: seq<Byte>, lits: seq<Byte>, ml: nat, full: seq<Byte>)
    requires full == before + Header(|lits|) + lits
    ensures full[|before|] == 16 * Nibble(|lits|) && Or(full[|before|], Nibble(ml)) == Token(|lits|, ml)
  {
    hide Or, Ext;
    OrNibbles(Nibble(|lits|), Nibble(ml));
  }

  /** Or-ing the match nibble into the header's token. */
  lemma TokenSet(before: seq<Byte>, lits: seq<Byte>, ml: nat, full: seq<Byte>, patched: seq<Byte>)
    requires full == before + Header(|lits|) + lits && |patched| == |full|
    requires forall k | 0 <= k < |full| && k != |before| :: patched[k] == full[k]
    requires patched[|before|] == Or(full[|before|], Nibble(ml))
    ensures patched == before + LiteralBytes(lits, ml)
  {
    hide Or, Ext;
    TokenByte(before, lits, ml, full);
    assert full == before + ([16 * Nibble(|lits|)] + Ext(|lits|) + lits);
  }

  lemma Suffix(s: seq<Byte>, t: seq<Byte>, k: nat, m: nat)
    requires |s| == |t| && k <= m <= |s| && s[k..] == t[k..]
    ensures s[m..] == t[m..]
  {
    assert s[m..] == s[k..][m - k..] && t[m..] == t[k..][m - k..];
  }

  /** Writes one sequence; -1 exactly when it does not fit the capacity. */
  method EmitSequence(src: seq<Byte>, dst: array<Byte>, cap: int, op: nat,
                      anchor: nat, ip: nat, matchEnd: nat, offset: nat) returns (ret: int)
    requires anchor <= ip && ip + MINMATCH <= matchEnd <= |src| && 0 < offset < 65536 && cap <= dst.Length
    requires op + 1 + |Ext(ip - anchor)| <= dst.Length
    modifies dst
    ensures var m := Max(cap, op + 1 + |Ext(ip - anchor)|); dst[m..] == old(dst[m..])
    ensures var head := op + |Header(ip - anchor)|;
            head > cap ==> dst[..head] == old(dst[..op]) + Header(ip - anchor)
    ensures var enc := EncodeSequence(Sequence(src[anchor..ip], offset, matchEnd - ip));
            if op + |enc| <= cap
            then ret == op + |enc| && Wrote(old(dst[..]), dst[..], op, ret, enc)
            else ret == -1
  {
    hide Ext, Token, Header, EncodeSequence, LiteralBytes, MatchBytes, Wrote;
    var lits, ml := src[anchor..ip], matchEnd - ip - MINMATCH;
    ghost var s := Sequence(lits, offset, matchEnd - ip);
    EncodeParts(s);
    ret := EmitLiterals(dst, cap, op, lits, ml);
    if ret >= 0 {
      var at := ret;
      ghost var mid := dst[..];
      ret := EmitMatch(dst, cap, at, offset, ml);
      if ret >= 0 {
        WroteBoth(old(dst[..]), mid, dst[..], op, at, ret, LiteralBytes(lits, ml), MatchBytes(offset, ml));
      }
    }
  }

  /** From `op` to `to`, `bytes` were written; what is before them stayed. */
  predicate Wrote(before: seq<Byte>, after: seq<Byte>, op: nat, to: int, bytes: seq<Byte>) {
    to == op + |bytes| <= |after| == |before| && after[..to] == before[..op] + bytes
  }

  lemma WroteNothing(s: seq<Byte>, op: nat)
    requires op <= |s|
    ensures Wrote(s, s, op, op, [])
  {
  }

  lemma WroteBoth(s: seq<Byte>, t: seq<Byte>, u: seq<Byte>, op: nat, at: nat, to: nat, x: seq<Byte>, y: seq<Byte>)
    requires Wrote(s, t, op, at, x) && Wrote(t, u, at, to, y)
    ensures Wrote(s, u, op, to, x + y)
  {
  }

  function LiteralBytes(lits: seq<Byte>, ml: nat): seq<Byte> {
    [Token(|lits|, ml)] + Ext(|lits|) + lits
  }

  function MatchBytes(offset: nat, ml: nat): seq<Byte>
    requires offset < 65536
  {
    [offset % 256, offset / 256] + Ext(ml)
  }

  lemma EncodeParts(s: Sequence)
    requires WellFormed(s)
    ensures var ml := s.matchLen - MINMATCH;
            && EncodeSequence(s) == LiteralBytes(s.lits, ml) + MatchBytes(s.offset, ml)
            && |LiteralBytes(s.lits, ml)| == |Header(|s.lits|)| + |s.lits| && |Header(|s.lits|)| == 1 + |Ext(|s.lits|)|
            && |MatchBytes(s.offset, ml)| == 2 + |Ext(ml)|
  {
  }

  /** The second half: offset and match length, each byte tested against the capacity. */
  method EmitMatch(dst: array<Byte>, cap: int, op: nat, offset: nat, ml: nat) returns (ret: int)
    requires op <= cap <= dst.Length && offset < 65536
    modifies dst
    ensures if op + 2 + |Ext(ml)| <= cap
            then ret == op + 2 + |Ext(ml)| && Wrote(old(dst[..]), dst[..], op, ret, MatchBytes(offset, ml))
            else ret == -1
    ensures dst[cap..] == old(dst[cap..])
  {
    hide ExtBytes, Ext;
    ExtCases(ml);
    if op + 2 > cap {
      return -1;
    }
    ghost var before := dst[..op];
    dst[op] := offset % 256;
    dst[op + 1] := offset / 256;
    ret := op + 2;
    assert dst[..ret] == before + [offset % 256, offset / 256];
    assert before + [offset % 256, offset / 256] + Ext(ml) == before + ([offset % 256, offset / 256] + Ext(ml));
    if ml >= 15 {
      ret := WriteMatchExt(dst, ret, ml - 15, cap);
    }
  }

  // ----- the compressor

  /** Copying a repeating stretch byte by byte reproduces it. */
  lemma {:induction false} CopyRepeats(src: seq<Byte>, from: nat, to: nat, offset: nat)
    requires 0 < offset <= from <= to <= |src| && Repeats(src, from, to, offset)
    ensures MatchCopy(src[..from], offset, to - from) == src[..to]
    decreases |src| - from
  {
    if from < to {
      assert SameAs(src, from, offset);
      assert src[..from] + [src[from - offset]] == src[..from + 1];
      CopyRepeats(src, from + 1, to, offset);
    }
  }

  /**
   The run invariant: what is written so far decodes to the input up to `anchor`, and is no longer
   than the potential allows.
   */
  ghost predicate Encoded(src: seq<Byte>, anchor: nat, ss: seq<Sequence>, bytes: seq<Byte>) {
    && anchor <= |src| && (forall s | s in ss :: WellFormed(s))
    && Expands(ss, src[..anchor])
    && bytes == EncodeAll(ss)
    && |bytes| <= anchor + anchor / 255
  }

  lemma EncodedStart(src: seq<Byte>)
    ensures Encoded(src, 0, [], [])
  {
  }

  lemma EncodedSize(src: seq<Byte>, anchor: nat, ss: seq<Sequence>, bytes: seq<Byte>)
    requires Encoded(src, anchor, ss, bytes)
    ensures anchor <= |src| && |bytes| <= anchor + anchor / 255
  {
  }

  lemma EncodedStep(src: seq<Byte>, anchor: nat, ss: seq<Sequence>, bytes: seq<Byte>, ip: nat, matchEnd: nat,
                    offset: nat)
    requires Encoded(src, anchor, ss, bytes)
    requires anchor <= ip && ip + MINMATCH <= matchEnd <= |src| && 0 < offset < 65536 && offset <= ip
    requires Repeats(src, ip, matchEnd, offset)
    ensures var s := Sequence(src[anchor..ip], offset, matchEnd - ip);
            Encoded(src, matchEnd, ss + [s], bytes + EncodeSequence(s))
  {
    hide Expands, Repeats, EncodeSequence, EncodeAll;
    var s := Sequence(src[anchor..ip], offset, matchEnd - ip);
    ExpandsStep(src, anchor, ss, ip, matchEnd, offset);
    EncodeAllStep(ss, s);
    SequenceCost(s);
    PotentialStep(|bytes|, anchor, ip - anchor, matchEnd - ip, |EncodeSequence(s)|);
  }

  lemma EncodeAllStep(ss: seq<Sequence>, s: Sequence)
    requires (forall s | s in ss :: WellFormed(s)) && WellFormed(s)
    ensures forall t | t in ss + [s] :: WellFormed(t)
    ensures EncodeAll(ss + [s]) == EncodeAll(ss) + EncodeSequence(s)
  {
    assert (ss + [s])[..|ss|] == ss;
  }

  lemma ExpandsStep(src: seq<Byte>, anchor: nat, ss: seq<Sequence>, ip: nat, matchEnd: nat, offset: nat)
    requires anchor <= ip && ip + MINMATCH <= matchEnd <= |src| && 0 < offset < 65536 && offset <= ip
    requires Expands(ss, src[..anchor]) && Repeats(src, ip, matchEnd, offset)
    ensures Expands(ss + [Sequence(src[anchor..ip], offset, matchEnd - ip)], src[..matchEnd])
  {
    hide MatchCopy, Repeats;
    var s := Sequence(src[anchor..ip], offset, matchEnd - ip);
    var ss' := ss + [s];
    assert ss'[..|ss|] == ss;
    assert src[..anchor] + s.lits == src[..ip];
    assert src[..matchEnd][..anchor] == src[..anchor];
    CopyRepeats(src, ip, matchEnd, offset);
  }

  lemma EncodedLast(src: seq<Byte>, anchor: nat, ss: seq<Sequence>, bytes: seq<Byte>, cap: int)
    requires Encoded(src, anchor, ss, bytes) && |src| <= cap
    ensures Decode(bytes + EncodeLast(src[anchor..]), [], cap) == Some(src)
  {
    hide Decode, EncodeAll, EncodeLast, Expands;
    DecodeAll(ss, EncodeLast(src[anchor..]), src[..anchor], cap);
    DecodeLast(src[anchor..], src[..anchor], cap);
    assert src[..anchor] + src[anchor..] == src;
  }

  /** `_last_literals`: the bytes after the last match; -1 when its size estimate exceeds the capacity. */
  method EmitLast(src: seq<Byte>, anchor: nat, dst: array<Byte>, cap: int, op: nat) returns (ret: int)
    requires anchor <= |src| && cap <= dst.Length && op <= dst.Length && op <= anchor + anchor / 255
    modifies dst
    ensures ret == -1 || Wrote(old(dst[..]), dst[..], op, ret, EncodeLast(src[anchor..]))
    ensures ret == -1 <==> anchor < |src| && op + Estimate(|src| - anchor) > cap
    ensures ret == -1 ==> cap < LastBound(|src|)
    ensures ret <= LastBound(|src|) && (op <= cap ==> ret <= cap && dst[cap..] == old(dst[cap..]))
  {
    hide ExtBytes, Ext, Wrote, EncodeLast, LastHead, Estimate, LastBound;
    var run := |src| - anchor;
    LastParts(src[anchor..]);
    LastCost(op, anchor, run);
    if run == 0 {
      WroteNothing(dst[..], op);
      return op;
    }
    if op + Estimate(run) > cap {
      return -1;
    }
    ghost var before := dst[..];
    var at := LastHeader(dst, op, run);
    ghost var mid := dst[..];
    CopyIn(dst, at, src[anchor..]);
    ret := at + run;
    Copied(mid, dst[..], at, src[anchor..]);
    WroteBoth(before, mid, dst[..], op, at, ret, LastHead(run), src[anchor..]);
    Suffix(mid, before, at, ret);
    if op <= cap {
      Suffix(dst[..], before, ret, cap);
    }
  }

  function LastHead(run: nat): seq<Byte> {
    [Token(run, 0)] + Ext(run)
  }

  lemma LastParts(lits: seq<Byte>)
    ensures EncodeLast(lits) == if lits == [] then [] else LastHead(|lits|) + lits
    ensures |LastHead(|lits|)| == 1 + |Ext(|lits|)|
  {
  }

  lemma Copied(before: seq<Byte>, after: seq<Byte>, at: nat, data: seq<Byte>)
    requires at + |data| <= |before| && after == before[..at] + data + before[at + |data|..]
    ensures Wrote(before, after, at, at + |data|, data) && after[at + |data|..] == before[at + |data|..]
  {
  }

  /** Token and length of the closing literals. */
  method LastHeader(dst: array<Byte>, op: nat, run: nat) returns (at: nat)
    requires op + 1 + |Ext(run)| <= dst.Length
    modifies dst
    ensures at == op + 1 + |Ext(run)| && Wrote(old(dst[..]), dst[..], op, at, LastHead(run))
    ensures dst[at..] == old(dst[at..])
  {
    hide ExtBytes, Wrote;
    ghost var start := dst[..];
    WriteByte(dst, op, if run < 15 then run * 16 else 240);
    HeadByte(start, dst[..], op, run);
    at := op + 1;
    ExtCases(run);
    if run >= 15 {
      ghost var mid := dst[..];
      var more := WriteExt(dst, at, run - 15);
      WroteNow(mid, dst[..], at, at + more, Ext(run));
      WroteBoth(start, mid, dst[..], op, at, at + more, [Token(run, 0)], Ext(run));
      Suffix(mid, start, at, at + more);
      at := at + more;
    } else {
      assert [Token(run, 0)] + Ext(run) == [Token(run, 0)];
    }
  }

  lemma HeadByte(before: seq<Byte>, after: seq<Byte>, op: nat, run: nat)
    requires op < |before| == |after|
    requires after[..op + 1] == before[..op] + [if run < 15 then run * 16 else 240]
    ensures Wrote(before, after, op, op + 1, [Token(run, 0)])
  {
  }

  lemma WroteNow(before: seq<Byte>, after: seq<Byte>, op: nat, to: nat, bytes: seq<Byte>)
    requires to == op + |bytes| <= |after| == |before| && after[..to] == before[..op] + bytes
    ensures Wrote(before, after, op, to, bytes)
  {
  }

  /** One turn of the main loop that found a match: the run invariant moves to its end, or the output does not fit. */
  method MatchRound(src: seq<Byte>, dst: array<Byte>, cap: nat, anchor: nat, ip: nat, op: nat,
                    matchEnd: nat, offset: nat, ghost ss: seq<Sequence>) returns (ret: int)
    requires anchor <= ip && ip + MINMATCH <= matchEnd <= |src| && 0 < offset < 65536 && offset <= ip
    requires cap <= dst.Length && op <= cap && op + |Header(ip - anchor)| <= dst.Length
    requires Encoded(src, anchor, ss, dst[..op])
    requires Repeats(src, ip, matchEnd, offset)
    modifies dst
    ensures var s := Sequence(src[anchor..ip], offset, matchEnd - ip);
            if op + |EncodeSequence(s)| <= cap
            then ret == op + |EncodeSequence(s)| && Encoded(src, matchEnd, ss + [s], dst[..ret])
                 && dst[cap..] == old(dst[cap..])
            else ret == -1 && PastCap(old(dst[..]), dst[..], cap, Over(op, cap, ip - anchor))
  {
    hide Encoded, Repeats, EncodeSequence, Header, Ext, PastCap, Over;
    ghost var s := Sequence(src[anchor..ip], offset, matchEnd - ip);
    ghost var before := dst[..];
    EncodedStep(src, anchor, ss, dst[..op], ip, matchEnd, offset);
    HeaderSize(s);
    ret := EmitSequence(src, dst, cap, op, anchor, ip, matchEnd, offset);
    HeaderPast(before, dst[..], op, cap, ip - anchor);
  }

  /** The header is part of the sequence. */
  lemma HeaderSize(s: Sequence)
    requires WellFormed(s)
    ensures |Header(|s.lits|)| == 1 + |Ext(|s.lits|)| <= |EncodeSequence(s)|
  {
  }

  /** Past the capacity, `spill` was written and nothing else. */
  predicate PastCap(before: seq<Byte>, after: seq<Byte>, cap: nat, spill: seq<Byte>) {
    cap + |spill| <= |before| && |after| == |before| && after[cap..] == spill + before[cap + |spill|..]
  }

  lemma HeaderPast(before: seq<Byte>, after: seq<Byte>, op: nat, cap: nat, n: nat)
    requires |after| == |before| && op <= cap <= |before| && op + |Header(n)| <= |before|
    requires var m := Max(cap, op + |Header(n)|); after[m..] == before[m..]
    requires op + |Header(n)| > cap ==> after[..op + |Header(n)|] == before[..op] + Header(n)
    ensures PastCap(before, after, cap, Over(op, cap, n))
    ensures op + |Header(n)| <= cap ==> after[cap..] == before[cap..]
  {
    hide Header;
    var head := op + |Header(n)|;
    if head > cap {
      assert after[cap..] == after[..head][cap..] + after[head..];
      assert (before[..op] + Header(n))[cap..] == Header(n)[cap - op..];
    }
  }

  // ----- following the plan

  /** The main loop at `ip` has emitted `ss`, all of which fit, and the rest of the plan lies ahead. */
  ghost predicate Ahead(src: seq<Byte>, acceleration: int, cap: nat, ss: seq<Sequence>, ip: nat, anchor: nat,
                        table: seq<nat>)
  {
    && anchor <= ip && IsTable(table, ip) && (forall s | s in ss :: WellFormed(s))
    && var plan, next := PlanOf(src, acceleration), Plan(src, acceleration, ip, anchor, table);
    && plan == ss + next && Covered(plan) == anchor + Covered(next)
    && FirstFrom(plan, cap, 0) == FirstFrom(plan, cap, |ss|)
  }

  lemma AheadStart(src: seq<Byte>, acceleration: int, cap: nat, table: seq<nat>)
    requires |table| == HASH_TABLE_SIZE && forall h | 0 <= h < HASH_TABLE_SIZE :: table[h] == 0
    ensures Ahead(src, acceleration, cap, [], 0, 0, table)
  {
    assert table == Zeros(HASH_TABLE_SIZE);
  }

  lemma AheadSkip(src: seq<Byte>, acceleration: int, cap: nat, ss: seq<Sequence>, ip: nat, anchor: nat,
                  table: seq<nat>)
    requires Ahead(src, acceleration, cap, ss, ip, anchor, table) && ip < |src| - MF_LIMIT
    requires !Usable(src, ip, table[Hash(Read32(src, ip))])
    ensures Ahead(src, acceleration, cap, ss, ip + Stride(acceleration), anchor, table[Hash(Read32(src, ip)) := ip])
  {
    hide Plan, PlanOf, Hash, Read32, Usable, FirstFrom;
    PlanSkip(src, acceleration, ip, anchor, table);
  }

  /** The next sequence of the plan is the match just found; when it does not fit, the plan fails there. */
  lemma AheadMatch(src: seq<Byte>, acceleration: int, cap: nat, ss: seq<Sequence>, ip: nat, anchor: nat,
                   table: seq<nat>)
    requires Ahead(src, acceleration, cap, ss, ip, anchor, table) && ip < |src| - MF_LIMIT
    requires Usable(src, ip, table[Hash(Read32(src, ip))]) && |EncodeAll(ss)| <= cap
    ensures var h := Hash(Read32(src, ip));
            var e := MatchEnd(src, ip + MINMATCH, ip - table[h]);
            var s := Sequence(src[anchor..ip], ip - table[h], e - ip);
            var plan := PlanOf(src, acceleration);
            if |EncodeAll(ss)| + |EncodeSequence(s)| <= cap
            then Ahead(src, acceleration, cap, ss + [s], e, e, table[h := ip])
            else FirstFrom(plan, cap, 0) == |ss| < |plan| && Spill(plan, cap) == Over(|EncodeAll(ss)|, cap, ip - anchor)
  {
    hide Plan, PlanOf, Hash, Read32, Usable, MatchEnd, Spill, Over, FirstFrom, EncodeAll, EncodeSequence, Covered;
    PlanMatch(src, acceleration, ip, anchor, table);
    var h := Hash(Read32(src, ip));
    var e := MatchEnd(src, ip + MINMATCH, ip - table[h]);
    var s := Sequence(src[anchor..ip], ip - table[h], e - ip);
    var plan, after := PlanOf(src, acceleration), Plan(src, acceleration, e, e, table[h := ip]);
    assert plan == ss + [s] + after;
    NextSequence(plan, ss, s, after, cap);
  }

  lemma NextSequence(plan: seq<Sequence>, ss: seq<Sequence>, s: Sequence, after: seq<Sequence>, cap: nat)
    requires (forall t | t in plan :: WellFormed(t)) && plan == ss + [s] + after
    requires FirstFrom(plan, cap, 0) == FirstFrom(plan, cap, |ss|)
    ensures (forall t | t in ss + [s] :: WellFormed(t)) && (forall t | t in ss :: WellFormed(t)) && WellFormed(s)
    ensures if |EncodeAll(ss)| + |EncodeSequence(s)| <= cap
            then FirstFrom(plan, cap, 0) == FirstFrom(plan, cap, |ss + [s]|)
            else FirstFrom(plan, cap, 0) == |ss| < |plan| && |EncodeAll(ss)| <= cap
                 && Spill(plan, cap) == Over(|EncodeAll(ss)|, cap, |s.lits|)
  {
    forall t | t in ss + [s]
      ensures t in plan
    {
    }
    hide EncodeAll, EncodeSequence, Over, FirstFrom;
    PrefixSizes(plan, ss, s, after);
    FirstStep(plan, cap, |ss|);
    PrefixFits(plan, cap);
  }

  lemma PrefixSizes(plan: seq<Sequence>, ss: seq<Sequence>, s: Sequence, after: seq<Sequence>)
    requires (forall t | t in plan :: WellFormed(t)) && plan == ss + [s] + after
    requires (forall t | t in ss :: WellFormed(t)) && WellFormed(s)
    ensures plan[|ss|] == s && PrefixSize(plan, |ss|) == |EncodeAll(ss)|
    ensures PrefixSize(plan, |ss| + 1) == |EncodeAll(ss)| + |EncodeSequence(s)|
  {
    assert plan[..|ss|] == ss && plan[..|ss| + 1] == ss + [s];
    EncodeAllStep(ss, s);
    hide EncodeAll, EncodeSequence;
  }

  lemma FirstStep(plan: seq<Sequence>, cap: nat, k: nat)
    requires (forall t | t in plan :: WellFormed(t)) && k < |plan|
    ensures FirstFrom(plan, cap, k) == if PrefixSize(plan, k + 1) > cap then k else FirstFrom(plan, cap, k + 1)
  {
  }

  lemma AheadEnd(src: seq<Byte>, acceleration: int, cap: nat, ss: seq<Sequence>, ip: nat, anchor: nat,
                 table: seq<nat>)
    requires Ahead(src, acceleration, cap, ss, ip, anchor, table) && ip >= |src| - MF_LIMIT && anchor <= |src|
    ensures var plan := PlanOf(src, acceleration);
            plan == ss && Spill(plan, cap) == [] && FirstFrom(plan, cap, 0) == |plan|
             && Rest(src, plan) == src[anchor..]
  {
    PlanDone(src, acceleration, ip, anchor, table);
    hide Plan, PlanOf;
    assert ss + [] == ss;
  }

  /**
   `lz4_compress_generic`: the encoding of the plan, or -1 exactly when that does not fit.  The
   output memory must hold what the code writes past the capacity before it finds out.
   */
  method CompressGeneric(src: seq<Byte>, dst: array<Byte>, cap: nat, acceleration: int) returns (ret: int)
    requires 0 < |src| && cap + |Spill(PlanOf(src, acceleration), cap)| <= dst.Length
    modifies dst
    ensures var plan := PlanOf(src, acceleration); var rest := Rest(src, plan);
            if Succeeds(plan, rest, cap)
            then ret == |EncodeAll(plan)| + |EncodeLast(rest)| <= cap
                 && dst[..ret] == EncodeAll(plan) + EncodeLast(rest)
            else ret == -1
    ensures PastCap(old(dst[..]), dst[..], cap, Spill(PlanOf(src, acceleration), cap))
    ensures ret <= LastBound(|src|)
    ensures ret >= 0 ==> forall c: int | c >= |src| :: Decode(dst[..ret], [], c) == Some(src)
    ensures ret >= 0 ==> dst[cap..] == old(dst[cap..])
  {
    hide Hash, Read32, EncodeSequence, EncodeAll, Decode, Encoded, PlanOf, Plan, Ahead, Usable, MatchEnd, Spill, Over;
    hide Succeeds, FirstFrom;
    EncodedStart(src);
    var ip: nat, anchor: nat, op: nat := 0, 0, 0;
    assert dst[..op] == [];
    var hashTable := new nat[HASH_TABLE_SIZE](_ => 0);
    ghost var ss: seq<Sequence> := [];
    AheadStart(src, acceleration, cap, hashTable[..]);
    if |src| >= MINMATCH {
      while ip < |src| - MF_LIMIT
        invariant op <= cap && Encoded(src, anchor, ss, dst[..op])
        invariant anchor <= ip && IsTable(hashTable[..], ip)
        invariant Ahead(src, acceleration, cap, ss, ip, anchor, hashTable[..])
        invariant dst[cap..] == old(dst[cap..])
        decreases |src| - ip
      {
        ghost var table := hashTable[..];
        var h := Hash(Read32(src, ip));
        var match_ := hashTable[h];
        var offset := ip - match_;
        hashTable[h] := ip;
        assert hashTable[..] == table[h := ip];
        if offset == 0 || offset > 65535 || Read32(src, match_) != Read32(src, ip) {
          NotUsable(src, ip, match_);
          AheadSkip(src, acceleration, cap, ss, ip, anchor, table);
          ip := ip + (if acceleration > 1 then acceleration else 1);
        } else {
          IsUsable(src, ip, match_);
          var matchEnd := ExtendMatch(src, ip, offset);
          var at := MatchTurn(src, dst, cap, acceleration, anchor, ip, op, matchEnd, offset, ss, table);
          if at < 0 {
            return -1;
          }
          ghost var s := Sequence(src[anchor..ip], offset, matchEnd - ip);
          op := at;
          ss := ss + [s];
          ip := matchEnd;
          anchor := matchEnd;
        }
      }
    }
    ghost var bytes := dst[..op];
    EncodedSize(src, anchor, ss, bytes);
    EncodedBytes(src, anchor, ss, bytes);
    AheadEnd(src, acceleration, cap, ss, ip, anchor, hashTable[..]);
    ret := EmitLast(src, anchor, dst, cap, op);
    DonePlan(src, acceleration, cap, anchor);
    if ret >= 0 {
      forall c: int | c >= |src|
        ensures Decode(dst[..ret], [], c) == Some(src)
      {
        EncodedLast(src, anchor, ss, bytes, c);
      }
    }
  }

  /** The match just found is the next sequence of the plan. */
  method MatchTurn(src: seq<Byte>, dst: array<Byte>, cap: nat, ghost acceleration: int, anchor: nat, ip: nat, op: nat,
                   matchEnd: nat, offset: nat, ghost ss: seq<Sequence>, ghost table: seq<nat>) returns (ret: int)
    requires Ahead(src, acceleration, cap, ss, ip, anchor, table)
    requires anchor <= ip < |src| - MF_LIMIT && IsTable(table, ip)
    requires var m := table[Hash(Read32(src, ip))]; Usable(src, ip, m) && offset == ip - m
    requires 0 < offset <= ip && offset < 65536 && ip + MINMATCH <= matchEnd <= |src|
    requires Repeats(src, ip, matchEnd, offset) && matchEnd == MatchEnd(src, ip + MINMATCH, offset)
    requires op <= cap && cap + |Spill(PlanOf(src, acceleration), cap)| <= dst.Length
    requires Encoded(src, anchor, ss, dst[..op])
    modifies dst
    ensures ret >= 0 ==>
              && ret <= cap && dst[cap..] == old(dst[cap..])
              && var ss' := ss + [Sequence(src[anchor..ip], offset, matchEnd - ip)];
              && Encoded(src, matchEnd, ss', dst[..ret])
              && Ahead(src, acceleration, cap, ss', matchEnd, matchEnd, table[Hash(Read32(src, ip)) := ip])
    ensures ret < 0 ==>
              && ret == -1 && PastCap(old(dst[..]), dst[..], cap, Spill(PlanOf(src, acceleration), cap))
              && !Succeeds(PlanOf(src, acceleration), Rest(src, PlanOf(src, acceleration)), cap)
  {
    hide Hash, Read32, EncodeSequence, EncodeAll, Encoded, PlanOf, Plan, Ahead, Usable, MatchEnd, Spill, Over, PastCap;
    hide Succeeds, FirstFrom, Repeats, Header, Rest, IsTable;
    ghost var s := Sequence(src[anchor..ip], offset, matchEnd - ip);
    EncodedBytes(src, anchor, ss, dst[..op]);
    AheadMatch(src, acceleration, cap, ss, ip, anchor, table);
    HeaderReach(op, cap, s);
    ret := MatchRound(src, dst, cap, anchor, ip, op, matchEnd, offset, ss);
    if ret < 0 {
      FailedPlan(src, acceleration, cap);
    }
  }

  lemma NotUsable(src: seq<Byte>, ip: nat, m: nat)
    requires m <= ip && ip + MINMATCH <= |src|
    requires ip - m == 0 || ip - m > 65535 || Read32(src, m) != Read32(src, ip)
    ensures !Usable(src, ip, m)
  {
  }

  lemma IsUsable(src: seq<Byte>, ip: nat, m: nat)
    requires m < ip && ip + MINMATCH <= |src| && ip - m <= 65535 && Read32(src, m) == Read32(src, ip)
    ensures Usable(src, ip, m)
  {
  }

  lemma EncodedBytes(src: seq<Byte>, anchor: nat, ss: seq<Sequence>, bytes: seq<Byte>)
    requires Encoded(src, anchor, ss, bytes)
    ensures (forall s | s in ss :: WellFormed(s)) && bytes == EncodeAll(ss)
  {
  }

  /** A header ends inside the capacity or where the spill ends. */
  lemma HeaderReach(op: nat, cap: nat, s: Sequence)
    requires op <= cap && WellFormed(s)
    ensures op + |Header(|s.lits|)| <= cap + |Over(op, cap, |s.lits|)|
    ensures op + |EncodeSequence(s)| <= cap ==> op + |Header(|s.lits|)| <= cap
  {
    HeaderSize(s);
  }

  lemma FailedPlan(src: seq<Byte>, acceleration: int, cap: nat)
    requires var plan := PlanOf(src, acceleration); FirstFrom(plan, cap, 0) < |plan|
    ensures var plan := PlanOf(src, acceleration); !Succeeds(plan, Rest(src, plan), cap)
  {
  }

  lemma DonePlan(src: seq<Byte>, acceleration: int, cap: nat, anchor: nat)
    requires var plan := PlanOf(src, acceleration);
             FirstFrom(plan, cap, 0) == |plan| && anchor <= |src| && Rest(src, plan) == src[anchor..]
    ensures var plan := PlanOf(src, acceleration);
            Succeeds(plan, Rest(src, plan), cap) ==
              (anchor == |src| || |EncodeAll(plan)| + Estimate(|src| - anchor) <= cap)
  {
  }

  /** `lz4_compress_fast` on the first `srcSize` bytes. */
  method CompressFast(src: seq<Byte>, srcSize: int, dst: array<Byte>, cap: int, acceleration: int) returns (ret: int)
    requires srcSize <= |src| && cap <= dst.Length
    requires srcSize > 0 && cap >= 1 ==> cap + |Spill(PlanOf(src[..srcSize], acceleration), cap)| <= dst.Length
    modifies dst
    ensures srcSize < 0 || (srcSize > 0 && cap < 1) ==> ret == -1
    ensures srcSize == 0 ==> ret == 0
    ensures srcSize <= 0 || cap < 1 ==> dst[..] == old(dst[..])
    ensures srcSize > 0 && cap >= 1 ==>
              var plan := PlanOf(src[..srcSize], acceleration); var rest := Rest(src[..srcSize], plan);
              && PastCap(old(dst[..]), dst[..], cap, Spill(plan, cap))
              && if Succeeds(plan, rest, cap)
                 then ret == |EncodeAll(plan)| + |EncodeLast(rest)| <= cap
                      && dst[..ret] == EncodeAll(plan) + EncodeLast(rest)
                 else ret == -1
    ensures ret >= 0 ==> srcSize >= 0 && ret <= LastBound(srcSize) && ret <= dst.Length
    ensures ret > 0 ==> ret <= cap && dst[cap..] == old(dst[cap..])
    ensures srcSize >= 0 && cap >= LastBound(srcSize) ==> ret >= 0
    ensures ret >= 0 ==> forall c: int | c >= srcSize :: Decode(dst[..ret], [], c) == Some(src[..srcSize])
  {
    if srcSize < 0 {
      return -1;
    }
    if srcSize == 0 {
      return 0;
    }
    if cap < 1 {
      return -1;
    }
    hide PlanOf, Spill, Succeeds, Rest, EncodeAll, EncodeLast, PastCap, Decode;
    if cap >= LastBound(srcSize) {
      BoundSuffices(src[..srcSize], acceleration, cap);
    }
    ret := CompressGeneric(src[..srcSize], dst, cap, acceleration);
  }

  /** A call that writes past its capacity of one byte: 40 zero bytes with acceleration 20. */
  method WritesPast(dst: array<Byte>) returns (ret: int)
    requires dst.Length >= 2
    modifies dst
    ensures ret == -1 && dst[1] == 5 && dst[2..] == old(dst[2..])
  {
    hide Zeros, PlanOf, Spill, Succeeds, Rest;
    ZeroSpill();
    var src := Zeros(40);
    assert src[..40] == src;
    ghost var before := dst[..];
    ret := CompressFast(src, 40, dst, 1, 20);
    assert dst[1] == dst[1..][0] && dst[1..][1..] == dst[2..];
  }

  /** `lz4_compress` of 40 zero bytes. */
  method CompressesZeros(dst: array<Byte>) returns (ret: int)
    requires dst.Length >= 43
    modifies dst
    ensures ret == 5 && dst[..5] == [0x1F, 0, 1, 0, 20]
  {
    hide Zeros, PlanOf, Spill, Succeeds, Rest, EncodeAll, EncodeLast;
    OneRun();
    var src := Zeros(40);
    assert src[..40] == src;
    BoundSuffices(src, 1, dst.Length);
    ret := CompressFast(src, 40, dst, dst.Length, 1);
    assert |[0x1F, 0, 1, 0, 20]| == 5;
  }

  // ----- the decompressor

  /** A length continued by extension bytes: the do-while loops of the decoder. */
  method ReadLength(src: seq<Byte>, ip: nat, nibble: nat) returns (ok: bool, len: nat, ip': nat)
    requires ip <= |src|
    ensures ip <= ip' <= |src|
    ensures ReadLen(src[ip..], nibble) == if ok then Some((len, src[ip'..])) else None
  {
    len, ip' := nibble, ip;
    if nibble == 15 {
      var s: Byte := 255;
      while s == 255
        invariant ip <= ip' <= |src|
        invariant ReadExt(src[ip..], 15) == if s == 255 then ReadExt(src[ip'..], len) else Some((len, src[ip'..]))
        decreases |src| - ip', s
      {
        if ip' >= |src| {
          return false, len, ip';
        }
        s := src[ip'];
        assert src[ip'..][1..] == src[ip' + 1..];
        ip' := ip' + 1;
        len := len + s;
      }
    }
    ok := true;
  }

  /** The do-while loop: copies single bytes until no more than `offset` bytes remain. */
  method CopyOverlap(dst: array<Byte>, op: nat, offset: nat, matchLen: nat) returns (dest: nat, remaining: nat)
    requires 0 < offset <= op && op + matchLen <= dst.Length && offset < matchLen
    modifies dst
    ensures op <= dest && dest + remaining == op + matchLen && remaining <= offset
    ensures MatchCopy(dst[..dest], offset, remaining) == MatchCopy(old(dst[..op]), offset, matchLen)
    ensures dst[op + matchLen..] == old(dst[op + matchLen..])
  {
    hide MatchCopy;
    ghost var out := dst[..op];
    dest, remaining := op, matchLen;
    var ref := op - offset;
    while true
      invariant op <= dest && dest - ref == offset && dest + remaining == op + matchLen && remaining > offset
      invariant dst[op + matchLen..] == old(dst[op + matchLen..])
      invariant MatchCopy(dst[..dest], offset, remaining) == MatchCopy(out, offset, matchLen)
      decreases remaining
    {
      ghost var prefix := dst[..dest];
      MatchCopyOne(prefix, offset, remaining);
      dst[dest] := dst[ref];
      assert dst[..dest + 1] == prefix + [prefix[|prefix| - offset]];
      dest, ref := dest + 1, ref + 1;
      remaining := remaining - 1;
      if !(remaining > offset) {
        break;
      }
    }
  }

  /**
   The match copy: byte by byte while source and destination would overlap, then one
   `memcpy` of the rest.  The result is the plain byte-by-byte copy.
   */
  method CopyMatch(dst: array<Byte>, op: nat, offset: nat, matchLen: nat)
    requires 0 < offset <= op && op + matchLen <= dst.Length && MINMATCH <= matchLen
    modifies dst
    ensures dst[..op + matchLen] == MatchCopy(old(dst[..op]), offset, matchLen)
    ensures dst[op + matchLen..] == old(dst[op + matchLen..])
  {
    hide MatchCopy;
    var dest, ref, remaining := op, op - offset, matchLen;
    if offset < matchLen {
      dest, remaining := CopyOverlap(dst, op, offset, matchLen);
      ref := dest - offset;
    }
    ghost var prefix := dst[..dest];
    MatchCopyBlock(prefix, offset, remaining);
    assert prefix[|prefix| - offset..|prefix| - offset + remaining] == dst[ref..ref + remaining];
    CopyWithin(dst, dest, ref, remaining);
  }

  lemma MatchCopyOne(out: seq<Byte>, offset: nat, n: nat)
    requires 0 < offset <= |out| && n > 0
    ensures MatchCopy(out, offset, n) == MatchCopy(out + [out[|out| - offset]], offset, n - 1)
  {
  }

  /** `memcpy` inside the output: the two regions must not overlap. */
  method CopyWithin(dst: array<Byte>, dest: nat, ref: nat, n: nat)
    requires ref + n <= dest && dest + n <= dst.Length
    modifies dst
    ensures dst[..dest + n] == old(dst[..dest]) + old(dst[ref..ref + n]) && dst[dest + n..] == old(dst[dest + n..])
  {
    for i := 0 to n
      invariant dst[..dest] == old(dst[..dest]) && dst[dest + n..] == old(dst[dest + n..])
      invariant dst[dest..dest + i] == old(dst[ref..ref + i])
    {
      dst[dest + i] := dst[ref + i];
    }
  }

  /** A byte-by-byte copy of no more than `offset` bytes is one block copy. */
  lemma {:induction false} MatchCopyBlock(out: seq<Byte>, offset: nat, n: nat)
    requires 0 < offset <= |out| && n <= offset
    ensures MatchCopy(out, offset, n) == out + out[|out| - offset..|out| - offset + n]
    decreases n
  {
    if n > 0 {
      var out' := out + [out[|out| - offset]];
      MatchCopyBlock(out', offset, n - 1);
      assert out'[|out'| - offset..|out'| - offset + (n - 1)] == out[|out| - offset + 1..|out| - offset + n];
    }
  }

  /** `lz4_decompress`: refines the byte-by-byte decoder on every input and capacity, without leaving either buffer. */
  method Decompress(src: seq<Byte>, srcSize: int, dst: array<Byte>, cap: int) returns (ret: int)
    requires srcSize <= |src| && cap <= dst.Length
    modifies dst
    ensures var block := if srcSize > 0 then src[..srcSize] else [];
            match Decode(block, [], cap)
            case None => ret == -1
            case Some(out) => ret == |out| && ret <= dst.Length && dst[..ret] == out
    ensures cap >= 0 ==> dst[cap..] == old(dst[cap..])
  {
    if srcSize <= 0 {
      return 0;
    }
    ret := DecompressBlock(src[..srcSize], dst, cap);
  }

  /** What the decoder does with a token and its literals, and with an offset and its match. */
  lemma DecodeParts(rest: seq<Byte>, out: seq<Byte>, cap: int)
    requires rest != []
    ensures Decode(rest, out, cap) ==
      match ReadLen(rest[1..], rest[0] / 16)
      case None => None
      case Some((lits, r1)) =>
        if |r1| < lits || |out| + lits > cap then None
        else DecodeMatch(r1[lits..], rest[0] % 16, out + r1[..lits], cap)
  {
  }

  lemma DecodeEnds(rest: seq<Byte>, nibble: nat, out: seq<Byte>, cap: int)
    ensures rest == [] ==> Decode(rest, out, cap) == Some(out) && DecodeMatch(rest, nibble, out, cap) == Some(out)
    ensures |rest| == 1 ==> DecodeMatch(rest, nibble, out, cap) == None
  {
  }

  lemma DecodeMatchParts(rest: seq<Byte>, nibble: nat, out: seq<Byte>, cap: int)
    requires |rest| >= 2
    ensures var offset := rest[0] as int + 256 * (rest[1] as int);
            DecodeMatch(rest, nibble, out, cap) ==
            if offset == 0 then None
            else
              match ReadLen(rest[2..], nibble)
              case None => None
              case Some((n, r2)) =>
                if |out| + n + MINMATCH > cap || offset > |out| then None
                else Decode(r2, MatchCopy(out, offset, n + MINMATCH), cap)
  {
  }

  /** The first half of the decoder's loop body: token, literal length, literals. */
  method TakeLiterals(src: seq<Byte>, ip: nat, dst: array<Byte>, op: nat, cap: int)
    returns (ok: bool, token: Byte, ip': nat, op': nat)
    requires ip < |src| && op <= dst.Length && cap <= dst.Length
    modifies dst
    ensures ok ==> ip < ip' <= |src| && op' <= cap && token == src[ip]
                   && Decode(src[ip..], old(dst[..op]), cap) == DecodeMatch(src[ip'..], token as int % 16,
                       dst[..op'], cap)
    ensures !ok ==> Decode(src[ip..], old(dst[..op]), cap) == None
    ensures cap >= 0 ==> dst[cap..] == old(dst[cap..])
  {
    hide ReadLen, Decode, DecodeMatch;
    ghost var rest, out := src[ip..], dst[..op];
    DecodeParts(rest, out, cap);
    token := src[ip];
    assert rest[1..] == src[ip + 1..];
    var literalLen;
    ip', op' := ip, op;
    ok, literalLen, ip' := ReadLength(src, ip + 1, token / 16);
    if !ok {
      return;
    }
    if ip' + literalLen > |src| || op + literalLen > cap {
      return false, token, ip', op';
    }
    assert src[ip'..][..literalLen] == src[ip'..ip' + literalLen]
        && src[ip'..][literalLen..] == src[ip' + literalLen..];
    CopyIn(dst, op, src[ip'..ip' + literalLen]);
    op' := op + literalLen;
    assert dst[..op'] == out + src[ip'..ip' + literalLen];
    ip' := ip' + literalLen;
  }

  /** The second half: offset, match length, match copy. */
  method TakeMatch(src: seq<Byte>, ip: nat, dst: array<Byte>, op: nat, cap: int, nibble: nat)
    returns (ok: bool, ip': nat, op': nat)
    requires ip < |src| && op <= dst.Length && cap <= dst.Length
    modifies dst
    ensures ok ==> ip < ip' <= |src| && op' <= cap
                   && DecodeMatch(src[ip..], nibble, old(dst[..op]), cap) == Decode(src[ip'..], dst[..op'], cap)
    ensures !ok ==> DecodeMatch(src[ip..], nibble, old(dst[..op]), cap) == None
    ensures cap >= 0 ==> dst[cap..] == old(dst[cap..])
  {
    hide ReadLen, MatchCopy, Decode, DecodeMatch;
    ip', op' := ip, op;
    DecodeEnds(src[ip..], nibble, dst[..op], cap);
    if ip + 2 > |src| {
      return false, ip', op';
    }
    DecodeMatchParts(src[ip..], nibble, dst[..op], cap);
    assert src[ip..][2..] == src[ip + 2..];
    var offset := src[ip] as int + 256 * (src[ip + 1] as int);
    if offset == 0 {
      return false, ip', op';
    }
    var n;
    ok, n, ip' := ReadLength(src, ip + 2, nibble);
    if !ok {
      return;
    }
    var matchLen := n + MINMATCH;
    if op + matchLen > cap || op - offset < 0 {
      return false, ip', op';
    }
    CopyMatch(dst, op, offset, matchLen);
    op' := op + matchLen;
  }

  method DecompressBlock(src: seq<Byte>, dst: array<Byte>, cap: int) returns (ret: int)
    requires cap <= dst.Length
    modifies dst
    ensures match Decode(src, [], cap)
            case None => ret == -1
            case Some(out) => ret == |out| && ret <= dst.Length && dst[..ret] == out
    ensures cap >= 0 ==> dst[cap..] == old(dst[cap..])
  {
    hide Decode, DecodeMatch;
    var ip: nat, op: nat := 0, 0;
    assert src[0..] == src;
    while ip < |src|
      invariant ip <= |src| && op <= dst.Length
      invariant cap >= 0 ==> dst[cap..] == old(dst[cap..])
      invariant Decode(src, [], cap) == Decode(src[ip..], dst[..op], cap)
      decreases |src| - ip
    {
      var ok, token;
      ok, token, ip, op := TakeLiterals(src, ip, dst, op, cap);
      if !ok {
        return -1;
      }
      DecodeEnds(src[ip..], token as int % 16, dst[..op], cap);
      if ip >= |src| {
        break;
      }
      ok, ip, op := TakeMatch(src, ip, dst, op, cap, token as int % 16);
      if !ok {
        return -1;
      }
    }
    DecodeEnds(src[ip..], 0, dst[..op], cap);
    ret := op;
  }

  /** The law the codec is for, end to end: compressing with enough room and decompressing gives the input back. */
  method RoundTrip(src: seq<Byte>, acceleration: int) returns (out: seq<Byte>)
    requires |src| <= MAX_INPUT_SIZE
    ensures out == src
  {
    var packed := new Byte[CompressBound(|src|)];
    assert src[..|src|] == src;
    BoundSuffices(src, acceleration, packed.Length);
    var size := CompressFast(src, |src|, packed, packed.Length, acceleration);
    var unpacked := new Byte[|src|];
    assert src[..|src|] == src;
    assert Decode(packed[..size], [], |src|) == Some(src);
    var block := packed[..size];
    var len := Decompress(block, |block|, unpacked, unpacked.Length);
    assert (if |block| > 0 then block[..|block|] else []) == block;
    out := unpacked[..len];
  }
}
