/**
 What the decoder of the block format accepts: exactly the blocks that consist of sequences
 and closing literals, as long as the output fits.
 */
module Lz4Decoding {
  import opened Memory
  import opened Options
  import opened Lz4Format

  // ----- lengths

  /** A length whose extension bytes run out at the end of the block is refused, and no other. */
  lemma {:induction false} ReadExtFails(rest: seq<Byte>, acc: nat)
    ensures ReadExt(rest, acc).None? <==> forall i | 0 <= i < |rest| :: rest[i] == 255
  {
    if rest != [] && rest[0] == 255 {
      ReadExtFails(rest[1..], acc + 255);
      assert forall i | 0 <= i < |rest| - 1 :: rest[1..][i] == rest[i + 1];
    }
  }

  /** What is read as a length was written for that length. */
  lemma {:induction false} ReadExtInverse(rest: seq<Byte>, acc: nat)
    requires ReadExt(rest, acc).Some?
    ensures var (n, post) := ReadExt(rest, acc).value; n >= acc && rest == ExtBytes(n - acc) + post
  {
    hide ReadExt, ExtBytes;
    ReadExtStep(rest, acc);
    assert rest == [rest[0]] + rest[1..];
    if rest[0] == 255 {
      ReadExtInverse(rest[1..], acc + 255);
      var (n, post) := ReadExt(rest, acc).value;
      ExtShape(n - acc);
      assert [255] + (ExtBytes(n - acc - 255) + post) == [255] + ExtBytes(n - acc - 255) + post;
    } else {
      ExtShape(rest[0]);
    }
  }

  lemma ReadExtStep(rest: seq<Byte>, acc: nat)
    requires ReadExt(rest, acc).Some?
    ensures rest != []
    ensures ReadExt(rest, acc) ==
            if rest[0] == 255 then ReadExt(rest[1..], acc + 255) else Some((acc + rest[0], rest[1..]))
  {
  }

  lemma ReadLenInverse(rest: seq<Byte>, nibble: nat)
    requires nibble < 16 && ReadLen(rest, nibble).Some?
    ensures var (n, post) := ReadLen(rest, nibble).value; nibble == Nibble(n) && rest == Ext(n) + post
  {
    hide ExtBytes;
    if nibble == 15 {
      ReadExtInverse(rest, 15);
    }
  }

  /** How a block may end: with a sequence, or with a token, a length and literals; the match nibble is ignored. */
  datatype Ending = Bare | Literals(lits: seq<Byte>, nibble: nat)

  function LastLits(e: Ending): seq<Byte> {
    if e.Literals? then e.lits else []
  }

  function EndBytes(e: Ending): seq<Byte>
    requires e.Literals? ==> e.nibble < 16
  {
    if e.Bare? then [] else LiteralPart(e.lits, e.nibble)
  }

  /** From output `out`, the sequences in turn lead to output `end`. */
  predicate Leads(out: seq<Byte>, ss: seq<Sequence>, end: seq<Byte>)
    decreases |ss|
  {
    if ss == [] then end == out
    else Expandable(out, ss[0]) && Leads(ExpandOne(out, ss[0]), ss[1..], end)
  }

  lemma {:induction false} LeadsGrows(out: seq<Byte>, ss: seq<Sequence>, end: seq<Byte>)
    requires Leads(out, ss, end)
    ensures |out| <= |end| && forall s | s in ss :: WellFormed(s)
    decreases |ss|
  {
    hide MatchCopy;
    if ss != [] {
      LeadsGrows(ExpandOne(out, ss[0]), ss[1..], end);
      assert ss == [ss[0]] + ss[1..];
    }
  }

  /** The bytes of sequences, from the front. */
  function SequenceBytes(ss: seq<Sequence>): seq<Byte>
    requires forall s | s in ss :: WellFormed(s)
  {
    if ss == [] then [] else EncodeSequence(ss[0]) + SequenceBytes(ss[1..])
  }

  /** The block `src` says `out` from output `before` on. */
  ghost predicate Says(src: seq<Byte>, before: seq<Byte>, ss: seq<Sequence>, e: Ending, out: seq<Byte>) {
    && (forall s | s in ss :: WellFormed(s)) && (e.Literals? ==> e.nibble < 16)
    && src == SequenceBytes(ss) + EndBytes(e)
    && exists mid :: Leads(before, ss, mid) && out == mid + LastLits(e)
  }

  lemma {:induction false} DecodeSays(src: seq<Byte>, before: seq<Byte>, ss: seq<Sequence>, e: Ending,
                                      out: seq<Byte>, cap: int)
    requires Says(src, before, ss, e, out) && (src == [] || |out| <= cap)
    ensures Decode(src, before, cap) == Some(out)
    decreases |ss|
  {
    hide Decode, EncodeSequence, MatchCopy, EndBytes, Expandable, WellFormed, ExpandOne;
    if ss == [] {
      EndDecodes(src, before, e, out, cap);
    } else {
      hide Says;
      var next, rest := SaysLess(src, before, ss, e, out);
      DecodeSequence(ss[0], rest, before, cap);
      DecodeSays(rest, next, ss[1..], e, out, cap);
    }
  }

  /** The first sequence of a block and what is left. */
  lemma SaysLess(src: seq<Byte>, before: seq<Byte>, ss: seq<Sequence>, e: Ending, out: seq<Byte>)
    returns (next: seq<Byte>, rest: seq<Byte>)
    requires Says(src, before, ss, e, out) && ss != []
    ensures Expandable(before, ss[0]) && next == ExpandOne(before, ss[0]) && src == EncodeSequence(ss[0]) + rest != []
    ensures |before| + |ss[0].lits| + ss[0].matchLen <= |out| && Says(rest, next, ss[1..], e, out)
  {
    hide EncodeSequence, MatchCopy, EndBytes;
    var mid :| Leads(before, ss, mid) && out == mid + LastLits(e);
    next, rest := ExpandOne(before, ss[0]), SequenceBytes(ss[1..]) + EndBytes(e);
    assert src == EncodeSequence(ss[0]) + rest;
    SequenceNotEmpty(ss[0]);
    LeadsGrows(next, ss[1..], mid);
  }

  lemma SequenceNotEmpty(s: Sequence)
    requires WellFormed(s)
    ensures EncodeSequence(s) != []
  {
  }

  lemma EndDecodes(src: seq<Byte>, before: seq<Byte>, e: Ending, out: seq<Byte>, cap: int)
    requires (e.Literals? ==> e.nibble < 16) && src == EndBytes(e) && out == before + LastLits(e)
    requires src == [] || |out| <= cap
    ensures Decode(src, before, cap) == Some(out)
  {
    if e.Literals? {
      hide Decode, DecodeMatch, LiteralPart;
      DecodeLiterals(e.lits, e.nibble, [], before, cap);
      NoMatch(e.nibble, before + e.lits, cap);
      assert src + [] == src;
    } else {
      assert before + [] == before;
    }
  }

  lemma NoMatch(nibble: nat, out: seq<Byte>, cap: int)
    ensures DecodeMatch([], nibble, out, cap) == Some(out)
  {
  }

  /** The second half of a sequence that the decoder accepts. */
  lemma MatchParsed(tail: seq<Byte>, nibble: nat, out: seq<Byte>, cap: int)
    returns (offset: nat, m: nat, rest: seq<Byte>)
    requires tail != [] && nibble < 16 && DecodeMatch(tail, nibble, out, cap).Some?
    ensures 0 < offset <= |out| && offset < 65536 && |out| + m + MINMATCH <= cap
    ensures nibble == Nibble(m) && tail == [offset % 256, offset / 256] + Ext(m) + rest
  {
    hide ReadLen, Decode, Ext, MatchCopy;
    offset := tail[0] as int + 256 * (tail[1] as int);
    ReadLenInverse(tail[2..], nibble);
    var (m', rest') := ReadLen(tail[2..], nibble).value;
    m, rest := m', rest';
    assert tail == [tail[0], tail[1]] + tail[2..];
  }

  /** The first half. */
  lemma HeadParsed(src: seq<Byte>, before: seq<Byte>, cap: int)
    returns (lits: seq<Byte>, nibble: nat, tail: seq<Byte>)
    requires src != [] && Decode(src, before, cap).Some?
    ensures nibble < 16 && src == LiteralPart(lits, nibble) + tail
    ensures |before| + |lits| <= cap && Decode(src, before, cap) == DecodeMatch(tail, nibble, before + lits, cap)
  {
    hide ReadLen, DecodeMatch, Ext, LiteralPart;
    var token: nat := src[0];
    ReadLenInverse(src[1..], token / 16);
    var (n, r1) := ReadLen(src[1..], token / 16).value;
    lits, nibble, tail := r1[..n], token % 16, r1[n..];
    HeadBytes(src, n, r1);
  }

  lemma HeadBytes(src: seq<Byte>, n: nat, post: seq<Byte>)
    requires src != [] && n <= |post| && src[1..] == Ext(n) + post && src[0] as int / 16 == Nibble(n)
    ensures src == LiteralPart(post[..n], src[0] as int % 16) + post[n..]
  {
    hide Ext, Nibble;
    assert src == [src[0]] + src[1..];
  }

  /** What the decoder does first, read off its input: closing literals, or one sequence. */
  lemma Parsed(src: seq<Byte>, before: seq<Byte>, cap: int)
    returns (last: bool, s: Sequence, nibble: nat, rest: seq<Byte>)
    requires src != [] && Decode(src, before, cap).Some?
    ensures last ==> nibble < 16 && src == EndBytes(Literals(s.lits, nibble)) && |before| + |s.lits| <= cap
    ensures !last ==>
              Expandable(before, s) && src == EncodeSequence(s) + rest && |before| + |s.lits| + s.matchLen <= cap
  {
    var lits, tail;
    lits, nibble, tail := HeadParsed(src, before, cap);
    hide Decode, DecodeMatch, LiteralPart, EncodeSequence, MatchCopy;
    rest := [];
    last, s := tail == [], Sequence(lits, 0, 0);
    if last {
      NoMatch(nibble, before + lits, cap);
      assert src == LiteralPart(lits, nibble);
    } else {
      var offset, m;
      offset, m, rest := MatchParsed(tail, nibble, before + lits, cap);
      s := Sequence(lits, offset, m + MINMATCH);
      JoinParts(src, s, tail, rest);
    }
  }

  lemma JoinParts(src: seq<Byte>, s: Sequence, tail: seq<Byte>, rest: seq<Byte>)
    requires WellFormed(s)
    requires src == LiteralPart(s.lits, Nibble(s.matchLen - MINMATCH)) + tail
    requires tail == [s.offset % 256, s.offset / 256] + Ext(s.matchLen - MINMATCH) + rest
    ensures src == EncodeSequence(s) + rest
  {
    hide Ext;
  }

  /** Whatever the decoder accepts is a block that says what it returns. */
  lemma {:induction false} SaysDecoded(src: seq<Byte>, before: seq<Byte>, cap: int)
    returns (ss: seq<Sequence>, e: Ending)
    requires Decode(src, before, cap).Some?
    ensures var out := Decode(src, before, cap).value;
            Says(src, before, ss, e, out) && (src == [] || |out| <= cap)
    decreases |src|
  {
    hide Decode, EncodeSequence, MatchCopy, ExpandOne, WellFormed, Ext;
    ss, e := [], Bare;
    if src == [] {
      EndDecodes(src, before, e, before + [], cap);
      EndSays(src, before, e);
      return;
    }
    var last, s, nibble, rest := Parsed(src, before, cap);
    if last {
      e := Literals(s.lits, nibble);
      EndDecodes(src, before, e, before + s.lits, cap);
      EndSays(src, before, e);
    } else {
      SequenceNotEmpty(s);
      DecodeSequence(s, rest, before, cap);
      ss, e := SaysDecoded(rest, ExpandOne(before, s), cap);
      SaysMore(src, before, s, rest, ss, e, Decode(src, before, cap).value, cap);
      ss := [s] + ss;
    }
  }

  lemma EndSays(src: seq<Byte>, before: seq<Byte>, e: Ending)
    requires (e.Literals? ==> e.nibble < 16) && src == EndBytes(e)
    ensures Says(src, before, [], e, before + LastLits(e))
  {
    hide EndBytes;
    assert Leads(before, [], before);
    assert src == [] + EndBytes(e);
  }

  lemma SaysMore(src: seq<Byte>, before: seq<Byte>, s: Sequence, rest: seq<Byte>, ss: seq<Sequence>, e: Ending,
                 out: seq<Byte>, cap: int)
    requires Expandable(before, s) && src == EncodeSequence(s) + rest && Says(rest, ExpandOne(before, s), ss, e, out)
    requires |before| + |s.lits| + s.matchLen <= cap && (rest == [] || |out| <= cap)
    ensures Says(src, before, [s] + ss, e, out) && |out| <= cap
  {
    hide EncodeSequence, MatchCopy, EndBytes;
    var all := [s] + ss;
    assert all[0] == s && all[1..] == ss;
    var mid :| Leads(ExpandOne(before, s), ss, mid) && out == mid + LastLits(e);
    assert Leads(before, all, mid);
    MoreBytes(s, ss, rest, e);
    if rest == [] {
      NothingSaid(ss, e);
    }
  }

  lemma MoreBytes(s: Sequence, ss: seq<Sequence>, rest: seq<Byte>, e: Ending)
    requires WellFormed(s) && (forall t | t in ss :: WellFormed(t)) && (e.Literals? ==> e.nibble < 16)
    requires rest == SequenceBytes(ss) + EndBytes(e)
    ensures EncodeSequence(s) + rest == SequenceBytes([s] + ss) + EndBytes(e)
  {
    hide EncodeSequence, EndBytes;
    assert ([s] + ss)[1..] == ss;
  }

  /** Nothing but the empty block has no bytes. */
  lemma NothingSaid(ss: seq<Sequence>, e: Ending)
    requires (forall t | t in ss :: WellFormed(t)) && (e.Literals? ==> e.nibble < 16)
    requires SequenceBytes(ss) + EndBytes(e) == []
    ensures ss == [] && e == Bare
  {
    hide EncodeSequence, Ext;
    if ss != [] {
      SequenceNotEmpty(ss[0]);
    }
  }

  /**
   The decoder returns `out` exactly when its input is a list of sequences, followed by nothing or
   by closing literals, that says `out`, and `out` fits the capacity.  Everything else is refused.
   */
  lemma DecodeExact(src: seq<Byte>, cap: int, out: seq<Byte>)
    ensures Decode(src, [], cap) == Some(out)
       <==> (src == [] || |out| <= cap) && exists ss, e :: Says(src, [], ss, e, out)
  {
    hide Decode, Says;
    if Decode(src, [], cap) == Some(out) {
      var ss, e := SaysDecoded(src, [], cap);
    }
    if (src == [] || |out| <= cap) && exists ss, e :: Says(src, [], ss, e, out) {
      var ss, e :| Says(src, [], ss, e, out);
      DecodeSays(src, [], ss, e, out, cap);
    }
  }
}
