/**
 How `lz4_compress_generic` chooses its matches, as a function of the input and the
 acceleration: the hash table, the tests of a candidate, the extension of a match.
 */
module Lz4Search {
  import opened Bits
  import opened Lz4Format
  import opened Memory

  const HASH_TABLE_SIZE: nat := 4096
  const LAST_LITERALS: nat := 5
  const MF_LIMIT: nat := 12

  // ----- words and hashes

  function Read32(src: seq<Byte>, i: nat): nat
    requires i + 4 <= |src|
  {
    src[i] as int + 0x100 * (src[i + 1] as int) + 0x10000 * (src[i + 2] as int) + 0x1000000 * (src[i + 3] as int)
  }

  lemma Read32Equal(src: seq<Byte>, i: nat, j: nat)
    requires i + 4 <= |src| && j + 4 <= |src|
    ensures Read32(src, i) == Read32(src, j) <==>
              src[i] == src[j] && src[i + 1] == src[j + 1] && src[i + 2] == src[j + 2] && src[i + 3] == src[j + 3]
  {
    if Read32(src, i) == Read32(src, j) {
      FourDigits(src[i..i + 4], src[j..j + 4]);
    }
  }

  lemma FourDigits(a: seq<nat>, b: seq<nat>)
    requires |a| == |b| == 4 && (forall k | 0 <= k < 4 :: a[k] < 256 && b[k] < 256)
    requires a[0] + 0x100 * a[1] + 0x10000 * a[2] + 0x1000000 * a[3]
          == b[0] + 0x100 * b[1] + 0x10000 * b[2] + 0x1000000 * b[3]
    ensures a[0] == b[0] && a[1] == b[1] && a[2] == b[2] && a[3] == b[3]
  {
    LowDigit(a[0], a[1] + 256 * a[2] + 65536 * a[3], b[0], b[1] + 256 * b[2] + 65536 * b[3]);
    LowDigit(a[1], a[2] + 256 * a[3], b[1], b[2] + 256 * b[3]);
    LowDigit(a[2], a[3], b[2], b[3]);
  }

  lemma LowDigit(x: nat, more: nat, y: nat, more': nat)
    requires x < 256 && y < 256 && x + 256 * more == y + 256 * more'
    ensures x == y && more == more'
  {
  }

  function Hash(v: nat): (h: nat)
    ensures h < HASH_TABLE_SIZE
  {
    (v * 2654435761 % 0x1_0000_0000) / 0x10000 % HASH_TABLE_SIZE
  }

  /** The hash is bits 16 to 27 of the product, whether or not it is cut to 32 bits first. */
  lemma HashBits(v: nat)
    ensures Hash(v) == v * 2654435761 / 65536 % 4096
  {
    var x := v * 2654435761;
    var q, r := x / 0x1_0000_0000, x % 0x1_0000_0000;
    DivModUnique(x, 65536, q * 65536 + r / 65536, r % 65536);
    var k, l := r / 65536 / 4096, r / 65536 % 4096;
    DivModUnique(q * 65536 + r / 65536, 4096, q * 16 + k, l);
  }

  // ----- matches

  /** Positions that repeat what is `offset` bytes earlier. */
  ghost predicate Repeats(src: seq<Byte>, from: nat, to: nat, offset: nat)
    requires offset <= from && to <= |src|
  {
    forall j | from <= j < to :: SameAs(src, j, offset)
  }

  predicate SameAs(src: seq<Byte>, j: nat, offset: nat)
    requires offset <= j < |src|
  {
    src[j] == src[j - offset]
  }

  /** Where the stretch that repeats what is `offset` bytes earlier ends. */
  function MatchEnd(src: seq<Byte>, k: nat, offset: nat): (r: nat)
    requires offset <= k <= |src|
    ensures k <= r <= |src|
    decreases |src| - k
  {
    if k < |src| && src[k] == src[k - offset] then MatchEnd(src, k + 1, offset) else k
  }

  lemma {:induction false} EndSkip(src: seq<Byte>, a: nat, b: nat, offset: nat)
    requires offset <= a <= b <= |src| && Repeats(src, a, b, offset)
    ensures MatchEnd(src, a, offset) == MatchEnd(src, b, offset)
    decreases b - a
  {
    if a < b {
      assert SameAs(src, a, offset);
      EndSkip(src, a + 1, b, offset);
    }
  }

  /** The end is the first position that differs, if any. */
  lemma {:induction false} MatchEndExact(src: seq<Byte>, k: nat, offset: nat)
    requires offset <= k <= |src|
    ensures var e := MatchEnd(src, k, offset);
            && (forall j | k <= j < e :: src[j] == src[j - offset])
            && (e < |src| ==> src[e] != src[e - offset])
    decreases |src| - k
  {
    if k < |src| && src[k] == src[k - offset] {
      MatchEndExact(src, k + 1, offset);
    }
  }

  /** Extends a match word by word and then byte by byte, as far as it goes. */
  method ExtendMatch(src: seq<Byte>, ip: nat, offset: nat) returns (matchEnd: nat)
    requires 0 < offset <= ip && ip + MF_LIMIT < |src|
    requires Read32(src, ip) == Read32(src, ip - offset)
    ensures ip + MINMATCH <= matchEnd <= |src| && Repeats(src, ip, matchEnd, offset)
    ensures matchEnd == MatchEnd(src, ip + MINMATCH, offset)
  {
    hide Read32;
    Read32Equal(src, ip, ip - offset);
    matchEnd := ip + MINMATCH;
    while matchEnd < |src| - LAST_LITERALS && Read32(src, matchEnd) == Read32(src, matchEnd - offset)
      invariant ip + MINMATCH <= matchEnd < |src| && Repeats(src, ip, matchEnd, offset)
    {
      Read32Equal(src, matchEnd, matchEnd - offset);
      matchEnd := matchEnd + MINMATCH;
    }
    while matchEnd < |src| && src[matchEnd - offset] == src[matchEnd]
      invariant ip + MINMATCH <= matchEnd <= |src| && Repeats(src, ip, matchEnd, offset)
    {
      matchEnd := matchEnd + 1;
    }
    EndSkip(src, ip + MINMATCH, matchEnd, offset);
  }

  // ----- the choice of sequences

  /** The hash table holds positions up to `ip`. */
  predicate IsTable(table: seq<nat>, ip: nat) {
    |table| == HASH_TABLE_SIZE && forall h | 0 <= h < HASH_TABLE_SIZE :: table[h] <= ip
  }

  /** The candidate at `m` is used: it is near enough and its first four bytes agree. */
  predicate Usable(src: seq<Byte>, ip: nat, m: nat)
    requires m <= ip && ip + MINMATCH <= |src|
  {
    0 < ip - m <= 65535 && Read32(src, m) == Read32(src, ip)
  }

  function Stride(acceleration: int): (r: nat)
    ensures r > 0
  {
    if acceleration > 1 then acceleration else 1
  }

  /** The sequences that the main loop emits from position `ip` on, with literals pending since `anchor`. */
  function Plan(src: seq<Byte>, acceleration: int, ip: nat, anchor: nat, table: seq<nat>): (ss: seq<Sequence>)
    requires anchor <= ip && IsTable(table, ip)
    ensures forall s | s in ss :: WellFormed(s)
    decreases if ip < |src| then |src| - ip else 0
  {
    if ip >= |src| - MF_LIMIT then []
    else
      var h := Hash(Read32(src, ip));
      var m := table[h];
      if Usable(src, ip, m) then
        var e := MatchEnd(src, ip + MINMATCH, ip - m);
        [Sequence(src[anchor..ip], ip - m, e - ip)] + Plan(src, acceleration, e, e, table[h := ip])
      else Plan(src, acceleration, ip + Stride(acceleration), anchor, table[h := ip])
  }

  function PlanOf(src: seq<Byte>, acceleration: int): (ss: seq<Sequence>)
    ensures forall s | s in ss :: WellFormed(s)
  {
    Plan(src, acceleration, 0, 0, Zeros(HASH_TABLE_SIZE))
  }

  /** How much of the input a list of sequences stands for. */
  function Covered(ss: seq<Sequence>): nat {
    if ss == [] then 0 else |ss[0].lits| + ss[0].matchLen + Covered(ss[1..])
  }

  /** The literals that are left when the plan is done. */
  function Rest(src: seq<Byte>, ss: seq<Sequence>): seq<Byte> {
    if Covered(ss) <= |src| then src[Covered(ss)..] else []
  }

  lemma {:induction false} CoveredSnoc(ss: seq<Sequence>, s: Sequence)
    ensures Covered(ss + [s]) == Covered(ss) + |s.lits| + s.matchLen
  {
    if ss == [] {
      assert ss + [s] == [s];
    } else {
      CoveredSnoc(ss[1..], s);
      assert (ss + [s])[1..] == ss[1..] + [s];
    }
  }

  lemma {:induction false} CoveredPrefix(ss: seq<Sequence>, k: nat)
    requires k <= |ss|
    ensures Covered(ss[..k]) <= Covered(ss)
    ensures k < |ss| ==> |ss[k].lits| <= Covered(ss)
  {
    if k > 0 {
      CoveredPrefix(ss[1..], k - 1);
      assert ss[..k][1..] == ss[1..][..k - 1];
      assert k < |ss| ==> ss[1..][k - 1] == ss[k];
    }
  }

  lemma {:induction false} PlanCovered(src: seq<Byte>, acceleration: int, ip: nat, anchor: nat, table: seq<nat>)
    requires anchor <= ip && anchor <= |src| && IsTable(table, ip)
    ensures anchor + Covered(Plan(src, acceleration, ip, anchor, table)) <= |src|
    decreases if ip < |src| then |src| - ip else 0
  {
    hide Hash, Read32, MatchEnd;
    if ip < |src| - MF_LIMIT {
      var h := Hash(Read32(src, ip));
      var m := table[h];
      if Usable(src, ip, m) {
        var e := MatchEnd(src, ip + MINMATCH, ip - m);
        PlanMatch(src, acceleration, ip, anchor, table);
        PlanCovered(src, acceleration, e, e, table[h := ip]);
      } else {
        PlanSkip(src, acceleration, ip, anchor, table);
        PlanCovered(src, acceleration, ip + Stride(acceleration), anchor, table[h := ip]);
      }
    }
  }

  lemma PlanSkip(src: seq<Byte>, acceleration: int, ip: nat, anchor: nat, table: seq<nat>)
    requires anchor <= ip < |src| - MF_LIMIT && IsTable(table, ip)
    requires !Usable(src, ip, table[Hash(Read32(src, ip))])
    ensures Plan(src, acceleration, ip, anchor, table)
         == Plan(src, acceleration, ip + Stride(acceleration), anchor, table[Hash(Read32(src, ip)) := ip])
  {
    hide Hash, Read32, MatchEnd, Usable;
  }

  lemma PlanMatch(src: seq<Byte>, acceleration: int, ip: nat, anchor: nat, table: seq<nat>)
    requires anchor <= ip < |src| - MF_LIMIT && IsTable(table, ip)
    requires Usable(src, ip, table[Hash(Read32(src, ip))])
    ensures var h := Hash(Read32(src, ip));
            var offset := ip - table[h];
            var e := MatchEnd(src, ip + MINMATCH, offset);
            var s := Sequence(src[anchor..ip], offset, e - ip);
            var after := Plan(src, acceleration, e, e, table[h := ip]);
            && Plan(src, acceleration, ip, anchor, table) == [s] + after
            && Covered([s] + after) == e - anchor + Covered(after)
  {
    hide Hash, Read32, MatchEnd;
    var h := Hash(Read32(src, ip));
    var e := MatchEnd(src, ip + MINMATCH, ip - table[h]);
    var s := Sequence(src[anchor..ip], ip - table[h], e - ip);
    var after := Plan(src, acceleration, e, e, table[h := ip]);
    assert ([s] + after)[1..] == after;
  }

  /** A turn without a usable candidate, told from the bytes: it moves on by the acceleration, at least 1. */
  lemma TurnSkips(src: seq<Byte>, acceleration: int, ip: nat, anchor: nat, table: seq<nat>)
    requires anchor <= ip && ip + 12 < |src| && IsTable(table, ip)
    requires var m := table[Hash(Read32(src, ip))]; m == ip || ip - m > 65535 || src[m..m + 4] != src[ip..ip + 4]
    ensures var step := if acceleration > 1 then acceleration else 1;
            Plan(src, acceleration, ip, anchor, table)
              == Plan(src, acceleration, ip + step, anchor, table[Hash(Read32(src, ip)) := ip])
  {
    hide Plan, Hash, MatchEnd, Read32;
    FourBytes(src, table[Hash(Read32(src, ip))], ip);
    PlanSkip(src, acceleration, ip, anchor, table);
  }

  /** A turn with one: the sequence takes the literals since the anchor and a match as long as there can be. */
  lemma TurnMatches(src: seq<Byte>, acceleration: int, ip: nat, anchor: nat, table: seq<nat>) returns (e: nat)
    requires anchor <= ip && ip + 12 < |src| && IsTable(table, ip)
    requires var m := table[Hash(Read32(src, ip))]; ip - 65535 <= m < ip && src[m..m + 4] == src[ip..ip + 4]
    ensures var offset := ip - table[Hash(Read32(src, ip))];
            && ip + 4 <= e <= |src|
            && (forall j | ip <= j < e :: src[j] == src[j - offset]) && (e < |src| ==> src[e] != src[e - offset])
            && IsTable(table[Hash(Read32(src, ip)) := ip], e)
            && Plan(src, acceleration, ip, anchor, table)
                 == [Sequence(src[anchor..ip], offset, e - ip)]
                    + Plan(src, acceleration, e, e, table[Hash(Read32(src, ip)) := ip])
  {
    hide Plan, Hash, MatchEnd, Read32;
    var m := table[Hash(Read32(src, ip))];
    FourBytes(src, m, ip);
    PlanMatch(src, acceleration, ip, anchor, table);
    e := MatchEnd(src, ip + MINMATCH, ip - m);
    MatchEndExact(src, ip + MINMATCH, ip - m);
    Read32Equal(src, m, ip);
  }

  /** Where the table is asked: the next four bytes as a little-endian number, times 2654435761, bits 16 to 27. */
  lemma TableIndex(src: seq<Byte>, ip: nat)
    requires ip + 4 <= |src|
    ensures var v: nat := (src[ip] as int) + 256 * (src[ip + 1] as int) + 65536 * (src[ip + 2] as int)
                          + 16777216 * (src[ip + 3] as int);
            Hash(Read32(src, ip)) == v * 2654435761 / 65536 % 4096
  {
    HashBits(Read32(src, ip));
  }

  lemma FourBytes(src: seq<Byte>, i: nat, j: nat)
    requires i + 4 <= |src| && j + 4 <= |src|
    ensures Read32(src, i) == Read32(src, j) <==> src[i..i + 4] == src[j..j + 4]
  {
    hide Read32;
    Read32Equal(src, i, j);
    var s, t := src[i..i + 4], src[j..j + 4];
    assert s[0] == src[i] && s[1] == src[i + 1] && s[2] == src[i + 2] && s[3] == src[i + 3];
    assert t[0] == src[j] && t[1] == src[j + 1] && t[2] == src[j + 2] && t[3] == src[j + 3];
  }

  // ----- runs of one byte

  /**
   Any number of copies of one byte, at any acceleration: the second position tried already finds
   the first, and the match runs to the end, unless the step is too long for the input or the format.
   */
  lemma UniformPlan(src: seq<Byte>, b: Byte, acceleration: int)
    requires forall i | 0 <= i < |src| :: src[i] == b
    ensures var a := if acceleration > 1 then acceleration else 1;
            PlanOf(src, acceleration) ==
              if |src| > a + 12 && a <= 65535 then [Sequence(src[..a], a, |src| - a)] else []
  {
    hide Plan, Hash, Zeros;
    var table: seq<nat> := Zeros(HASH_TABLE_SIZE);
    var a := if acceleration > 1 then acceleration else 1;
    if |src| <= 12 {
      PlanDone(src, acceleration, 0, 0, table);
    } else {
      var h := Hash(UniformWord(b));
      UniformRead(src, b, 0);
      assert table[h := 0] == table;
      PlanSkip(src, acceleration, 0, 0, table);
      if a > 65535 {
        UniformFar(src, b, acceleration, a, table);
      } else if a + 12 >= |src| {
        PlanDone(src, acceleration, a, 0, table);
      } else {
        UniformNear(src, b, acceleration, a, table);
      }
    }
  }

  function UniformWord(b: Byte): nat {
    b * 0x1010101
  }

  lemma UniformRead(src: seq<Byte>, b: Byte, i: nat)
    requires i + 4 <= |src| && forall j | 0 <= j < |src| :: src[j] == b
    ensures Read32(src, i) == UniformWord(b)
  {
  }

  lemma UniformNear(src: seq<Byte>, b: Byte, acceleration: int, a: nat, table: seq<nat>)
    requires (forall i | 0 <= i < |src| :: src[i] == b) && 0 < a <= 65535 && a + 12 < |src|
    requires IsTable(table, a) && table[Hash(UniformWord(b))] == 0
    ensures Plan(src, acceleration, a, 0, table) == [Sequence(src[..a], a, |src| - a)]
  {
    hide Plan, Hash, MatchEnd, Read32, UniformWord;
    UniformRead(src, b, 0);
    UniformRead(src, b, a);
    PlanMatch(src, acceleration, a, 0, table);
    forall j | a + 4 <= j < |src|
      ensures SameAs(src, j, a)
    {
    }
    EndSkip(src, a + 4, |src|, a);
    EndOfInput(src, a);
    PlanDone(src, acceleration, |src|, |src|, table[Hash(UniformWord(b)) := a]);
    assert src[0..a] == src[..a];
  }

  lemma EndOfInput(src: seq<Byte>, offset: nat)
    requires offset <= |src|
    ensures MatchEnd(src, |src|, offset) == |src|
  {
  }

  /** With steps beyond 65535 every candidate is too far away. */
  lemma {:induction false} UniformFar(src: seq<Byte>, b: Byte, acceleration: int, ip: nat, table: seq<nat>)
    requires (forall i | 0 <= i < |src| :: src[i] == b) && acceleration > 65535
    requires IsTable(table, ip) && table[Hash(UniformWord(b))] == ip - acceleration
    ensures Plan(src, acceleration, ip, 0, table) == []
    decreases if ip < |src| then |src| - ip else 0
  {
    hide Plan, Hash, MatchEnd, Read32, UniformWord;
    if ip + 12 >= |src| {
      PlanDone(src, acceleration, ip, 0, table);
    } else {
      UniformRead(src, b, ip);
      PlanSkip(src, acceleration, ip, 0, table);
      UniformFar(src, b, acceleration, ip + acceleration, table[Hash(UniformWord(b)) := ip]);
    }
  }

  // ----- one run

  /** 40 zero bytes with acceleration 20: one sequence of 20 literals and a match of 20 bytes. */
  lemma ZeroPlan()
    ensures PlanOf(Zeros(40), 20) == [Sequence(Zeros(20), 20, 20)]
  {
    hide Zeros, PlanOf;
    UniformPlan(Zeros(40), 0, 20);
    assert Zeros(40)[..20] == Zeros(20);
  }

  lemma PlanDone(src: seq<Byte>, acceleration: int, ip: nat, anchor: nat, table: seq<nat>)
    requires anchor <= ip && IsTable(table, ip) && ip >= |src| - MF_LIMIT
    ensures Plan(src, acceleration, ip, anchor, table) == []
  {
  }
}
