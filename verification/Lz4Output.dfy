/**
 How long the output of `lz4_compress_generic` gets, when it fails, and what it has written
 past the capacity by then.
 */
module Lz4Output {
  import opened Bits
  import opened Lz4Format
  import opened Lz4Search
  import opened Memory

  const MAX_INPUT_SIZE: nat := 0x7E000000

  function CompressBound(n: nat): nat {
    if n > MAX_INPUT_SIZE then 0 else n + n / 255 + 16
  }

  // ----- sizes

  lemma ExtSize(n: nat)
    ensures |Ext(n)| == if n < 15 then 0 else (n - 15) / 255 + 1
  {
    if n >= 15 {
      ExtBytesSize(n - 15);
    }
  }

  /** A sequence costs at most its own bytes plus one in 255 of its literals: the potential behind the output bound. */
  lemma SequenceCost(s: Sequence)
    requires WellFormed(s)
    ensures |EncodeSequence(s)| <= |s.lits| + s.matchLen + |s.lits| / 255
  {
    ExtSize(|s.lits|);
    ExtSize(s.matchLen - MINMATCH);
  }

  lemma PotentialStep(op: nat, anchor: nat, lits: nat, ml: nat, cost: nat)
    requires op <= anchor + anchor / 255 && cost <= lits + ml + lits / 255
    ensures op + cost <= (anchor + lits + ml) + (anchor + lits + ml) / 255
  {
  }

  /** The code's estimate for the closing literals. */
  function Estimate(run: nat): nat {
    1 + (if run >= 15 then 1 else 0) + (if run >= 15 then (run - 15 + 254) / 255 else 0) + run
  }

  /** The output bound with 3 bytes of its reserve of 16, for sizes of any length. */
  function LastBound(n: nat): (r: nat)
    ensures n <= MAX_INPUT_SIZE ==> r < CompressBound(n)
  {
    n + n / 255 + 3
  }

  lemma LastCost(op: nat, anchor: nat, run: nat)
    requires op <= anchor + anchor / 255
    ensures op + Estimate(run) <= LastBound(anchor + run) && op <= LastBound(anchor + run)
    ensures 1 + |Ext(run)| + run <= Estimate(run)
  {
    ExtSize(run);
  }

  /**
   The estimate is one byte too high for most runs of more than 15, so closing literals that would
   just fit are refused.
   */
  lemma EstimateExact(lits: seq<Byte>, op: nat, cap: int)
    requires lits != []
    ensures var n, size := |lits|, |EncodeLast(lits)|;
            (op + size <= cap && op + Estimate(n) > cap) <==> n > 15 && (n - 15) % 255 != 0 && cap == op + size
  {
    ExtSize(|lits|);
    if |lits| > 15 {
      var q, r := (|lits| - 15) / 255, (|lits| - 15) % 255;
      DivModUnique(|lits| - 15 + 254, 255, if r == 0 then q else q + 1, if r == 0 then 254 else r - 1);
    }
  }

  // ----- failing

  /** Token and length of a sequence, written before any test; the match nibble is still empty. */
  function Header(n: nat): seq<Byte> {
    [16 * Nibble(n)] + Ext(n)
  }

  /** The part of a header at `op` that lies past the capacity. */
  function Over(op: nat, cap: nat, n: nat): (r: seq<Byte>)
    requires op <= cap
    ensures op + |Header(n)| > cap ==> cap + |r| == op + |Header(n)|
  {
    if op + |Header(n)| <= cap then [] else Header(n)[cap - op..]
  }

  /** The length of the first `k` sequences. */
  function PrefixSize(ss: seq<Sequence>, k: nat): nat
    requires (forall s | s in ss :: WellFormed(s)) && k <= |ss|
  {
    |EncodeAll(ss[..k])|
  }

  /** The first sequence from number `k` on that ends past the capacity. */
  function FirstFrom(ss: seq<Sequence>, cap: nat, k: nat): (r: nat)
    requires (forall s | s in ss :: WellFormed(s)) && k <= |ss|
    ensures k <= r <= |ss|
    decreases |ss| - k
  {
    if k == |ss| || PrefixSize(ss, k + 1) > cap then k else FirstFrom(ss, cap, k + 1)
  }

  /** The sequences before it fit, and it does not. */
  lemma {:induction false} FirstFromIs(ss: seq<Sequence>, cap: nat, k: nat)
    requires (forall s | s in ss :: WellFormed(s)) && k <= |ss|
    ensures var r := FirstFrom(ss, cap, k);
            && (forall j | k < j <= r :: PrefixSize(ss, j) <= cap) && (r < |ss| ==> PrefixSize(ss, r + 1) > cap)
    decreases |ss| - k
  {
    hide PrefixSize;
    if k < |ss| && PrefixSize(ss, k + 1) <= cap {
      FirstFromIs(ss, cap, k + 1);
    }
  }

  /** All sequences and the estimate of the rest fit. */
  predicate Succeeds(ss: seq<Sequence>, rest: seq<Byte>, cap: nat)
    requires forall s | s in ss :: WellFormed(s)
  {
    FirstFrom(ss, cap, 0) == |ss| && (rest == [] || |EncodeAll(ss)| + Estimate(|rest|) <= cap)
  }

  lemma PrefixFits(ss: seq<Sequence>, cap: nat)
    requires forall s | s in ss :: WellFormed(s)
    ensures PrefixSize(ss, FirstFrom(ss, cap, 0)) <= cap
  {
    FirstFromIs(ss, cap, 0);
    assert PrefixSize(ss, 0) == 0;
  }

  /** What is written past the capacity: the end of the header of the first sequence that does not fit. */
  function Spill(ss: seq<Sequence>, cap: nat): seq<Byte>
    requires forall s | s in ss :: WellFormed(s)
  {
    var k := FirstFrom(ss, cap, 0);
    PrefixFits(ss, cap);
    if k == |ss| then [] else Over(PrefixSize(ss, k), cap, |ss[k].lits|)
  }

  /** Nothing is written past the capacity exactly when the header of the first sequence that does not fit does. */
  lemma SpillExact(ss: seq<Sequence>, cap: nat)
    requires forall s | s in ss :: WellFormed(s)
    ensures var k := FirstFrom(ss, cap, 0);
            Spill(ss, cap) == [] <==> (k < |ss| ==> HeaderFits(PrefixSize(ss, k), |ss[k].lits|, cap))
  {
    var k := FirstFrom(ss, cap, 0);
    PrefixFits(ss, cap);
    if k < |ss| {
      ExtSize(|ss[k].lits|);
    }
  }

  /** One byte, and the extension bytes of the length, still fit behind `op`. */
  predicate HeaderFits(op: nat, n: nat, cap: nat) {
    op < cap && (n >= 15 ==> op + 2 + (n - 15) / 255 <= cap)
  }

  /** The most that a run on `n` bytes can write past the capacity. */
  function Overrun(n: nat): nat {
    2 + n / 255
  }

  lemma SpillBound(ss: seq<Sequence>, cap: nat, n: nat)
    requires (forall s | s in ss :: WellFormed(s)) && Covered(ss) <= n
    ensures |Spill(ss, cap)| <= Overrun(n)
  {
    var k := FirstFrom(ss, cap, 0);
    PrefixFits(ss, cap);
    CoveredPrefix(ss, k);
    if k < |ss| {
      ExtSize(|ss[k].lits|);
    }
  }

  lemma {:induction false} EncodedCost(ss: seq<Sequence>)
    requires forall s | s in ss :: WellFormed(s)
    ensures |EncodeAll(ss)| <= Covered(ss) + Covered(ss) / 255
  {
    if ss != [] {
      var before, s := ss[..|ss| - 1], ss[|ss| - 1];
      EncodedCost(before);
      assert ss == before + [s];
      SequenceCost(s);
      CoveredSnoc(before, s);
      PotentialStep(|EncodeAll(before)|, Covered(before), |s.lits|, s.matchLen, |EncodeSequence(s)|);
    }
  }

  /** With the bound as capacity the compressor neither fails nor writes past it, on any input with any acceleration. */
  lemma BoundSuffices(src: seq<Byte>, acceleration: int, cap: nat)
    requires cap >= LastBound(|src|)
    ensures var plan := PlanOf(src, acceleration);
            Succeeds(plan, Rest(src, plan), cap) && Spill(plan, cap) == []
  {
    var plan := PlanOf(src, acceleration);
    PlanCovered(src, acceleration, 0, 0, Zeros(HASH_TABLE_SIZE));
    hide PlanOf, Covered, EncodeAll, FirstFrom, LastBound, Estimate;
    AllFit(plan, |src|, cap);
    LastCost(|EncodeAll(plan)|, Covered(plan), |src| - Covered(plan));
  }

  /** Sequences that cover no more than `n` bytes fit the bound of `n`. */
  lemma AllFit(ss: seq<Sequence>, n: nat, cap: nat)
    requires (forall s | s in ss :: WellFormed(s)) && Covered(ss) <= n && cap >= LastBound(n)
    ensures FirstFrom(ss, cap, 0) == |ss| && |EncodeAll(ss)| <= Covered(ss) + Covered(ss) / 255
  {
    hide Covered, EncodeAll, FirstFrom;
    var k := FirstFrom(ss, cap, 0);
    FirstFromIs(ss, cap, 0);
    EncodedCost(ss);
    if k < |ss| {
      EncodedCost(ss[..k + 1]);
      CoveredPrefix(ss, k + 1);
      PerByte(Covered(ss[..k + 1]), n);
      assert false;
    }
  }

  lemma PerByte(a: nat, n: nat)
    requires a <= n
    ensures a + a / 255 <= n + n / 255
  {
  }

  /** 40 zero bytes, acceleration 20, capacity 1: byte 1 is written, with the value 5. */
  lemma ZeroSpill()
    ensures var plan := PlanOf(Zeros(40), 20);
            Spill(plan, 1) == [5] && !Succeeds(plan, Rest(Zeros(40), plan), 1)
  {
    hide Zeros;
    ZeroPlan();
    var s := Sequence(Zeros(20), 20, 20);
    hide PlanOf;
    assert [s][..1] == [s] && [s][..0] == [];
    assert EncodeAll([s]) == EncodeAll([]) + EncodeSequence(s);
    ExtSize(20);
    assert Header(20) == [240, 5];
  }

  /** 16 equal bytes with acceleration 4 need 18 bytes, and are refused a capacity of 18. */
  lemma RefusedFit()
    ensures var plan := PlanOf(Zeros(16), 4);
            plan == [] && |EncodeLast(Rest(Zeros(16), plan))| == 18 && !Succeeds(plan, Rest(Zeros(16), plan), 18)
  {
    hide Zeros, PlanOf;
    UniformPlan(Zeros(16), 0, 4);
    assert Zeros(16)[0..] == Zeros(16);
    EstimateExact(Zeros(16), 0, 18);
    ExtSize(16);
  }

  /** 40 zero bytes with acceleration 1 become five bytes. */
  lemma OneRun()
    ensures var plan := PlanOf(Zeros(40), 1);
            EncodeAll(plan) + EncodeLast(Rest(Zeros(40), plan)) == [0x1F, 0, 1, 0, 20]
  {
    hide Zeros, PlanOf;
    UniformPlan(Zeros(40), 0, 1);
    var s := Sequence(Zeros(40)[..1], 1, 39);
    assert s.lits == [0];
    assert [s][..0] == [];
    assert EncodeAll([s]) == EncodeAll([]) + EncodeSequence(s);
  }
}
