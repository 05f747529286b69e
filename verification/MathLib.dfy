/** The logarithm that decides the order of a buddy request. */
module MathLib {
  import opened Bits

  /** A power of two shares no bit with its predecessor, and no other number has that property. */
  lemma {:induction false} AndPredecessor(s: nat, r: nat)
    requires Pow2(r) <= s < Pow2(r + 1)
    ensures And(s, s - 1) == 0 <==> s == Pow2(r)
  {
    if r > 0 {
      AndPredecessor(s / 2, r - 1);
      if s % 2 == 1 {
        assert (s - 1) / 2 == s / 2;
        AndSelf(s / 2);
      } else {
        assert (s - 1) / 2 == s / 2 - 1;
      }
    }
  }

  lemma {:induction false} AndSelf(a: nat)
    ensures And(a, a) == a
  {
    if a > 0 {
      AndSelf(a / 2);
    }
  }

  /** Shifting the scanned value right by half its width keeps it the leading part of `size`. */
  lemma ShiftRight(size: nat, value: nat, r: nat, s: nat)
    requires value == Shr(size, r) && Pow2(s) <= value < Pow2(s + s)
    ensures Shr(value, s) == Shr(size, r + s) && 1 <= Shr(value, s) < Pow2(s)
  {
    ShrShr(size, r, s);
    ShrBounds(value, s, s);
  }

  lemma {:induction false} ShrBounds(x: nat, j: nat, k: nat)
    ensures x < Pow2(j + k) ==> Shr(x, k) < Pow2(j)
    ensures x >= Pow2(k) ==> Shr(x, k) >= 1
  {
    if k > 0 {
      ShrBounds(x / 2, j, k - 1);
      assert Pow2(j + k) == 2 * Pow2(j + (k - 1));
    }
  }

  /** What is left of a number tells where its highest bit is. */
  lemma {:induction false} LeadingBit(size: nat, r: nat)
    requires Shr(size, r) == 1
    ensures Pow2(r) <= size < Pow2(r + 1)
  {
    if r > 0 {
      LeadingBit(size / 2, r - 1);
    }
  }

  lemma Power8()
    ensures Pow2(8) == 0x100
  {
    assert Pow2(4) == 0x10;
    Pow2Add(4, 4);
  }

  lemma Power16()
    ensures Pow2(16) == 0x10000
  {
    Power8();
    Pow2Add(8, 8);
  }

  lemma Power32()
    ensures Pow2(32) == 0x100000000
  {
    Power16();
    Pow2Add(16, 16);
  }

  lemma Power64()
    ensures Pow2(64) == 0x1_0000_0000_0000_0000
  {
    Power32();
    Pow2Add(32, 32);
  }

  /** One test of the binary search for the highest bit: `w` is 2^s. */
  predicate Scanned(size: nat, value: nat, r: nat, s: nat) {
    value == Shr(size, r) && 1 <= value < Pow2(s)
  }

  /** One of the six tests: if `value` has a bit at or above `s`, drop the low `s` bits. */
  method ScanStep(ghost size: nat, value: nat, log: nat, s: nat, w: nat) returns (value': nat, log': nat)
    requires Scanned(size, value, log, s + s) && w == Pow2(s)
    ensures Scanned(size, value', log', s) && log' <= log + s
  {
    value', log' := value, log;
    if value >= w {
      ShiftRight(size, value, log, s);
      log' := log + s;
      value' := Shr(value, s);
    }
  }

  lemma RoundUp(size: nat, r: nat)
    requires Shr(size, r) == 1 && size > 0
    ensures if And(size, size - 1) != 0 then Pow2(r) < size <= Pow2(r + 1)
            else size == Pow2(r) && (r > 0 ==> Pow2(r - 1) < size)
  {
    LeadingBit(size, r);
    AndPredecessor(size, r);
  }

  /** The least `r` with `size <= 2^r`; -1 for zero. */
  method Log2Ceil(size: nat) returns (r: int)
    requires size < Pow2(64)
    ensures size == 0 ==> r == -1
    ensures size > 0 ==> 0 <= r <= 64 && size <= Pow2(r) && (r > 0 ==> Pow2(r - 1) < size)
  {
    if size == 0 {
      return -1;
    }
    var value, log: nat := size, 0;
    Power64();
    Power32();
    value, log := ScanStep(size, value, log, 32, 0x100000000);
    Power16();
    value, log := ScanStep(size, value, log, 16, 0x10000);
    Power8();
    value, log := ScanStep(size, value, log, 8, 0x100);
    value, log := ScanStep(size, value, log, 4, 0x10);
    value, log := ScanStep(size, value, log, 2, 0x4);
    value, log := ScanStep(size, value, log, 1, 0x2);
    RoundUp(size, log);
    if And(size, size - 1) != 0 {
      log := log + 1;
    }
    return log;
  }
}
