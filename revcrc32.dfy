/** `reverse_crc32_4bytes`: the four bytes whose CRC-32 is a chosen value, computed by
  * shifting the CRC register backwards (Stigge, Ploetz, Mueller and Redlich,
  * "Reversing CRC - Theory and Practice", Listing 6). */
module ReverseCrc {
  import opened Crc

  // The two branches of one shift.
  lemma StepOdd(x: bv32) requires x & 1 == 1 ensures Step(Reg(x)) == Reg((x >> 1) ^ POLY) {}
  lemma StepNotOdd(x: bv32) requires x & 1 != 1 ensures Step(Reg(x)) == Reg(x >> 1) {}

  lemma {:induction false} PowStep(d: Reg, n: nat)
    ensures Pow(Step(d), n) == Step(Pow(d, n))
  {
    if n > 0 { PowStep(d, n - 1); }
  }

  lemma {:induction false} PowZero(n: nat)
    ensures Pow(Reg(0), n) == Reg(0)
  {
    if n > 0 { PowZero(n - 1); }
  }

  // Bit facts about the operand bits moved into the top of the register.
  lemma ShiftStart(t: bv32) ensures Reg(t << (32 - 0)) == Reg(0) {}

  lemma ShiftLow(t: bv32, i: bv32) requires i < 32 ensures (t << (32 - i)) & 1 != 1 {}

  lemma ShiftInZero(t: bv32, i: bv32, tc: bv32)
    requires i < 32 && tc == t >> i && tc & 1 != 1
    ensures Reg((t << (32 - i)) >> 1) == Reg(t << (32 - (i + 1)))
  {}

  lemma ShiftInOne(t: bv32, i: bv32, tc: bv32)
    requires i < 32 && tc == t >> i && tc & 1 == 1
    ensures Reg(((t << (32 - i)) >> 1) ^ 0x8000_0000) == Reg(t << (32 - (i + 1)))
  {}

  lemma ShiftNext(t: bv32, i: bv32, tc: bv32)
    requires i < 32 && Reg(tc) == Reg(t >> i)
    ensures Reg(tc >> 1) == Reg(t >> (i + 1))
  {}

  lemma KeepAbs(x: bv32, y: bv32)
    requires x & 1 != 1 && Reg(x >> 1) == Reg(y)
    ensures Step(Reg(x)) == Reg(y)
  {
    StepNotOdd(x);
  }

  lemma AddAbs(x: bv32, y: bv32)
    requires x & 1 != 1 && Reg((x >> 1) ^ 0x8000_0000) == Reg(y)
    ensures Xor(Step(Reg(x)), Reg(0x8000_0000)) == Reg(y)
  {
    StepNotOdd(x);
    XorBits(x >> 1, 0x8000_0000);
  }

  lemma ShiftKeep(t: bv32, i: bv32, tc: bv32)
    requires i < 32 && tc == t >> i && tc & 1 != 1
    ensures Step(Reg(t << (32 - i))) == Reg(t << (32 - (i + 1)))
  {
    ShiftLow(t, i);
    ShiftInZero(t, i, tc);
    KeepAbs(t << (32 - i), t << (32 - (i + 1)));
  }

  lemma ShiftAdd(t: bv32, i: bv32, tc: bv32)
    requires i < 32 && tc == t >> i && tc & 1 == 1
    ensures Xor(Step(Reg(t << (32 - i))), Reg(0x8000_0000)) == Reg(t << (32 - (i + 1)))
  {
    ShiftLow(t, i);
    ShiftInOne(t, i, tc);
    AddAbs(t << (32 - i), t << (32 - (i + 1)));
  }

  lemma ShiftEnd(t: bv32, i: bv32) requires i <= 32 && !(i < 32) ensures Reg(t << (32 - i)) == Reg(t) {}

  /** The register value t << (32 - i): the low i bits of t moved to the top. */
  function Top(t: bv32, i: bv32): Reg
    requires i <= 32
  {
    Reg(t << (32 - i))
  }

  lemma CountStep(i: bv32)
    requires i < 32
    ensures i + 1 <= 32 && 32 - (i + 1) < 32 - i
  {}

  /** A round that adds nothing keeps the invariant: 32 shifts of the partial result
    * are the operand bits consumed so far. */
  lemma RevKeep(d: Reg, t: bv32, i: bv32, tc: bv32)
    requires i < 32 && tc == t >> i && tc & 1 != 1
    requires Pow(d, 32) == Top(t, i)
    ensures i + 1 <= 32 && Pow(Step(d), 32) == Top(t, i + 1)
  {
    CountStep(i);
    PowStep(d, 32);
    ShiftKeep(t, i, tc);
  }

  /** A round that adds the inverse polynomial sets the next top bit. */
  lemma RevAdd(d: Reg, t: bv32, i: bv32, tc: bv32)
    requires i < 32 && tc == t >> i && tc & 1 == 1
    requires Pow(d, 32) == Top(t, i)
    ensures i + 1 <= 32 && Pow(Xor(Step(d), Reg(INVPOLY)), 32) == Top(t, i + 1)
  {
    CountStep(i);
    PowLinear(Step(d), Reg(INVPOLY), 32);
    PowStep(d, 32);
    PowInvPoly();
    ShiftAdd(t, i, tc);
  }

  lemma RevStart(t: bv32)
    ensures Pow(Reg(0), 32) == Top(t, 0)
  {
    PowZero(32);
    ShiftStart(t);
  }

  lemma TopEnd(t: bv32, i: bv32)
    requires i <= 32 && !(i < 32)
    ensures Top(t, i) == Reg(t)
  {
    ShiftEnd(t, i);
  }

  lemma MaskXorMasked(d: bv32) ensures Xor(Reg(0 ^ MASK), Reg(d ^ MASK)) == Reg(d) {}

  lemma UpdateMasked(d: bv32)
    ensures Update(Reg(0 ^ MASK), LE4(d ^ MASK)) == Pow(Reg(d), 32)
  {
    UpdateLE4(Reg(0 ^ MASK), d ^ MASK);
    MaskXorMasked(d);
  }

  lemma ClosedMasked(d: bv32)
    ensures Reg(Crc32(LE4(d ^ MASK)) ^ MASK) == Pow(Reg(d), 32)
  {
    var u := Update(Reg(0 ^ MASK), LE4(d ^ MASK));
    UpdateMasked(d);
    MaskTwice(u.bits);
    Eta(u);
  }

  lemma RevEnd(crc: bv32, data: bv32, i: bv32)
    requires i <= 32 && !(i < 32)
    requires Pow(Reg(data), 32) == Top(crc ^ MASK, i)
    ensures Pow(Reg(data), 32) == Reg(crc ^ MASK)
  {
    TopEnd(crc ^ MASK, i);
  }

  lemma RevFinishReg(crc: bv32, data: bv32)
    requires Pow(Reg(data), 32) == Reg(crc ^ MASK)
    ensures Reg(Crc32(LE4(data ^ MASK))) == Reg(crc)
  {
    ClosedMasked(data);
    UnmaskReg(Crc32(LE4(data ^ MASK)), crc);
  }

  lemma RegInjective(x: bv32, y: bv32) requires Reg(x) == Reg(y) ensures x == y {}

  /** After 32 rounds, the masked register is the word sought. */
  lemma RevFinish(crc: bv32, data: bv32, i: bv32)
    requires i <= 32 && !(i < 32)
    requires Pow(Reg(data), 32) == Top(crc ^ MASK, i)
    ensures Crc32(LE4(data ^ MASK)) == crc
  {
    RevEnd(crc, data, i);
    RevFinishReg(crc, data);
    RegInjective(Crc32(LE4(data ^ MASK)), crc);
  }

  lemma RoundCount(t: bv32, tc0: bv32, tc1: bv32, i0: bv32, i1: bv32)
    requires i0 < 32 && Reg(tc0) == Reg(t >> i0)
    requires tc1 == tc0 >> 1 && i1 == i0 + 1
    ensures i1 <= 32 && 32 - i1 < 32 - i0 && Reg(tc1) == Reg(t >> i1)
  {
    ShiftNext(t, i0, tc0);
    CountStep(i0);
  }

  /** The register value one loop round produces from data and the next operand bit. */
  function RoundReg(d: Reg, tc: bv32): Reg
  {
    if tc & 1 == 1 then Xor(Step(d), Reg(INVPOLY)) else Step(d)
  }

  /** One round keeps both loop invariants. */
  lemma RoundInvariant(t: bv32, d0: Reg, d1: Reg, tc0: bv32, tc1: bv32, i0: bv32, i1: bv32)
    requires i0 < 32 && Reg(tc0) == Reg(t >> i0) && Pow(d0, 32) == Top(t, i0)
    requires d1 == RoundReg(d0, tc0)
    requires tc1 == tc0 >> 1 && i1 == i0 + 1
    ensures i1 <= 32 && 32 - i1 < 32 - i0 && Reg(tc1) == Reg(t >> i1)
    ensures Pow(d1, 32) == Top(t, i1)
  {
    RoundCount(t, tc0, tc1, i0, i1);
    if tc0 & 1 == 1 {
      RevAdd(d0, t, i0, tc0);
    } else {
      RevKeep(d0, t, i0, tc0);
    }
  }

  /** One round of the loop body: reduce modulo the polynomial, then add the inverse polynomial when the operand bit is set. */
  method Round(data: bv32, tcrcreg: bv32) returns (next: bv32)
    ensures Reg(next) == RoundReg(Reg(data), tcrcreg)
  {
    next := data;
    if next & 1 == 1 {
      StepOdd(next);
      next := (next >> 1) ^ POLY;
    } else {
      StepNotOdd(next);
      next := next >> 1;
    }
    if tcrcreg & 1 == 1 {
      XorBits(next, INVPOLY);
      next := next ^ INVPOLY;
    }
  }

  /** The 32-bit word whose little-endian bytes have CRC-32 `crc`; it is the only one. */
  method ReverseCrc32(crc: bv32) returns (r: bv32)
    ensures Crc32(LE4(r)) == crc
    ensures forall w: bv32 :: Crc32(LE4(w)) == crc ==> w == r
  {
    ghost var t := crc ^ MASK;
    var tcrcreg := crc ^ MASK;
    var data: bv32 := 0;
    var i: bv32 := 0;
    RevStart(t);
    while i < 32
      invariant i <= 32
      invariant Reg(tcrcreg) == Reg(t >> i)
      invariant Pow(Reg(data), 32) == Top(t, i)
      decreases 32 - i
    {
      ghost var d0, tc0, i0 := data, tcrcreg, i;
      data := Round(data, tcrcreg);
      tcrcreg := tcrcreg >> 1;
      i := i + 1;
      RoundInvariant(t, Reg(d0), Reg(data), tc0, tcrcreg, i0, i);
    }
    RevFinish(crc, data, i);
    r := data ^ MASK;
    forall w: bv32 | Crc32(LE4(w)) == crc
      ensures w == r
    {
      Crc4Injective(w, r);
    }
  }
}
