/** The CRC-32 of ISO-HDLC / IEEE 802.3 (zlib's `crc32`, reflected, polynomial
  * 0xEDB88320, initial and final XOR 0xFFFFFFFF), defined bit by bit, with the
  * GF(2)-linearity facts that the reverse computation and the hunters rely on. */
module Crc {
  import opened PyBytes

  /** The reflected generator polynomial. */
  const POLY: bv32 := 0xEDB8_8320

  /** A 32-bit CRC shift register. */
  datatype Reg = Reg(bits: bv32)

  /** Addition of two registers in GF(2). */
  function Xor(a: Reg, b: Reg): Reg { Reg(a.bits ^ b.bits) }

  /** One shift of the register: the bit leaving at the bottom feeds back the polynomial. */
  function Step(r: Reg): Reg
  {
    if r.bits & 1 == 1 then Reg((r.bits >> 1) ^ POLY) else Reg(r.bits >> 1)
  }

  /** `n` shifts. */
  function Pow(d: Reg, n: nat): Reg
  {
    if n == 0 then d else Step(Pow(d, n - 1))
  }

  // Bit-level facts, one case per lemma.
  lemma LowBit(x: bv32) ensures x & 1 == 0 || x & 1 == 1 {}
  lemma Eta(a: Reg) ensures Reg(a.bits) == a {}
  lemma XorBits(x: bv32, y: bv32) ensures Xor(Reg(x), Reg(y)) == Reg(x ^ y) {}
  lemma StepOddOdd(x: bv32, y: bv32) requires x & 1 == 1 && y & 1 == 1
    ensures Step(Reg(x ^ y)) == Xor(Step(Reg(x)), Step(Reg(y))) {}
  lemma StepOddEven(x: bv32, y: bv32) requires x & 1 == 1 && y & 1 == 0
    ensures Step(Reg(x ^ y)) == Xor(Step(Reg(x)), Step(Reg(y))) {}
  lemma StepEvenOdd(x: bv32, y: bv32) requires x & 1 == 0 && y & 1 == 1
    ensures Step(Reg(x ^ y)) == Xor(Step(Reg(x)), Step(Reg(y))) {}
  lemma StepEvenEven(x: bv32, y: bv32) requires x & 1 == 0 && y & 1 == 0
    ensures Step(Reg(x ^ y)) == Xor(Step(Reg(x)), Step(Reg(y))) {}

  lemma StepLinearBits(x: bv32, y: bv32)
    ensures Step(Xor(Reg(x), Reg(y))) == Xor(Step(Reg(x)), Step(Reg(y)))
  {
    XorBits(x, y);
    LowBit(x); LowBit(y);
    if x & 1 == 1 {
      if y & 1 == 1 { StepOddOdd(x, y); } else { StepOddEven(x, y); }
    } else {
      if y & 1 == 1 { StepEvenOdd(x, y); } else { StepEvenEven(x, y); }
    }
  }

  lemma StepLinear(a: Reg, b: Reg)
    ensures Step(Xor(a, b)) == Xor(Step(a), Step(b))
  {
    Eta(a); Eta(b);
    StepLinearBits(a.bits, b.bits);
  }

  /** Shifting commutes with XOR: the register update is linear over GF(2). */
  lemma {:induction false} PowLinear(a: Reg, b: Reg, n: nat)
    ensures Pow(Xor(a, b), n) == Xor(Pow(a, n), Pow(b, n))
  {
    if n > 0 {
      PowLinear(a, b, n - 1);
      StepLinear(Pow(a, n - 1), Pow(b, n - 1));
    }
  }

  lemma InjOddOdd(x: bv32, y: bv32)
    requires x & 1 == 1 && y & 1 == 1 && Step(Reg(x)) == Step(Reg(y))
    ensures Reg(x) == Reg(y) {}
  lemma InjOddEven(x: bv32, y: bv32)
    requires x & 1 == 1 && y & 1 == 0
    ensures Step(Reg(x)) != Step(Reg(y)) {}
  lemma InjEvenEven(x: bv32, y: bv32)
    requires x & 1 == 0 && y & 1 == 0 && Step(Reg(x)) == Step(Reg(y))
    ensures Reg(x) == Reg(y) {}

  lemma StepInjectiveBits(x: bv32, y: bv32)
    requires Step(Reg(x)) == Step(Reg(y))
    ensures Reg(x) == Reg(y)
  {
    LowBit(x); LowBit(y);
    if x & 1 == 1 {
      if y & 1 == 1 { InjOddOdd(x, y); } else { InjOddEven(x, y); }
    } else {
      if y & 1 == 1 { InjOddEven(y, x); } else { InjEvenEven(x, y); }
    }
  }

  lemma StepInjective(a: Reg, b: Reg)
    requires Step(a) == Step(b)
    ensures a == b
  {
    Eta(a); Eta(b);
    StepInjectiveBits(a.bits, b.bits);
  }

  /** No two registers shift to the same one: the update is invertible. */
  lemma {:induction false} PowInjective(a: Reg, b: Reg, n: nat)
    requires Pow(a, n) == Pow(b, n)
    ensures a == b
  {
    if n > 0 {
      StepInjective(Pow(a, n - 1), Pow(b, n - 1));
      PowInjective(a, b, n - 1);
    }
  }

  lemma {:induction false} PowAdd(d: Reg, m: nat, n: nat)
    ensures Pow(Pow(d, m), n) == Pow(d, m + n)
  {
    if n > 0 {
      PowAdd(d, m, n - 1);
    }
  }

  // Shifting a register whose low byte is clear.
  lemma StepEven(y: bv32) requires y & 1 == 0 ensures Step(Reg(y)) == Reg(y >> 1) {}

  lemma HighBits(v: bv32)
    ensures var h := v & 0xFFFF_FF00;
      h & 1 == 0 && (h >> 1) & 1 == 0 && ((h >> 1) >> 1) & 1 == 0 &&
      (((h >> 1) >> 1) >> 1) & 1 == 0 && ((((h >> 1) >> 1) >> 1) >> 1) & 1 == 0 &&
      (((((h >> 1) >> 1) >> 1) >> 1) >> 1) & 1 == 0 &&
      ((((((h >> 1) >> 1) >> 1) >> 1) >> 1) >> 1) & 1 == 0 &&
      (((((((h >> 1) >> 1) >> 1) >> 1) >> 1) >> 1) >> 1) & 1 == 0 &&
      Reg((((((((h >> 1) >> 1) >> 1) >> 1) >> 1) >> 1) >> 1) >> 1) == Reg(v >> 8)
  {}

  lemma PowHigh(v: bv32)
    ensures Pow(Reg(v & 0xFFFF_FF00), 8) == Reg(v >> 8)
  {
    var h0 := v & 0xFFFF_FF00;
    var h1 := h0 >> 1; var h2 := h1 >> 1; var h3 := h2 >> 1; var h4 := h3 >> 1;
    var h5 := h4 >> 1; var h6 := h5 >> 1; var h7 := h6 >> 1;
    HighBits(v);
    StepEven(h0); StepEven(h1); StepEven(h2); StepEven(h3);
    StepEven(h4); StepEven(h5); StepEven(h6); StepEven(h7);
    assert Pow(Reg(h0), 1) == Reg(h1);
    assert Pow(Reg(h0), 2) == Reg(h2);
    assert Pow(Reg(h0), 3) == Reg(h3);
    assert Pow(Reg(h0), 4) == Reg(h4);
    assert Pow(Reg(h0), 5) == Reg(h5);
    assert Pow(Reg(h0), 6) == Reg(h6);
    assert Pow(Reg(h0), 7) == Reg(h7);
  }

  function ByteBits(b: byte): bv8 { b as bv8 }
  function ByteVal(x: bv8): byte { x as int }
  function Low(v: bv32): byte { ByteVal((v & 0xFF) as bv8) }

  /** Absorbing one byte: XOR it into the low bits, then shift eight times. */
  function UpdateBits(c: Reg, x: bv8): Reg { Pow(Reg(c.bits ^ (x as bv32)), 8) }
  function UpdateByte(c: Reg, b: byte): Reg { UpdateBits(c, ByteBits(b)) }

  /** Absorbing a byte string, first byte first. */
  function Update(c: Reg, data: seq<byte>): Reg
    decreases |data|
  {
    if |data| == 0 then c else Update(UpdateByte(c, data[0]), data[1..])
  }

  /** The `n` low bytes of `w`, least significant first. */
  function LEBytes(w: bv32, n: nat): (r: seq<byte>)
    ensures |r| == n
  {
    if n == 0 then [] else [Low(w)] + LEBytes(w >> 8, n - 1)
  }

  function ShrBytes(w: bv32, n: nat): bv32
  {
    if n == 0 then w else ShrBytes(w >> 8, n - 1)
  }

  lemma RoundBits(x: bv8) ensures ByteBits(ByteVal(x)) == x {}
  lemma SameLow(c: bv32, x: bv8, y: bv8) requires y == x
    ensures Reg(c ^ (y as bv32)) == Reg(c ^ (x as bv32)) {}
  lemma SplitLow(c: bv32, v: bv32)
    ensures Reg(c ^ v) == Xor(Reg(c ^ (((v & 0xFF) as bv8) as bv32)), Reg(v & 0xFFFF_FF00)) {}

  lemma AbsorbBits(x: bv32, v: bv32)
    ensures Pow(Reg(x ^ v), 8) == Xor(Pow(Reg(x ^ (((v & 0xFF) as bv8) as bv32)), 8), Reg(v >> 8))
  {
    SplitLow(x, v);
    PowLinear(Reg(x ^ (((v & 0xFF) as bv8) as bv32)), Reg(v & 0xFFFF_FF00), 8);
    PowHigh(v);
  }

  lemma ByteRound(c: Reg, x: bv8)
    ensures UpdateByte(c, ByteVal(x)) == UpdateBits(c, x)
  {
    RoundBits(x);
  }

  lemma ByteAbsorb(c: Reg, v: bv32)
    ensures Pow(Xor(c, Reg(v)), 8) == Xor(UpdateBits(c, (v & 0xFF) as bv8), Reg(v >> 8))
  {
    Eta(c);
    XorBits(c.bits, v);
    AbsorbBits(c.bits, v);
  }

  lemma UpdateCons(c: Reg, b: byte, rest: seq<byte>)
    ensures Update(c, [b] + rest) == Update(UpdateByte(c, b), rest)
  {
    assert ([b] + rest)[1..] == rest;
  }

  /** Absorbing the little-endian bytes of a word is one XOR plus 8n shifts, with the
    * bits of the word not yet consumed left over. */
  lemma {:induction false} UpdateLEBytes(c: Reg, w: bv32, n: nat)
    ensures Xor(Update(c, LEBytes(w, n)), Reg(ShrBytes(w, n))) == Pow(Xor(c, Reg(w)), 8 * n)
    decreases n
  {
    if n == 0 {
      assert LEBytes(w, 0) == [];
    } else {
      var c1 := UpdateBits(c, (w & 0xFF) as bv8);
      UpdateCons(c, Low(w), LEBytes(w >> 8, n - 1));
      ByteRound(c, (w & 0xFF) as bv8);
      UpdateLEBytes(c1, w >> 8, n - 1);
      ByteAbsorb(c, w);
      PowAdd(Xor(c, Reg(w)), 8, 8 * (n - 1));
    }
  }

  lemma {:induction false} UpdateAppend(c: Reg, a: seq<byte>, b: seq<byte>)
    ensures Update(c, a + b) == Update(Update(c, a), b)
    decreases |a|
  {
    if |a| == 0 {
      assert a + b == b;
    } else {
      assert (a + b)[0] == a[0];
      assert (a + b)[1..] == a[1..] + b;
      UpdateAppend(UpdateByte(c, a[0]), a[1..], b);
    }
  }

  const MASK: bv32 := 0xFFFF_FFFF

  /** `zlib.crc32(data, value)`: the CRC of `data` continued from the CRC `value`. */
  function Crc32From(value: bv32, data: seq<byte>): bv32
  {
    Update(Reg(value ^ MASK), data).bits ^ MASK
  }

  /** `zlib.crc32(data)`. */
  function Crc32(data: seq<byte>): bv32 { Crc32From(0, data) }

  lemma MaskTwice(x: bv32) ensures Reg((x ^ MASK) ^ MASK) == Reg(x) {}

  lemma ChainReg(value: bv32, a: seq<byte>, b: seq<byte>)
    ensures Update(Reg(Crc32From(value, a) ^ MASK), b) == Update(Reg(value ^ MASK), a + b)
  {
    var r := Update(Reg(value ^ MASK), a);
    UpdateAppend(Reg(value ^ MASK), a, b);
    MaskTwice(r.bits);
    Eta(r);
  }

  /** Feeding the CRC of `a` back in as the starting value while hashing `b` gives the
    * CRC of `a + b`: the incremental use of `crc32` is the CRC of the concatenation. */
  lemma Crc32Chain(value: bv32, a: seq<byte>, b: seq<byte>)
    ensures Crc32From(Crc32From(value, a), b) == Crc32From(value, a + b)
  {
    ChainReg(value, a, b);
  }

  /** `w.to_bytes(4, 'little')`. */
  function LE4(w: bv32): seq<byte> { LEBytes(w, 4) }

  lemma ShrFour(w: bv32) ensures Reg(ShrBytes(w, 4)) == Reg(0)
  {
    assert ShrBytes(w, 4) == ShrBytes(w >> 8, 3);
    assert ShrBytes(w >> 8, 3) == ShrBytes((w >> 8) >> 8, 2);
    assert ShrBytes((w >> 8) >> 8, 2) == ShrBytes(((w >> 8) >> 8) >> 8, 1);
    assert ShrBytes(((w >> 8) >> 8) >> 8, 1) == (((w >> 8) >> 8) >> 8) >> 8;
  }
  lemma XorZero(a: Reg) ensures Xor(a, Reg(0)) == a {}

  lemma UpdateLE4(c: Reg, w: bv32)
    ensures Update(c, LE4(w)) == Pow(Xor(c, Reg(w)), 32)
  {
    UpdateLEBytes(c, w, 4);
    assert Xor(Update(c, LE4(w)), Reg(ShrBytes(w, 4))) == Pow(Xor(c, Reg(w)), 32);
    ShrFour(w);
    assert Xor(Update(c, LE4(w)), Reg(0)) == Pow(Xor(c, Reg(w)), 32);
    XorZero(Update(c, LE4(w)));
  }

  lemma MaskXor(w: bv32) ensures Xor(Reg(0 ^ MASK), Reg(w)) == Reg(w ^ MASK) {}

  lemma Crc4Reg(w: bv32)
    ensures Update(Reg(0 ^ MASK), LE4(w)) == Pow(Reg(w ^ MASK), 32)
  {
    UpdateLE4(Reg(0 ^ MASK), w);
    MaskXor(w);
  }

  /** The CRC of a four-byte little-endian word is 32 shifts of the masked word. */
  lemma Crc4Closed(w: bv32)
    ensures Crc32(LE4(w)) == Pow(Reg(w ^ MASK), 32).bits ^ MASK
  {
    Crc4Reg(w);
  }

  lemma ClosedReg(w: bv32)
    ensures Reg(Crc32(LE4(w)) ^ MASK) == Pow(Reg(w ^ MASK), 32)
  {
    var u := Update(Reg(0 ^ MASK), LE4(w));
    Crc4Reg(w);
    MaskTwice(u.bits);
    Eta(u);
  }

  lemma UnmaskReg(x: bv32, y: bv32) requires Reg(x ^ MASK) == Reg(y ^ MASK) ensures Reg(x) == Reg(y) {}

  /** Distinct four-byte inputs have distinct CRCs. */
  lemma Crc4Injective(w1: bv32, w2: bv32)
    requires Crc32(LE4(w1)) == Crc32(LE4(w2))
    ensures w1 == w2
  {
    ClosedReg(w1);
    ClosedReg(w2);
    PowInjective(Reg(w1 ^ MASK), Reg(w2 ^ MASK), 32);
    UnmaskReg(w1, w2);
  }

  /** The multiplicative inverse of x^32 modulo the polynomial, in reflected form. */
  const INVPOLY: bv32 := 0x5B35_8FD3

  /** 32 shifts of the inverse polynomial leave exactly the top bit set. */
  lemma PowInvPoly() ensures Pow(Reg(INVPOLY), 32) == Reg(0x8000_0000)
  {
    assert Pow(Reg(0x5B35_8FD3), 4) == Reg(0x236a6851);
    assert Pow(Reg(0x236a6851), 4) == Reg(0x1f81b6e1);
    assert Pow(Reg(0x1f81b6e1), 4) == Reg(0x1c4f0b0a);
    assert Pow(Reg(0x1c4f0b0a), 4) == Reg(0xd7125358);
    assert Pow(Reg(0xd7125358), 4) == Reg(0xe0c9a615);
    assert Pow(Reg(0xe0c9a615), 4) == Reg(0x6567cb95);
    assert Pow(Reg(0x6567cb95), 4) == Reg(0x6d3d2d4d);
    assert Pow(Reg(0x6d3d2d4d), 4) == Reg(0x8000_0000);
    PowAdd(Reg(INVPOLY), 4, 4);
    assert Pow(Reg(INVPOLY), 8) == Reg(0x1f81b6e1);
    PowAdd(Reg(INVPOLY), 8, 4);
    assert Pow(Reg(INVPOLY), 12) == Reg(0x1c4f0b0a);
    PowAdd(Reg(INVPOLY), 12, 4);
    assert Pow(Reg(INVPOLY), 16) == Reg(0xd7125358);
    PowAdd(Reg(INVPOLY), 16, 4);
    assert Pow(Reg(INVPOLY), 20) == Reg(0xe0c9a615);
    PowAdd(Reg(INVPOLY), 20, 4);
    assert Pow(Reg(INVPOLY), 24) == Reg(0x6567cb95);
    PowAdd(Reg(INVPOLY), 24, 4);
    assert Pow(Reg(INVPOLY), 28) == Reg(0x6d3d2d4d);
    PowAdd(Reg(INVPOLY), 28, 4);
    assert Pow(Reg(INVPOLY), 32) == Reg(0x8000_0000);
  }

  // Python's `int.from_bytes(b, 'little')` for a four-byte `b`, as a 32-bit word, and the
  // fact that `to_bytes(4, 'little')` gives `b` back.  Converting a byte to bits and back
  // is proved in sixteen ranges of sixteen values each, which the solver handles quickly.
  lemma BitsBack0(b: int) requires 0 <= b < 16 ensures (b as bv8) as int == b {}
  lemma BitsBack1(b: int) requires 16 <= b < 32 ensures (b as bv8) as int == b {}
  lemma BitsBack2(b: int) requires 32 <= b < 48 ensures (b as bv8) as int == b {}
  lemma BitsBack3(b: int) requires 48 <= b < 64 ensures (b as bv8) as int == b {}
  lemma BitsBack4(b: int) requires 64 <= b < 80 ensures (b as bv8) as int == b {}
  lemma BitsBack5(b: int) requires 80 <= b < 96 ensures (b as bv8) as int == b {}
  lemma BitsBack6(b: int) requires 96 <= b < 112 ensures (b as bv8) as int == b {}
  lemma BitsBack7(b: int) requires 112 <= b < 128 ensures (b as bv8) as int == b {}
  lemma BitsBack8(b: int) requires 128 <= b < 144 ensures (b as bv8) as int == b {}
  lemma BitsBack9(b: int) requires 144 <= b < 160 ensures (b as bv8) as int == b {}
  lemma BitsBack10(b: int) requires 160 <= b < 176 ensures (b as bv8) as int == b {}
  lemma BitsBack11(b: int) requires 176 <= b < 192 ensures (b as bv8) as int == b {}
  lemma BitsBack12(b: int) requires 192 <= b < 208 ensures (b as bv8) as int == b {}
  lemma BitsBack13(b: int) requires 208 <= b < 224 ensures (b as bv8) as int == b {}
  lemma BitsBack14(b: int) requires 224 <= b < 240 ensures (b as bv8) as int == b {}
  lemma BitsBack15(b: int) requires 240 <= b < 256 ensures (b as bv8) as int == b {}

  lemma BitsBack(b: byte) ensures ByteVal(ByteBits(b)) == b
  {
    if b < 16 {
      BitsBack0(b);
    } else if b < 32 {
      BitsBack1(b);
    } else if b < 48 {
      BitsBack2(b);
    } else if b < 64 {
      BitsBack3(b);
    } else if b < 80 {
      BitsBack4(b);
    } else if b < 96 {
      BitsBack5(b);
    } else if b < 112 {
      BitsBack6(b);
    } else if b < 128 {
      BitsBack7(b);
    } else if b < 144 {
      BitsBack8(b);
    } else if b < 160 {
      BitsBack9(b);
    } else if b < 176 {
      BitsBack10(b);
    } else if b < 192 {
      BitsBack11(b);
    } else if b < 208 {
      BitsBack12(b);
    } else if b < 224 {
      BitsBack13(b);
    } else if b < 240 {
      BitsBack14(b);
    } else {
      BitsBack15(b);
    }
  }

  /** Four bytes, least significant first, as a word. */
  function Join(x0: bv8, x1: bv8, x2: bv8, x3: bv8): bv32
  {
    (x0 as bv32) | ((x1 as bv32) << 8) | ((x2 as bv32) << 16) | ((x3 as bv32) << 24)
  }

  lemma Join0(x0: bv8, x1: bv8, x2: bv8, x3: bv8)
    ensures (Join(x0, x1, x2, x3) & 0xFF) as bv8 == x0 {}
  lemma Join1(x0: bv8, x1: bv8, x2: bv8, x3: bv8)
    ensures ((Join(x0, x1, x2, x3) >> 8) & 0xFF) as bv8 == x1 {}
  lemma Join2(x0: bv8, x1: bv8, x2: bv8, x3: bv8)
    ensures (((Join(x0, x1, x2, x3) >> 8) >> 8) & 0xFF) as bv8 == x2 {}
  lemma Join3(x0: bv8, x1: bv8, x2: bv8, x3: bv8)
    ensures ((((Join(x0, x1, x2, x3) >> 8) >> 8) >> 8) & 0xFF) as bv8 == x3 {}

  /** `int.from_bytes(b, 'little')` of four bytes. */
  function FromLE4(b: seq<byte>): bv32
    requires |b| == 4
  {
    Join(ByteBits(b[0]), ByteBits(b[1]), ByteBits(b[2]), ByteBits(b[3]))
  }

  lemma Low0(b: seq<byte>) requires |b| == 4 ensures Low(FromLE4(b)) == b[0]
  {
    Join0(ByteBits(b[0]), ByteBits(b[1]), ByteBits(b[2]), ByteBits(b[3]));
    BitsBack(b[0]);
  }
  lemma Low1(b: seq<byte>) requires |b| == 4 ensures Low(FromLE4(b) >> 8) == b[1]
  {
    Join1(ByteBits(b[0]), ByteBits(b[1]), ByteBits(b[2]), ByteBits(b[3]));
    BitsBack(b[1]);
  }
  lemma Low2(b: seq<byte>) requires |b| == 4 ensures Low((FromLE4(b) >> 8) >> 8) == b[2]
  {
    Join2(ByteBits(b[0]), ByteBits(b[1]), ByteBits(b[2]), ByteBits(b[3]));
    BitsBack(b[2]);
  }
  lemma Low3(b: seq<byte>) requires |b| == 4 ensures Low(((FromLE4(b) >> 8) >> 8) >> 8) == b[3]
  {
    Join3(ByteBits(b[0]), ByteBits(b[1]), ByteBits(b[2]), ByteBits(b[3]));
    BitsBack(b[3]);
  }

  lemma LECons(w: bv32, n: nat)
    requires n >= 1
    ensures LEBytes(w, n) == [Low(w)] + LEBytes(w >> 8, n - 1)
  {
  }

  lemma LEEmpty(w: bv32) ensures LEBytes(w, 0) == [] {}

  lemma LE4Expand(w: bv32)
    ensures LE4(w) == [Low(w)] + ([Low(w >> 8)] + ([Low((w >> 8) >> 8)] + ([Low(((w >> 8) >> 8) >> 8)] + [])))
  {
    LECons(w, 4);
    LECons(w >> 8, 3);
    LECons((w >> 8) >> 8, 2);
    LECons(((w >> 8) >> 8) >> 8, 1);
    LEEmpty((((w >> 8) >> 8) >> 8) >> 8);
  }

  lemma Seq4(b: seq<byte>, a0: byte, a1: byte, a2: byte, a3: byte)
    requires |b| == 4 && a0 == b[0] && a1 == b[1] && a2 == b[2] && a3 == b[3]
    ensures [a0] + ([a1] + ([a2] + ([a3] + []))) == b
  {
  }

  /** `to_bytes(4, 'little')` undoes `from_bytes(b, 'little')`. */
  lemma LE4FromLE4(b: seq<byte>)
    requires |b| == 4
    ensures LE4(FromLE4(b)) == b
  {
    var w := FromLE4(b);
    LE4Expand(w);
    Low0(b);
    Low1(b);
    Low2(b);
    Low3(b);
    Seq4(b, Low(w), Low(w >> 8), Low((w >> 8) >> 8), Low(((w >> 8) >> 8) >> 8));
  }

  /** ... and the other way round: a word is determined by its four bytes. */
  lemma FromLE4LE4(w: bv32)
    ensures |LE4(w)| == 4 && FromLE4(LE4(w)) == w
  {
    LE4Expand(w);
    LE4FromLE4(LE4(w));
    Crc4Injective(FromLE4(LE4(w)), w);
  }
}
