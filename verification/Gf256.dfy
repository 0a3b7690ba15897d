/** A byte of share data. Wrapping the bit vector keeps bit-level reasoning inside the few
    lemmas that need it; everywhere else a byte is an ordinary value. */
module Bytes {
  datatype Byte = Byte(bits: bv8)

  function FromBits(b7: bool, b6: bool, b5: bool, b4: bool, b3: bool, b2: bool, b1: bool, b0: bool): Byte {
    Byte((if b7 then 128 else 0) | (if b6 then 64 else 0) | (if b5 then 32 else 0) | (if b4 then 16 else 0)
      | (if b3 then 8 else 0) | (if b2 then 4 else 0) | (if b1 then 2 else 0) | (if b0 then 1 else 0))
  }

  function Weigh(b7: bool, b6: bool, b5: bool, b4: bool, b3: bool, b2: bool, b1: bool, b0: bool): nat {
    (if b7 then 128 else 0) + (if b6 then 64 else 0) + (if b5 then 32 else 0) + (if b4 then 16 else 0)
      + (if b3 then 8 else 0) + (if b2 then 4 else 0) + (if b1 then 2 else 0) + (if b0 then 1 else 0)
  }

  /** Rust's `n as u8`, for values that fit. */
  function FromNat(n: nat): Byte
    requires n < 256
  {
    var (b7, b6, b5, b4, b3, b2, b1, b0) := Digits(n);
    FromBits(b7, b6, b5, b4, b3, b2, b1, b0)
  }

  function Digits(n: nat): (d: (bool, bool, bool, bool, bool, bool, bool, bool))
    requires n < 256
    ensures n == Weigh(d.0, d.1, d.2, d.3, d.4, d.5, d.6, d.7)
  {
    var b7 := n >= 128; var n6 := if b7 then n - 128 else n;
    var b6 := n6 >= 64; var n5 := if b6 then n6 - 64 else n6;
    var b5 := n5 >= 32; var n4 := if b5 then n5 - 32 else n5;
    var b4 := n4 >= 16; var n3 := if b4 then n4 - 16 else n4;
    var b3 := n3 >= 8; var n2 := if b3 then n3 - 8 else n3;
    var b2 := n2 >= 4; var n1 := if b2 then n2 - 4 else n2;
    var b1 := n1 >= 2; var n0 := if b1 then n1 - 2 else n1;
    (b7, b6, b5, b4, b3, b2, b1, n0 == 1)
  }

  /** Rust's `b as usize`. */
  function ToNat(b: Byte): nat {
    Weigh(b.bits & 128 != 0, b.bits & 64 != 0, b.bits & 32 != 0, b.bits & 16 != 0,
          b.bits & 8 != 0, b.bits & 4 != 0, b.bits & 2 != 0, b.bits & 1 != 0)
  }

  lemma ToNatOfBits(b7: bool, b6: bool, b5: bool, b4: bool, b3: bool, b2: bool, b1: bool, b0: bool)
    ensures ToNat(FromBits(b7, b6, b5, b4, b3, b2, b1, b0)) == Weigh(b7, b6, b5, b4, b3, b2, b1, b0)
  {
  }

  lemma ToNatFromNat(n: nat)
    requires n < 256
    ensures ToNat(FromNat(n)) == n
  {
    var d := Digits(n);
    ToNatOfBits(d.0, d.1, d.2, d.3, d.4, d.5, d.6, d.7);
  }

  /** The bits have the weights of the machine's byte. */
  lemma BitWeights()
    ensures ToNat(Byte(0x01)) == 1 && ToNat(Byte(0x02)) == 2 && ToNat(Byte(0x04)) == 4 && ToNat(Byte(0x08)) == 8
    ensures ToNat(Byte(0x10)) == 16 && ToNat(Byte(0x20)) == 32 && ToNat(Byte(0x40)) == 64 && ToNat(Byte(0x80)) == 128
    ensures ToNat(Byte(0x00)) == 0 && ToNat(Byte(0xFF)) == 255
  {
  }
}

/** Arithmetic of GF(2^8) modulo the AES polynomial 0x11B. */
module Gf256 {
  import opened Bytes
  import opened Fields

  const ZERO := Byte(0)
  const ONE := Byte(1)

  function Add(a: Byte, b: Byte): Byte {
    Byte(a.bits ^ b.bits)
  }

  /** Multiplication by x: shift left, and subtract the polynomial on carry-out. */
  function XTime(a: Byte): Byte {
    Byte(XTimeBits(a.bits))
  }

  function XTimeBits(a: bv8): bv8 {
    (a << 1) ^ (if a & 0x80 != 0 then 0x1B else 0)
  }

  function Half(b: Byte): Byte {
    Byte(b.bits >> 1)
  }

  /** `a` times the lowest bit of `b`. */
  function Pick(a: Byte, b: Byte): Byte {
    Byte(PickBits(a.bits, b.bits))
  }

  function PickBits(a: bv8, b: bv8): bv8 {
    if b & 1 != 0 then a else 0
  }

  /** The product of `a` and the polynomial made of the low `n` bits of `b`. */
  function MulSteps(a: Byte, b: Byte, n: nat): Byte
    decreases n
  {
    if n == 0 then ZERO else Add(Pick(a, b), MulSteps(XTime(a), Half(b), n - 1))
  }

  function Mul(a: Byte, b: Byte): Byte {
    MulSteps(a, b, 8)
  }

  function Inv(a: Byte): Byte {
    Mul(Ones(Mul, a, 6), Ones(Mul, a, 6))
  }

  // ----- the loops of the implementation

  /** The implementation's round, with masks in place of conditionals, run `n` times. */
  function MaskedRounds(a: Byte, b: Byte, p: Byte, n: nat): Byte
    decreases n
  {
    if n == 0 then p
    else MaskedRounds(Add(Double(a), And(Byte(0x1B), HighMask(a))), Half(b), Add(p, And(a, LowMask(b))), n - 1)
  }

  method GfMul(x: Byte, y: Byte) returns (p: Byte)
    ensures p == Mul(x, y)
  {
    var a, b := x, y;
    p := ZERO;
    for i := 0 to 8
      invariant MaskedRounds(x, y, ZERO, 8) == MaskedRounds(a, b, p, 8 - i)
    {
      var mask := LowMask(b);
      p := Add(p, And(a, mask));
      var reduceMask := HighMask(a);
      a := Add(Double(a), And(Byte(0x1B), reduceMask));
      b := Half(b);
    }
    MaskedRoundsMultiply(x, y, ZERO, 8);
    AddZero(Mul(x, y));
  }

  method GfInv(a: Byte) returns (r: Byte)
    ensures r == Inv(a)
  {
    r := a;
    for i := 0 to 6
      invariant r == Ones(Mul, a, i)
    {
      r := GfMul(r, r);
      r := GfMul(r, a);
    }
    r := GfMul(r, r);
  }

  function And(a: Byte, b: Byte): Byte {
    Byte(a.bits & b.bits)
  }

  function Double(a: Byte): Byte {
    Byte(a.bits << 1)
  }

  /** All ones when the low bit of `b` is set, else zero (a wrapping negation). */
  function LowMask(b: Byte): Byte {
    Byte(0 - (b.bits & 1))
  }

  /** All ones when the high bit of `a` is set, else zero. */
  function HighMask(a: Byte): Byte {
    Byte(0 - (a.bits >> 7))
  }

  /** The masks of one multiplication step select exactly what the conditionals select. */
  lemma Masks(a: Byte, b: Byte)
    ensures And(a, LowMask(b)) == Pick(a, b)
    ensures Add(Double(a), And(Byte(0x1B), HighMask(a))) == XTime(a)
  {
  }

  lemma {:induction false} MaskedRoundsMultiply(a: Byte, b: Byte, p: Byte, n: nat)
    ensures MaskedRounds(a, b, p, n) == Add(p, MulSteps(a, b, n))
    decreases n
  {
    if n == 0 {
      AddZero(p);
    } else {
      Masks(a, b);
      MaskedRoundsMultiply(XTime(a), Half(b), Add(p, Pick(a, b)), n - 1);
      AddAssoc(p, Pick(a, b), MulSteps(XTime(a), Half(b), n - 1));
    }
  }

  // ----- the additive group

  lemma AddAssoc(a: Byte, b: Byte, c: Byte)
    ensures Add(Add(a, b), c) == Add(a, Add(b, c))
  {
  }

  lemma AddSwap(a: Byte, b: Byte, c: Byte, d: Byte)
    ensures Add(Add(a, b), Add(c, d)) == Add(Add(a, c), Add(b, d))
  {
  }

  lemma AddComm(a: Byte, b: Byte)
    ensures Add(a, b) == Add(b, a)
  {
  }

  lemma AddZero(a: Byte)
    ensures Add(a, ZERO) == a && Add(ZERO, a) == a && Add(a, a) == ZERO
  {
  }

  lemma AddCancel(a: Byte, b: Byte)
    ensures Add(Add(a, b), b) == a && Add(a, Add(a, b)) == b
  {
  }

  // ----- the ring

  lemma XTimeAdd(a: Byte, b: Byte)
    ensures XTime(Add(a, b)) == Add(XTime(a), XTime(b))
  {
  }

  lemma HalfAdd(a: Byte, b: Byte)
    ensures Half(Add(a, b)) == Add(Half(a), Half(b))
  {
  }

  lemma PickAdd(a: Byte, c: Byte, b: Byte)
    ensures Pick(Add(a, c), b) == Add(Pick(a, b), Pick(c, b))
    ensures Pick(b, Add(a, c)) == Add(Pick(b, a), Pick(b, c))
  {
  }

  lemma {:induction false} MulStepsAddLeft(a: Byte, c: Byte, b: Byte, n: nat)
    ensures MulSteps(Add(a, c), b, n) == Add(MulSteps(a, b, n), MulSteps(c, b, n))
    decreases n
  {
    if n > 0 {
      XTimeAdd(a, c);
      PickAdd(a, c, b);
      MulStepsAddLeft(XTime(a), XTime(c), Half(b), n - 1);
      AddSwap(Pick(a, b), Pick(c, b), MulSteps(XTime(a), Half(b), n - 1), MulSteps(XTime(c), Half(b), n - 1));
    }
  }

  lemma {:induction false} MulStepsAddRight(a: Byte, b: Byte, c: Byte, n: nat)
    ensures MulSteps(a, Add(b, c), n) == Add(MulSteps(a, b, n), MulSteps(a, c, n))
    decreases n
  {
    if n > 0 {
      HalfAdd(b, c);
      PickAdd(b, c, a);
      MulStepsAddRight(XTime(a), Half(b), Half(c), n - 1);
      AddSwap(Pick(a, b), Pick(a, c), MulSteps(XTime(a), Half(b), n - 1), MulSteps(XTime(a), Half(c), n - 1));
    }
  }

  lemma {:induction false} MulStepsXTime(a: Byte, b: Byte, n: nat)
    ensures MulSteps(XTime(a), b, n) == XTime(MulSteps(a, b, n))
    decreases n
  {
    if n > 0 {
      MulStepsXTime(XTime(a), Half(b), n - 1);
      XTimeAdd(Pick(a, b), MulSteps(XTime(a), Half(b), n - 1));
    }
  }

  function Halves(b: Byte, k: nat): Byte
    decreases k
  {
    if k == 0 then b else Halves(Half(b), k - 1)
  }

  lemma SplitLowBit(b: Byte)
    ensures b == Add(Pick(ONE, b), XTime(Half(b)))
  {
  }

  lemma EightHalves(b: Byte)
    ensures Halves(b, 8) == ZERO
  {
    var b2 := Half(Half(b));
    var b4 := Half(Half(b2));
    var b6 := Half(Half(b4));
    assert Half(Half(b6)) == ZERO;
    assert Halves(b, 8) == Halves(b2, 6) == Halves(b4, 4) == Halves(b6, 2);
  }

  lemma MulStepsZero(b: Byte, n: nat)
    ensures MulSteps(ZERO, b, n) == ZERO
  {
    AddZero(ZERO);
    MulStepsAddLeft(ZERO, ZERO, b, n);
    AddZero(MulSteps(ZERO, b, n));
  }

  lemma {:induction false} MulStepsOne(b: Byte, n: nat)
    requires Halves(b, n) == ZERO
    ensures MulSteps(ONE, b, n) == b
    decreases n
  {
    if n > 0 {
      MulStepsOne(Half(b), n - 1);
      MulStepsXTime(ONE, Half(b), n - 1);
      SplitLowBit(b);
    }
  }

  lemma {:induction false} MulPick(a: Byte, b: Byte)
    ensures Mul(Pick(ONE, b), a) == Pick(a, b)
  {
    if b.bits & 1 != 0 {
      EightHalves(a);
      MulStepsOne(a, 8);
    } else {
      MulStepsZero(a, 8);
    }
  }

  /** When `b` has at most `n` bits, the low `n` steps by `b` already multiply `b` by `a`. */
  lemma {:induction false} MulStepsFlip(a: Byte, b: Byte, n: nat)
    requires Halves(b, n) == ZERO
    ensures MulSteps(a, b, n) == Mul(b, a)
    decreases n
  {
    if n == 0 {
      MulStepsZero(a, 8);
    } else {
      var h := Half(b);
      calc {
        Mul(b, a);
        { SplitLowBit(b); }
        Mul(Add(Pick(ONE, b), XTime(h)), a);
        { MulStepsAddLeft(Pick(ONE, b), XTime(h), a, 8); }
        Add(Mul(Pick(ONE, b), a), Mul(XTime(h), a));
        { MulPick(a, b); MulStepsXTime(h, a, 8); }
        Add(Pick(a, b), XTime(Mul(h, a)));
        { MulStepsFlip(a, h, n - 1); MulStepsXTime(a, h, n - 1); }
        Add(Pick(a, b), MulSteps(XTime(a), h, n - 1));
      }
    }
  }

  lemma MulComm(a: Byte, b: Byte)
    ensures Mul(a, b) == Mul(b, a)
  {
    EightHalves(b);
    MulStepsFlip(a, b, 8);
  }

  lemma MulDistribute(a: Byte, b: Byte, c: Byte)
    ensures Mul(Add(a, b), c) == Add(Mul(a, c), Mul(b, c))
    ensures Mul(c, Add(a, b)) == Add(Mul(c, a), Mul(c, b))
  {
    MulStepsAddLeft(a, b, c, 8);
    MulStepsAddRight(c, a, b, 8);
  }

  lemma MulXTime(a: Byte, b: Byte)
    ensures Mul(a, XTime(b)) == XTime(Mul(a, b))
  {
    MulComm(a, b);
    MulStepsXTime(b, a, 8);
    MulComm(a, XTime(b));
  }

  lemma MulPickRight(a: Byte, b: Byte, c: Byte)
    ensures Mul(a, Pick(b, c)) == Pick(Mul(a, b), c)
  {
    MulComm(a, ZERO);
    MulStepsZero(a, 8);
  }

  lemma {:induction false} MulStepsAssoc(a: Byte, b: Byte, c: Byte, n: nat)
    ensures MulSteps(Mul(a, b), c, n) == Mul(a, MulSteps(b, c, n))
    decreases n
  {
    if n == 0 {
      MulComm(a, ZERO);
      MulStepsZero(a, 8);
    } else {
      var rest := MulSteps(XTime(b), Half(c), n - 1);
      MulXTime(a, b);
      MulStepsAssoc(a, XTime(b), Half(c), n - 1);
      MulPickRight(a, b, c);
      MulDistribute(Pick(b, c), rest, a);
    }
  }

  lemma MulAssoc(a: Byte, b: Byte, c: Byte)
    ensures Mul(Mul(a, b), c) == Mul(a, Mul(b, c))
  {
    MulStepsAssoc(a, b, c, 8);
  }

  lemma MulIdentity(a: Byte)
    ensures Mul(ONE, a) == a && Mul(a, ONE) == a
    ensures Mul(ZERO, a) == ZERO && Mul(a, ZERO) == ZERO
  {
    EightHalves(a);
    MulStepsOne(a, 8);
    MulStepsZero(a, 8);
    MulComm(a, ONE);
    MulComm(a, ZERO);
  }

  // ----- squares of single elements

  /** `Mul` as one expression. */
  function Unrolled(a: Byte, b: Byte): Byte {
    var a1, b1 := XTime(a), Half(b);
    var a2, b2 := XTime(a1), Half(b1);
    var a3, b3 := XTime(a2), Half(b2);
    var a4, b4 := XTime(a3), Half(b3);
    var a5, b5 := XTime(a4), Half(b4);
    var a6, b6 := XTime(a5), Half(b5);
    var a7, b7 := XTime(a6), Half(b6);
    Add(Pick(a, b), Add(Pick(a1, b1), Add(Pick(a2, b2), Add(Pick(a3, b3),
      Add(Pick(a4, b4), Add(Pick(a5, b5), Add(Pick(a6, b6), Add(Pick(a7, b7), ZERO))))))))
  }

  lemma MulUnrolled(a: Byte, b: Byte)
    ensures Mul(a, b) == Unrolled(a, b)
  {
    var a1, b1 := XTime(a), Half(b);
    var a2, b2 := XTime(a1), Half(b1);
    var a3, b3 := XTime(a2), Half(b2);
    var a4, b4 := XTime(a3), Half(b3);
    var a5, b5 := XTime(a4), Half(b4);
    var a6, b6 := XTime(a5), Half(b5);
    var a7, b7 := XTime(a6), Half(b6);
    assert MulSteps(a7, b7, 1) == Add(Pick(a7, b7), ZERO);
    assert MulSteps(a6, b6, 2) == Add(Pick(a6, b6), MulSteps(a7, b7, 1));
    assert MulSteps(a5, b5, 3) == Add(Pick(a5, b5), MulSteps(a6, b6, 2));
    assert MulSteps(a4, b4, 4) == Add(Pick(a4, b4), MulSteps(a5, b5, 3));
    assert MulSteps(a3, b3, 5) == Add(Pick(a3, b3), MulSteps(a4, b4, 4));
    assert MulSteps(a2, b2, 6) == Add(Pick(a2, b2), MulSteps(a3, b3, 5));
    assert MulSteps(a1, b1, 7) == Add(Pick(a1, b1), MulSteps(a2, b2, 6));
  }

  lemma Square02()
    ensures Mul(Byte(0x02), Byte(0x02)) == Byte(0x04)
  {
    MulUnrolled(Byte(0x02), Byte(0x02));
  }

  lemma Square04()
    ensures Mul(Byte(0x04), Byte(0x04)) == Byte(0x10)
  {
    MulUnrolled(Byte(0x04), Byte(0x04));
  }

  lemma Square10()
    ensures Mul(Byte(0x10), Byte(0x10)) == Byte(0x1B)
  {
    MulUnrolled(Byte(0x10), Byte(0x10));
  }

  lemma Square1B()
    ensures Mul(Byte(0x1B), Byte(0x1B)) == Byte(0x5E)
  {
    MulUnrolled(Byte(0x1B), Byte(0x1B));
  }

  lemma Square5E()
    ensures Mul(Byte(0x5E), Byte(0x5E)) == Byte(0xE4)
  {
    MulUnrolled(Byte(0x5E), Byte(0x5E));
  }

  lemma SquareE4()
    ensures Mul(Byte(0xE4), Byte(0xE4)) == Byte(0x4D)
  {
    MulUnrolled(Byte(0xE4), Byte(0xE4));
  }

  lemma Square4D()
    ensures Mul(Byte(0x4D), Byte(0x4D)) == Byte(0xFA)
  {
    MulUnrolled(Byte(0x4D), Byte(0x4D));
  }

  lemma SquareFA()
    ensures Mul(Byte(0xFA), Byte(0xFA)) == Byte(0x02)
  {
    MulUnrolled(Byte(0xFA), Byte(0xFA));
  }

  lemma Square20()
    ensures Mul(Byte(0x20), Byte(0x20)) == Byte(0x6C)
  {
    MulUnrolled(Byte(0x20), Byte(0x20));
  }

  lemma Square40()
    ensures Mul(Byte(0x40), Byte(0x40)) == Byte(0xAB)
  {
    MulUnrolled(Byte(0x40), Byte(0x40));
  }

  lemma Square80()
    ensures Mul(Byte(0x80), Byte(0x80)) == Byte(0x9A)
  {
    MulUnrolled(Byte(0x80), Byte(0x80));
  }

  lemma Square01()
    ensures Mul(Byte(0x01), Byte(0x01)) == Byte(0x01)
  {
    MulUnrolled(Byte(0x01), Byte(0x01));
  }

  lemma Square08()
    ensures Mul(Byte(0x08), Byte(0x08)) == Byte(0x40)
  {
    MulUnrolled(Byte(0x08), Byte(0x08));
  }
}

/** GF(2^8) is a field: the exponent chain of the implementation computes inverses. */
module GfField {
  import opened Bytes
  import opened Fields
  import opened Gf256

  const GF := Field(ZERO, ONE, Add, Mul, Inv)

  lemma RingLaws(a: Byte, b: Byte, c: Byte)
    ensures Laws(GF, a, b, c)
  {
    AddComm(a, b);
    AddAssoc(a, b, c);
    AddZero(a);
    MulComm(a, b);
    MulAssoc(a, b, c);
    MulIdentity(a);
    MulDistribute(b, c, a);
  }

  lemma GFIsRing()
    ensures IsRing(GF)
  {
    forall a, b, c ensures Laws(GF, a, b, c) {
      RingLaws(a, b, c);
    }
  }

  // Every element is fixed by squaring it eight times: x is, by computation, and sums and
  // products of fixed elements are.
  lemma GeneratorFixed()
    ensures Squares(GF, Byte(2), 8) == Byte(2)
  {
    Square02();
    Square04();
    Square10();
    Square1B();
    Square5E();
    SquareE4();
    Square4D();
    SquareFA();
    EightSquares(GF, Byte(2), Byte(4), Byte(0x10), Byte(0x1B), Byte(0x5E), Byte(0xE4), Byte(0x4D), Byte(0xFA), Byte(2));
  }

  lemma XTimeIsMul(a: Byte)
    ensures XTime(a) == Mul(Byte(2), a)
  {
    MulIdentity(a);
    MulStepsXTime(ONE, a, 8);
    assert XTime(ONE) == Byte(2);
  }

  lemma SquaresOfConstant(a: Byte, k: nat)
    requires a == ZERO || a == ONE
    ensures Squares(GF, a, k) == a
  {
    if k > 0 {
      SquaresOfConstant(a, k - 1);
      MulIdentity(a);
    }
  }

  lemma {:induction false} AllFixed(a: Byte, n: nat)
    requires Halves(a, n) == ZERO
    ensures Squares(GF, a, 8) == a
    decreases n
  {
    if n == 0 {
      SquaresOfConstant(ZERO, 8);
    } else {
      var h := Half(a);
      AllFixed(h, n - 1);
      GeneratorFixed();
      XTimeIsMul(h);
      GFIsRing();
      SquaresMul(GF, Byte(2), h, 8);
      SplitLowBit(a);
      SquaresAdd(GF, Pick(ONE, a), XTime(h), 8);
      SquaresOfConstant(Pick(ONE, a), 8);
    }
  }

  // Squaring acts linearly on the bits, and the bits leave only two idempotents.
  lemma SquareBit(e: Byte, low: bv8, mask: bv8, image: bv8, acc: bv8)
    requires Mul(Byte(mask), Byte(mask)) == Byte(image)
    requires mask & low == 0 && (e.bits & mask == 0 || e.bits & mask == mask)
    requires Mul(Byte(e.bits & low), Byte(e.bits & low)) == Byte(acc)
    ensures Mul(Byte(e.bits & (low | mask)), Byte(e.bits & (low | mask)))
         == Byte(acc ^ (if e.bits & mask != 0 then image else 0))
  {
    var p, q := Byte(e.bits & mask), Byte(e.bits & low);
    assert Byte(e.bits & (low | mask)) == Add(p, q);
    GFIsRing();
    SquareAdd(GF, p, q);
    MulIdentity(ZERO);
  }

  /** The square of `e`, bit by bit. */
  function SquareBits(e: bv8): bv8 {
    (if e & 1 != 0 then 1 else 0) ^ (if e & 2 != 0 then 4 else 0)
      ^ (if e & 4 != 0 then 0x10 else 0) ^ (if e & 8 != 0 then 0x40 else 0)
      ^ (if e & 0x10 != 0 then 0x1B else 0) ^ (if e & 0x20 != 0 then 0x6C else 0)
      ^ (if e & 0x40 != 0 then 0xAB else 0) ^ (if e & 0x80 != 0 then 0x9A else 0)
  }

  lemma SquareIsLinear(e: Byte)
    ensures Mul(e, e) == Byte(SquareBits(e.bits))
  {
    MulIdentity(ZERO);
    Square01();
    Square02();
    Square04();
    Square08();
    var b := e.bits;
    var s0: bv8 := if b & 1 != 0 then 1 else 0;
    SquareBit(e, 0, 1, 1, 0);
    var s1 := s0 ^ (if b & 2 != 0 then 4 else 0);
    SquareBit(e, 1, 2, 4, s0);
    var s2 := s1 ^ (if b & 4 != 0 then 0x10 else 0);
    SquareBit(e, 3, 4, 0x10, s1);
    var s3 := s2 ^ (if b & 8 != 0 then 0x40 else 0);
    SquareBit(e, 7, 8, 0x40, s2);
    Square10();
    Square20();
    Square40();
    Square80();
    var s4 := s3 ^ (if b & 0x10 != 0 then 0x1B else 0);
    SquareBit(e, 15, 16, 0x1B, s3);
    var s5 := s4 ^ (if b & 0x20 != 0 then 0x6C else 0);
    SquareBit(e, 31, 32, 0x6C, s4);
    var s6 := s5 ^ (if b & 0x40 != 0 then 0xAB else 0);
    SquareBit(e, 63, 64, 0xAB, s5);
    SquareBit(e, 127, 128, 0x9A, s6);
  }

  lemma FixedBits(e: bv8)
    requires SquareBits(e) == e
    ensures e == 0 || e == 1
  {
  }

  lemma GFIdempotents()
    ensures OnlyTrivialIdempotents(GF)
  {
    forall e: Byte | GF.mul(e, e) == e
      ensures e == ZERO || e == ONE
    {
      SquareIsLinear(e);
      FixedBits(e.bits);
    }
  }

  lemma GFIsField()
    ensures IsField(GF)
  {
    GFIsRing();
    GFIdempotents();
    forall a: Byte | a != GF.zero
      ensures Invertible(GF, a)
    {
      EightHalves(a);
      AllFixed(a, 8);
      InverseByPowers(GF, a);
    }
  }

  /** The exponent chain gives the one inverse of a nonzero byte, and zero for zero. */
  lemma InverseIsExact(a: Byte, r: Byte)
    ensures GF.inv(a) == r <==> if a == GF.zero then r == GF.zero else GF.mul(a, r) == GF.one
  {
    GFIsField();
    if a == GF.zero {
      OnesOfZero(GF, 6);
      MulZero(GF, GF.zero);
    } else {
      InverseUnique(GF, a, r);
    }
  }

  // The methods above this field work with an abstract `f` that the byte operations implement,
  // so that no loop invariant depends on how a product is computed.

  ghost predicate Agrees(f: Field<Byte>, a: Byte, b: Byte) {
    f.add(a, b) == Add(a, b) && f.mul(a, b) == Mul(a, b) && f.inv(a) == Inv(a)
  }

  ghost predicate Implements(f: Field<Byte>) {
    f.zero == ZERO && f.one == ONE && forall a, b :: Agrees(f, a, b)
  }

  lemma GFImplements()
    ensures Implements(GF)
  {
  }

  method FieldAdd(ghost f: Field<Byte>, a: Byte, b: Byte) returns (r: Byte)
    requires Implements(f)
    ensures r == f.add(a, b)
  {
    assert Agrees(f, a, b);
    r := Add(a, b);
  }

  method FieldMul(ghost f: Field<Byte>, a: Byte, b: Byte) returns (r: Byte)
    requires Implements(f)
    ensures r == f.mul(a, b)
  {
    assert Agrees(f, a, b);
    r := GfMul(a, b);
  }

  method FieldInv(ghost f: Field<Byte>, a: Byte) returns (r: Byte)
    requires Implements(f)
    ensures r == f.inv(a)
  {
    assert Agrees(f, a, a);
    r := GfInv(a);
  }
}
