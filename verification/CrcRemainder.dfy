/** The checksum is the remainder of section 12.1 of RFC 3720: the message polynomial, with its first 32 coefficients
    inverted and 32 zeros behind, divided by the generator, bit-reflected and inverted. */
module CrcRemainder {
  import opened Gf2
  import B = Bytes
  import C = Crc32c

  const GENERATOR: Poly := {32, 28, 27, 26, 25, 23, 22, 20, 19, 18, 14, 13, 11, 10, 9, 8, 6, 0}

  /** The bits of a byte in the order they are sent, lowest first. */
  function ByteBits(b: bv8): seq<bool> {
    [B.Has(b, 0x01), B.Has(b, 0x02), B.Has(b, 0x04), B.Has(b, 0x08),
     B.Has(b, 0x10), B.Has(b, 0x20), B.Has(b, 0x40), B.Has(b, 0x80)]
  }

  function MessageBits(bytes: seq<bv8>): seq<bool> {
    if bytes == [] then [] else MessageBits(bytes[..|bytes| - 1]) + ByteBits(bytes[|bytes| - 1])
  }

  /** The coefficients that are divided: 32 zeros follow the message, and the first 32 are inverted. */
  function Divided(message: seq<bool>): seq<bool> {
    seq(|message| + 32, i requires 0 <= i < |message| + 32 => (i < |message| && message[i]) != (i < 32))
  }

  /** Bit `j` of a register, the lowest being 0. */
  predicate BitAt(x: bv32, j: nat) { C.Odd(Down(x, j)) }

  function Down(x: bv32, j: nat): bv32 {
    if j == 0 then x else C.Half(Down(x, j - 1))
  }

  predicate Coefficient(x: bv32, e: nat) { e < 32 && BitAt(x, 31 - e) }

  /** A register as a polynomial: its lowest bit is the highest coefficient. */
  function Reflected(x: bv32): Poly {
    set e: nat | e < 32 && Coefficient(x, e)
  }

  /** The remainder a checksum stands for. */
  function Inverted(crc: bv32): Poly {
    set e: nat | e < 32 && !Coefficient(crc, e)
  }

  // ---------------------------------------------------------------------
  // Bits of registers
  // ---------------------------------------------------------------------

  lemma {:induction false} DownXor(x: bv32, y: bv32, j: nat)
    ensures Down(C.Xor(x, y), j) == C.Xor(Down(x, j), Down(y, j))
  {
    hide C.Xor, C.Half;
    if j > 0 {
      DownXor(x, y, j - 1);
      C.XorHalf(Down(x, j - 1), Down(y, j - 1));
    }
  }

  lemma XorBit(x: bv32, y: bv32, j: nat)
    ensures BitAt(C.Xor(x, y), j) <==> BitAt(x, j) != BitAt(y, j)
  {
    DownXor(x, y, j);
    C.XorOdd(Down(x, j), Down(y, j));
    hide C.Xor, C.Odd, Down;
  }

  lemma {:induction false} DownTwice(x: bv32, i: nat, j: nat)
    ensures Down(Down(x, i), j) == Down(x, i + j)
  {
    hide C.Half;
    if j > 0 { DownTwice(x, i, j - 1); }
  }

  lemma HalfBit(x: bv32, j: nat)
    ensures BitAt(C.Half(x), j) <==> BitAt(x, j + 1)
  {
    hide C.Half, C.Odd;
    assert Down(x, 1) == C.Half(Down(x, 0));
    DownTwice(x, 1, j);
  }

  lemma Halves(x: bv32)
    ensures C.Half(x) == x >> 1 && C.Half(x >> 1) == x >> 2 && C.Half(x >> 2) == x >> 3 && C.Half(x >> 3) == x >> 4
    ensures C.Half(x >> 4) == x >> 5 && C.Half(x >> 5) == x >> 6 && C.Half(x >> 6) == x >> 7 && C.Half(x >> 7) == C.Shift8(x)
  {
  }

  lemma OddHalves(x: bv32)
    ensures C.Odd(x) == (x & 0x01 != 0) && C.Odd(x >> 1) == (x & 0x02 != 0)
    ensures C.Odd(x >> 2) == (x & 0x04 != 0) && C.Odd(x >> 3) == (x & 0x08 != 0)
    ensures C.Odd(x >> 4) == (x & 0x10 != 0) && C.Odd(x >> 5) == (x & 0x20 != 0)
    ensures C.Odd(x >> 6) == (x & 0x40 != 0) && C.Odd(x >> 7) == (x & 0x80 != 0)
  {
  }

  lemma DownEight(x: bv32)
    ensures Down(x, 0) == x && Down(x, 1) == x >> 1 && Down(x, 2) == x >> 2 && Down(x, 3) == x >> 3
    ensures Down(x, 4) == x >> 4 && Down(x, 5) == x >> 5 && Down(x, 6) == x >> 6 && Down(x, 7) == x >> 7
    ensures Down(x, 8) == C.Shift8(x)
  {
    Halves(x);
    hide C.Half, C.Shift8;
    assert Down(x, 1) == x >> 1;
    assert Down(x, 2) == x >> 2;
    assert Down(x, 3) == x >> 3;
    assert Down(x, 4) == x >> 4;
    assert Down(x, 5) == x >> 5;
    assert Down(x, 6) == x >> 6;
    assert Down(x, 7) == x >> 7;
  }

  lemma LowBits(x: bv32)
    ensures BitAt(x, 0) == (x & 0x01 != 0) && BitAt(x, 1) == (x & 0x02 != 0)
    ensures BitAt(x, 2) == (x & 0x04 != 0) && BitAt(x, 3) == (x & 0x08 != 0)
    ensures BitAt(x, 4) == (x & 0x10 != 0) && BitAt(x, 5) == (x & 0x20 != 0)
    ensures BitAt(x, 6) == (x & 0x40 != 0) && BitAt(x, 7) == (x & 0x80 != 0)
    ensures Down(x, 8) == C.Shift8(x)
  {
    hide Down, C.Odd, C.Shift8;
    DownEight(x);
    OddHalves(x);
  }

  lemma DownAll(x: bv32)
    ensures Down(x, 32) == 0
  {
    LowBits(x);
    LowBits(C.Shift8(x));
    LowBits(C.Shift8(C.Shift8(x)));
    LowBits(C.Shift8(C.Shift8(C.Shift8(x))));
    DownTwice(x, 8, 8);
    DownTwice(x, 16, 8);
    DownTwice(x, 24, 8);
    hide Down, BitAt;
  }

  lemma HalfOdd(x: bv32, y: bv32)
    requires C.Half(x) == C.Half(y) && C.Odd(x) == C.Odd(y)
    ensures x == y
  {
  }

  /** A register is its bits. */
  lemma {:induction false} BitsDecide(x: bv32, y: bv32, j: nat)
    requires j <= 32 && forall i :: j <= i < 32 ==> BitAt(x, i) == BitAt(y, i)
    ensures Down(x, j) == Down(y, j)
    decreases 32 - j
  {
    if j == 32 {
      DownAll(x);
      DownAll(y);
    } else {
      BitsDecide(x, y, j + 1);
      assert BitAt(x, j) == BitAt(y, j);
      HalfOdd(Down(x, j), Down(y, j));
    }
  }

  // ---------------------------------------------------------------------
  // One message bit
  // ---------------------------------------------------------------------

  function Lowest(bit: bool): bv32 { if bit then 1 else 0 }

  /** The register after one message bit. */
  function BitFed(x: bv32, bit: bool): bv32 {
    C.BitStep(C.Xor(x, Lowest(bit)))
  }

  function Fed(x: bv32, message: seq<bool>): bv32 {
    if message == [] then x else BitFed(Fed(x, message[..|message| - 1]), message[|message| - 1])
  }

  lemma PolynomialBits()
    ensures forall j: nat :: j < 32 ==> (BitAt(C.POLYNOMIAL, j) <==> 31 - j in GENERATOR)
  {
    var p := C.POLYNOMIAL;
    LowBits(p);
    assert C.Shift8(p) == 0x82f63b;
    LowBits(0x82f63b);
    LowBits(0x82f6);
    LowBits(0x82);
    forall i: nat | i < 8
      ensures BitAt(p, 8 + i) == BitAt(0x82f63b, i) && BitAt(p, 16 + i) == BitAt(0x82f6, i)
      ensures BitAt(p, 24 + i) == BitAt(0x82, i)
    {
      DownTwice(p, 8, 8);
      DownTwice(p, 16, 8);
      DownTwice(p, 8, i);
      DownTwice(p, 16, i);
      DownTwice(p, 24, i);
    }
    hide BitAt, Down;
    forall j: nat | j < 32 ensures BitAt(C.POLYNOMIAL, j) <==> 31 - j in GENERATOR {
      if j >= 24 { assert BitAt(p, 24 + (j - 24)) == BitAt(0x82, j - 24); }
      else if j >= 16 { assert BitAt(p, 16 + (j - 16)) == BitAt(0x82f6, j - 16); }
      else if j >= 8 { assert BitAt(p, 8 + (j - 8)) == BitAt(0x82f63b, j - 8); }
    }
  }

  lemma StepTerm(x: bv32, e: nat)
    requires e < 32
    ensures Coefficient(C.BitStep(x), e) <==> (e > 0 && Coefficient(x, e - 1)) != (C.Odd(x) && e in GENERATOR)
  {
    PolynomialBits();
    assert !BitAt(x, 32) by { DownAll(x); }
    HalfBit(x, 31 - e);
    XorBit(C.Half(x), C.POLYNOMIAL, 31 - e);
    hide C.Half, C.Odd, C.Xor, Down, BitAt;
  }

  /** A bit step multiplies by the variable and takes the generator off when that reaches its degree. */
  lemma StepReflected(x: bv32)
    ensures Reflected(C.BitStep(x)) == Add(Shift(Reflected(x), 1), Times(C.Odd(x), GENERATOR))
  {
    assert Coefficient(x, 31) == C.Odd(x);
    hide C.Odd, Coefficient, Shift, C.BitStep;
    forall e: nat ensures e in Reflected(C.BitStep(x)) <==> e in Add(Shift(Reflected(x), 1), Times(C.Odd(x), GENERATOR)) {
      ShiftIn(Reflected(x), 1, e);
      if e < 32 { StepTerm(x, e); }
    }
  }

  lemma {:induction false} DownLowest(bit: bool, j: nat)
    ensures Down(Lowest(bit), j) == if j == 0 then Lowest(bit) else 0
  {
    if j > 0 { DownLowest(bit, j - 1); }
  }

  lemma LowestReflected(x: bv32, bit: bool)
    ensures Reflected(C.Xor(x, Lowest(bit))) == Add(Reflected(x), if bit then {31} else {})
    ensures C.Odd(C.Xor(x, Lowest(bit))) == (C.Odd(x) != bit)
  {
    C.XorOdd(x, Lowest(bit));
    forall e: nat ensures e in Reflected(C.Xor(x, Lowest(bit))) <==> e in Add(Reflected(x), if bit then {31} else {}) {
      if e < 32 {
        XorBit(x, Lowest(bit), 31 - e);
        DownLowest(bit, 31 - e);
      }
      hide C.Xor, Down;
    }
  }

  lemma DividedNext(message: seq<bool>, bit: bool)
    ensures FromBits(Divided(message + [bit])) == Add(Shift(FromBits(Divided(message)), 1), if bit then {32} else {})
  {
    var before, after := Divided(message), Divided(message + [bit]);
    forall e: nat
      ensures e in FromBits(after) <==> e in Add(Shift(FromBits(before), 1), if bit then {32} else {})
    {
      ShiftIn(FromBits(before), 1, e);
      if e < |after| {
        assert e > 0 ==> |before| - 1 - (e - 1) == |after| - 1 - e;
      }
    }
  }

  lemma OneUp(bit: bool)
    ensures Shift(if bit then {31} else {}, 1) == if bit then {32} else {}
  {
  }

  /** With the registers as remainders so far, one more bit gives one more coefficient of the quotient. */
  lemma BitDivides(message: seq<bool>, bit: bool, x: bv32, q: seq<bool>)
    requires Add(FromBits(Divided(message)), Reflected(x)) == Product(q, GENERATOR)
    ensures Add(FromBits(Divided(message + [bit])), Reflected(BitFed(x, bit)))
            == Product(q + [C.Odd(x) != bit], GENERATOR)
  {
    assert BitFed(x, bit) == C.BitStep(C.Xor(x, Lowest(bit)));
    hide *;
    var d, r := FromBits(Divided(message)), Reflected(x);
    var c := C.Odd(x) != bit;
    DividedNext(message, bit);
    LowestReflected(x, bit);
    StepReflected(C.Xor(x, Lowest(bit)));
    ProductNext(q, c, GENERATOR);
    ShiftAdd(d, r, 1);
    ShiftAdd(r, if bit then {31} else {}, 1);
    OneUp(bit);
    Cancel(Shift(d, 1), Shift(r, 1), if bit then {32} else {}, Times(c, GENERATOR));
  }

  lemma OnesReflected()
    ensures FromBits(Divided([])) == Reflected(C.ALL_ONES)
  {
    var ones := C.ALL_ONES;
    forall e: nat ensures e in FromBits(Divided([])) <==> e in Reflected(ones) {
      if e < 32 { OnesBit(31 - e); }
    }
  }

  lemma OnesBit(j: nat)
    requires j < 32
    ensures BitAt(C.ALL_ONES, j)
  {
    LowBits(C.ALL_ONES);
    LowBits(0xffffff);
    LowBits(0xffff);
    LowBits(0xff);
    assert C.Shift8(C.ALL_ONES) == 0xffffff;
    DownTwice(C.ALL_ONES, 8, 8);
    DownTwice(C.ALL_ONES, 16, 8);
    if j >= 8 { DownTwice(C.ALL_ONES, 8, j - 8); }
    if j >= 16 { DownTwice(C.ALL_ONES, 16, j - 16); }
    if j >= 24 { DownTwice(C.ALL_ONES, 24, j - 24); }
    hide Down;
  }

  lemma {:induction false} FedDivides(message: seq<bool>) returns (q: seq<bool>)
    ensures Add(FromBits(Divided(message)), Reflected(Fed(C.ALL_ONES, message))) == Product(q, GENERATOR)
  {
    hide BitFed, FromBits, Divided, Reflected;
    if message == [] {
      q := [];
      OnesReflected();
    } else {
      var n := |message| - 1;
      q := FedDivides(message[..n]);
      BitDivides(message[..n], message[n], Fed(C.ALL_ONES, message[..n]), q);
      q := q + [C.Odd(Fed(C.ALL_ONES, message[..n])) != message[n]];
      assert message == message[..n] + [message[n]];
    }
  }

  // ---------------------------------------------------------------------
  // Bytes
  // ---------------------------------------------------------------------

  /** Feeding a number bit by bit: the bits not yet fed wait, shifted, in the register. */
  lemma BitWaits(x: bv32, w: bv32)
    ensures C.BitStep(C.Xor(x, w)) == C.Xor(BitFed(x, C.Odd(w)), C.Half(w))
  {
    var low := Lowest(C.Odd(w));
    var rest := C.Xor(w, low);
    RestEven(w);
    C.XorAssociates(x, low, rest);
    C.BitStepLinear(C.Xor(x, low), rest);
  }

  lemma RestEven(w: bv32)
    ensures var low := Lowest(C.Odd(w));
            var rest := C.Xor(w, low);
            C.Xor(low, rest) == w && C.BitStep(rest) == C.Half(w)
  {
  }

  lemma FedLast(x: bv32, message: seq<bool>, bit: bool)
    ensures Fed(x, message + [bit]) == BitFed(Fed(x, message), bit)
  {
    assert (message + [bit])[..|message|] == message;
  }

  lemma {:induction false} FedAppend(x: bv32, a: seq<bool>, b: seq<bool>)
    ensures Fed(x, a + b) == Fed(Fed(x, a), b)
  {
    hide BitFed;
    if b == [] {
      assert a + b == a;
    } else {
      var n := |b| - 1;
      FedAppend(x, a, b[..n]);
      assert (a + b)[..|a + b| - 1] == a + b[..n];
    }
  }

  function LowBitsOf(w: bv32, k: nat): seq<bool> {
    if k == 0 then [] else LowBitsOf(w, k - 1) + [BitAt(w, k - 1)]
  }

  lemma {:induction false} BitsWait(x: bv32, w: bv32, k: nat)
    ensures C.Bits(C.Xor(x, w), k) == C.Xor(Fed(x, LowBitsOf(w, k)), Down(w, k))
  {
    assert Fed(x, LowBitsOf(w, 0)) == x && Down(w, 0) == w && C.Bits(C.Xor(x, w), 0) == C.Xor(x, w);
    hide *;
    if k > 0 {
      BitsWait(x, w, k - 1);
      NextWaits(x, w, k - 1);
    }
  }

  lemma NextWaits(x: bv32, w: bv32, k: nat)
    requires C.Bits(C.Xor(x, w), k) == C.Xor(Fed(x, LowBitsOf(w, k)), Down(w, k))
    ensures C.Bits(C.Xor(x, w), k + 1) == C.Xor(Fed(x, LowBitsOf(w, k + 1)), Down(w, k + 1))
  {
    hide *;
    C.BitsCompose(C.Xor(x, w), k, 1);
    OneBit(C.Bits(C.Xor(x, w), k));
    FedLast(x, LowBitsOf(w, k), BitAt(w, k));
    BitWaits(Fed(x, LowBitsOf(w, k)), Down(w, k));
    LowBitsNext(w, k);
  }

  lemma LowBitsNext(w: bv32, k: nat)
    ensures LowBitsOf(w, k + 1) == LowBitsOf(w, k) + [BitAt(w, k)]
    ensures BitAt(w, k) == C.Odd(Down(w, k)) && Down(w, k + 1) == C.Half(Down(w, k))
  {
    hide C.Odd, C.Half;
  }

  lemma OneBit(x: bv32)
    ensures C.Bits(x, 1) == C.BitStep(x)
  {
    hide C.BitStep;
    assert C.Bits(C.BitStep(x), 0) == C.BitStep(x);
  }

  lemma WideBits(b: bv8)
    ensures C.Shift8(C.Wide(b)) == 0
    ensures B.Has(b, 0x01) == (C.Wide(b) & 0x01 != 0) && B.Has(b, 0x02) == (C.Wide(b) & 0x02 != 0)
    ensures B.Has(b, 0x04) == (C.Wide(b) & 0x04 != 0) && B.Has(b, 0x08) == (C.Wide(b) & 0x08 != 0)
    ensures B.Has(b, 0x10) == (C.Wide(b) & 0x10 != 0) && B.Has(b, 0x20) == (C.Wide(b) & 0x20 != 0)
    ensures B.Has(b, 0x40) == (C.Wide(b) & 0x40 != 0) && B.Has(b, 0x80) == (C.Wide(b) & 0x80 != 0)
  {
  }

  lemma {:induction false} LowBitAt(w: bv32, k: nat, i: nat)
    requires i < k
    ensures |LowBitsOf(w, k)| == k && LowBitsOf(w, k)[i] == BitAt(w, i)
  {
    hide BitAt;
    if k > 1 { LowBitAt(w, k - 1, if i < k - 1 then i else 0); }
  }

  lemma ByteBit(b: bv8, i: nat)
    requires i < 8
    ensures BitAt(C.Wide(b), i) == ByteBits(b)[i]
  {
    LowBits(C.Wide(b));
    WideBits(b);
    hide B.Has, BitAt, C.Wide;
  }

  lemma ByteEnds(b: bv8)
    ensures Down(C.Wide(b), 8) == 0
  {
    LowBits(C.Wide(b));
    hide Down;
  }

  lemma ByteLowBits(b: bv8)
    ensures LowBitsOf(C.Wide(b), 8) == ByteBits(b)
  {
    hide LowBitsOf, BitAt, B.Has, C.Wide;
    var low := LowBitsOf(C.Wide(b), 8);
    LowBitAt(C.Wide(b), 8, 0);
    forall i | 0 <= i < 8 ensures low[i] == ByteBits(b)[i] {
      LowBitAt(C.Wide(b), 8, i);
      ByteBit(b, i);
    }
  }

  lemma XorNone(x: bv32)
    ensures C.Xor(x, 0) == x
  {
  }

  lemma ByteIsFed(x: bv32, b: bv8)
    ensures C.ByteStep(x, b) == Fed(x, ByteBits(b))
  {
    hide C.Xor, C.Bits, C.Wide, Fed;
    BitsWait(x, C.Wide(b), 8);
    ByteLowBits(b);
    ByteEnds(b);
    XorNone(Fed(x, ByteBits(b)));
  }

  lemma {:induction false} FoldIsFed(x: bv32, bytes: seq<bv8>)
    ensures C.Fold(x, bytes) == Fed(x, MessageBits(bytes))
  {
    hide C.ByteStep, ByteBits, BitFed;
    if bytes != [] {
      var n := |bytes| - 1;
      FoldIsFed(x, bytes[..n]);
      ByteIsFed(Fed(x, MessageBits(bytes[..n])), bytes[n]);
      FedAppend(x, MessageBits(bytes[..n]), ByteBits(bytes[n]));
    }
  }

  // ---------------------------------------------------------------------
  // The checksum
  // ---------------------------------------------------------------------

  lemma OnesInvert(x: bv32)
    ensures Inverted(C.Xor(x, C.ALL_ONES)) == Reflected(x)
  {
    forall e: nat ensures e in Inverted(C.Xor(x, C.ALL_ONES)) <==> e in Reflected(x) {
      if e < 32 {
        XorBit(x, C.ALL_ONES, 31 - e);
        OnesBit(31 - e);
      }
      hide C.Xor, BitAt;
    }
  }

  lemma InvertedDecides(x: bv32, y: bv32)
    requires Inverted(x) == Inverted(y)
    ensures x == y
  {
    forall i: nat | i < 32 ensures BitAt(x, i) == BitAt(y, i) {
      assert (31 - i in Inverted(x)) == (31 - i in Inverted(y));
      assert 31 - (31 - i) == i;
    }
    BitsDecide(x, y, 0);
  }

  /** The checksum of a message is the one number whose bits, inverted and reflected, are the remainder. */
  lemma CrcIsRemainder(bytes: seq<bv8>, crc: bv32)
    ensures crc == C.CrcOf(bytes) <==> Remainder(Inverted(crc), FromBits(Divided(MessageBits(bytes))), GENERATOR, 32)
  {
    assert C.CrcOf(bytes) == C.Xor(C.Fold(C.ALL_ONES, bytes), C.ALL_ONES);
    hide *;
    var p := FromBits(Divided(MessageBits(bytes)));
    var register := C.Fold(C.ALL_ONES, bytes);
    RegisterRemains(bytes);
    OnesInvert(register);
    if Remainder(Inverted(crc), p, GENERATOR, 32) {
      GeneratorDegree();
      RemainderUnique(Inverted(crc), Reflected(register), p, GENERATOR, 32);
      InvertedDecides(crc, C.CrcOf(bytes));
    }
  }

  lemma GeneratorDegree()
    ensures 32 in GENERATOR && Below(GENERATOR, 33)
  {
  }

  lemma RegisterRemains(bytes: seq<bv8>)
    ensures Remainder(Reflected(C.Fold(C.ALL_ONES, bytes)), FromBits(Divided(MessageBits(bytes))), GENERATOR, 32)
  {
    hide *;
    var q := FedDivides(MessageBits(bytes));
    FoldIsFed(C.ALL_ONES, bytes);
    ReflectedBelow(C.Fold(C.ALL_ONES, bytes));
    QuotientRemains(Reflected(C.Fold(C.ALL_ONES, bytes)), FromBits(Divided(MessageBits(bytes))), GENERATOR, 32, q);
  }

  lemma ReflectedBelow(x: bv32)
    ensures Below(Reflected(x), 32)
  {
  }

  // ---------------------------------------------------------------------
  // Published values
  // ---------------------------------------------------------------------

  /** Each register follows from the one before by one byte. */
  ghost predicate Follow(registers: seq<bv32>, bytes: seq<bv8>) {
    && |registers| == |bytes| + 1
    && forall i :: 0 <= i < |bytes| ==> C.ByteStep(registers[i], bytes[i]) == registers[i + 1]
  }

  lemma {:induction false} Following(registers: seq<bv32>, bytes: seq<bv8>)
    requires Follow(registers, bytes)
    ensures C.Fold(registers[0], bytes) == registers[|bytes|]
  {
    hide C.ByteStep;
    if bytes != [] { Following(registers[..|bytes|], bytes[..|bytes| - 1]); }
  }

  const NINE_DIGITS: seq<bv8> := [0x31, 0x32, 0x33, 0x34, 0x35, 0x36, 0x37, 0x38, 0x39]

  /** The check value of the nine digits. */
  lemma NineDigits()
    ensures C.CrcOf(NINE_DIGITS) == 0xe3069283
  {
    assert C.ByteStep(0xffffffff, 0x31) == 0x6f0a661c;
    assert C.ByteStep(0x6f0a661c, 0x32) == 0x8caa3b9f;
    assert C.ByteStep(0x8caa3b9f, 0x33) == 0xef84d04d;
    assert C.ByteStep(0xef84d04d, 0x34) == 0x09c50b11;
    assert C.ByteStep(0x09c50b11, 0x35) == 0xe72edcca;
    assert C.ByteStep(0xe72edcca, 0x36) == 0xbeca8e79;
    assert C.ByteStep(0xbeca8e79, 0x37) == 0xedbd6815;
    assert C.ByteStep(0xedbd6815, 0x38) == 0x9f787f65;
    assert C.ByteStep(0x9f787f65, 0x39) == 0x1cf96d7c;
    hide C.ByteStep, C.Fold;
    Following([0xffffffff, 0x6f0a661c, 0x8caa3b9f, 0xef84d04d, 0x09c50b11,
               0xe72edcca, 0xbeca8e79, 0xedbd6815, 0x9f787f65, 0x1cf96d7c], NINE_DIGITS);
  }

  const EIGHT_ZEROS: seq<bv8> := [0, 0, 0, 0, 0, 0, 0, 0]

  lemma FirstZeros()
    ensures C.Fold(0xffffffff, EIGHT_ZEROS) == 0x73d74d75
  {
    assert C.ByteStep(0xffffffff, 0) == 0xad82acae;
    assert C.ByteStep(0xad82acae, 0) == 0x0e9e882d;
    assert C.ByteStep(0x0e9e882d, 0) == 0x9f9b5c85;
    assert C.ByteStep(0x9f9b5c85, 0) == 0xb798b438;
    assert C.ByteStep(0xb798b438, 0) == 0xba8d89ca;
    assert C.ByteStep(0xba8d89ca, 0) == 0xa8d58375;
    assert C.ByteStep(0xa8d58375, 0) == 0x44c19592;
    assert C.ByteStep(0x44c19592, 0) == 0x73d74d75;
    hide C.ByteStep, C.Fold;
    Following([0xffffffff, 0xad82acae, 0x0e9e882d, 0x9f9b5c85, 0xb798b438,
               0xba8d89ca, 0xa8d58375, 0x44c19592, 0x73d74d75], EIGHT_ZEROS);
  }

  lemma SecondZeros()
    ensures C.Fold(0x73d74d75, EIGHT_ZEROS) == 0xbd8f6515
  {
    assert C.ByteStep(0x73d74d75, 0) == 0x441a975c;
    assert C.ByteStep(0x441a975c, 0) == 0x1c220f94;
    assert C.ByteStep(0x1c220f94, 0) == 0x552e4907;
    assert C.ByteStep(0x552e4907, 0) == 0xd49f4aa2;
    assert C.ByteStep(0xd49f4aa2, 0) == 0x43a45a1b;
    assert C.ByteStep(0x43a45a1b, 0) == 0x8994c80e;
    assert C.ByteStep(0x8994c80e, 0) == 0xacf12bef;
    assert C.ByteStep(0xacf12bef, 0) == 0xbd8f6515;
    hide C.ByteStep, C.Fold;
    Following([0x73d74d75, 0x441a975c, 0x1c220f94, 0x552e4907, 0xd49f4aa2,
               0x43a45a1b, 0x8994c80e, 0xacf12bef, 0xbd8f6515], EIGHT_ZEROS);
  }

  lemma ThirdZeros()
    ensures C.Fold(0xbd8f6515, EIGHT_ZEROS) == 0x7b041311
  {
    assert C.ByteStep(0xbd8f6515, 0) == 0x25125c16;
    assert C.ByteStep(0x25125c16, 0) == 0x36da32db;
    assert C.ByteStep(0x36da32db, 0) == 0x4a6c90a2;
    assert C.ByteStep(0x4a6c90a2, 0) == 0x433aa9c1;
    assert C.ByteStep(0x433aa9c1, 0) == 0x31a59f6e;
    assert C.ByteStep(0x31a59f6e, 0) == 0xcd8f89da;
    assert C.ByteStep(0xcd8f89da, 0) == 0xb8fc461a;
    assert C.ByteStep(0xb8fc461a, 0) == 0x7b041311;
    hide C.ByteStep, C.Fold;
    Following([0xbd8f6515, 0x25125c16, 0x36da32db, 0x4a6c90a2, 0x433aa9c1,
               0x31a59f6e, 0xcd8f89da, 0xb8fc461a, 0x7b041311], EIGHT_ZEROS);
  }

  lemma FourthZeros()
    ensures C.Fold(0x7b041311, EIGHT_ZEROS) == 0x756ec955
  {
    assert C.ByteStep(0x7b041311, 0) == 0xe24e407f;
    assert C.ByteStep(0xe24e407f, 0) == 0x2f692669;
    assert C.ByteStep(0x2f692669, 0) == 0x195b2188;
    assert C.ByteStep(0x195b2188, 0) == 0x08363896;
    assert C.ByteStep(0x08363896, 0) == 0xb4012dc7;
    assert C.ByteStep(0xb4012dc7, 0) == 0x17f34302;
    assert C.ByteStep(0x17f34302, 0) == 0xe12c83b4;
    assert C.ByteStep(0xe12c83b4, 0) == 0x756ec955;
    hide C.ByteStep, C.Fold;
    Following([0x7b041311, 0xe24e407f, 0x2f692669, 0x195b2188, 0x08363896,
               0xb4012dc7, 0x17f34302, 0xe12c83b4, 0x756ec955], EIGHT_ZEROS);
  }

  /** The value of appendix B.4 of RFC 3720 for 32 zero bytes. */
  lemma ThirtyTwoZeros()
    ensures C.CrcOf(EIGHT_ZEROS + EIGHT_ZEROS + EIGHT_ZEROS + EIGHT_ZEROS) == 0x8a9136aa
  {
    FirstZeros();
    SecondZeros();
    ThirdZeros();
    FourthZeros();
    C.FoldAppend(C.ALL_ONES, EIGHT_ZEROS, EIGHT_ZEROS);
    C.FoldAppend(C.ALL_ONES, EIGHT_ZEROS + EIGHT_ZEROS, EIGHT_ZEROS);
    C.FoldAppend(C.ALL_ONES, EIGHT_ZEROS + EIGHT_ZEROS + EIGHT_ZEROS, EIGHT_ZEROS);
    hide C.Fold;
  }
}
