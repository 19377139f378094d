module CrcWords {
  // The checksum register in 32-bit machine words, which follows the one in numbers, and the values published for it.

  import opened Words
  import opened BitXor
  import opened Crc
  import LittleEndian

  // ----- words and their numbers -----

  function Half(v: bv32): bv32 {
    v >> 1
  }

  /** The word without its lowest byte. */
  function Drop(v: bv32): bv32 {
    v >> 8
  }

  /** Bitwise exclusive or. */
  function Mix(a: bv32, b: bv32): bv32 {
    a ^ b
  }

  function LowBit(v: bv32): bit {
    if v & 1 == 1 then 1 else 0
  }

  /** The number the k low bits of a machine word spell. */
  function Nat(v: bv32, k: nat): nat
    decreases k
  {
    if k == 0 then 0 else 2 * Nat(Half(v), k - 1) + LowBit(v)
  }

  /** The number a machine word is. */
  function Number(v: bv32): nat {
    Nat(v, 32)
  }

  lemma NatStep(v: bv32, k: nat)
    requires k > 0
    ensures Nat(v, k) == 2 * Nat(Half(v), k - 1) + LowBit(v)
  {
  }

  /** The number of the eight low bits, bit by bit. */
  function LowByte(v: bv32): nat {
    var v1 := Half(v);
    var v2 := Half(v1);
    var v3 := Half(v2);
    var v4 := Half(v3);
    var v5 := Half(v4);
    var v6 := Half(v5);
    var v7 := Half(v6);
    LowBit(v) + 2 * LowBit(v1) + 4 * LowBit(v2) + 8 * LowBit(v3)
    + 16 * LowBit(v4) + 32 * LowBit(v5) + 64 * LowBit(v6) + 128 * LowBit(v7)
  }

  lemma EightHalves(v: bv32)
    ensures Half(Half(Half(Half(Half(Half(Half(Half(v)))))))) == Drop(v)
  {
  }

  /** The lowest byte of a word and the bits above it. */
  lemma NatByte(v: bv32, k: nat)
    ensures Nat(v, k + 8) == 256 * Nat(Drop(v), k) + LowByte(v)
  {
    EightHalves(v);
    hide Nat, Half, LowBit;
    var v1 := Half(v);
    var v2 := Half(v1);
    var v3 := Half(v2);
    var v4 := Half(v3);
    var v5 := Half(v4);
    var v6 := Half(v5);
    var v7 := Half(v6);
    NatStep(v, k + 8);
    NatStep(v1, k + 7);
    NatStep(v2, k + 6);
    NatStep(v3, k + 5);
    NatStep(v4, k + 4);
    NatStep(v5, k + 3);
    NatStep(v6, k + 2);
    NatStep(v7, k + 1);
  }

  lemma FourDrops(v: bv32)
    ensures Drop(Drop(Drop(Drop(v)))) == 0
  {
  }

  lemma NumberBytes(v: bv32, k: nat)
    ensures var v1 := Drop(v); var v2 := Drop(v1); var v3 := Drop(v2);
      Nat(v, 32 + k) == LowByte(v) + 0x100 * LowByte(v1) + 0x1_0000 * LowByte(v2) + 0x100_0000 * LowByte(v3)
                        + 0x1_0000_0000 * Nat(0, k)
  {
    FourDrops(v);
    hide *;
    NatByte(v, 24 + k);
    NatByte(Drop(v), 16 + k);
    NatByte(Drop(Drop(v)), 8 + k);
    NatByte(Drop(Drop(Drop(v))), k);
  }

  lemma NumberIs(v: bv32, a: nat, b: nat, c: nat, d: nat)
    requires var v1 := Drop(v); var v2 := Drop(v1); var v3 := Drop(v2);
      LowByte(v3) == a && LowByte(v2) == b && LowByte(v1) == c && LowByte(v) == d
    ensures Number(v) == 0x100_0000 * a + 0x1_0000 * b + 0x100 * c + d
  {
    NatOfZero();
    NumberDef(v);
    hide *;
    NumberBytes(v, 0);
  }

  lemma NatOfZero()
    ensures Nat(0, 0) == Nat(0, 1) == 0
  {
    NatStep(0, 1);
  }

  lemma NumberDef(v: bv32)
    ensures Number(v) == Nat(v, 32)
  {
  }

  /** A word has 32 bits: one more is zero. */
  lemma NoMore(v: bv32)
    ensures Nat(v, 33) == Nat(v, 32)
  {
    NatOfZero();
    hide *;
    NumberBytes(v, 0);
    NumberBytes(v, 1);
  }

  lemma XorJoin(x: nat, y: nat, a: bit, b: bit, z: nat, c: bit)
    requires z == Xor(x, y) && c == if a == b then 0 else 1
    ensures Xor(2 * x + a, 2 * y + b) == 2 * z + c
  {
    XorParts(2 * x + a, 2 * y + b);
    assert (2 * x + a) / 2 == x && (2 * y + b) / 2 == y;
  }

  lemma WordParts(a: bv32, b: bv32)
    ensures LowBit(Mix(a, b)) == if LowBit(a) == LowBit(b) then 0 else 1
    ensures Half(Mix(a, b)) == Mix(Half(a), Half(b))
  {
  }

  lemma NatXorStep(a: bv32, b: bv32, k: nat)
    requires k > 0 && Nat(Mix(Half(a), Half(b)), k - 1) == Xor(Nat(Half(a), k - 1), Nat(Half(b), k - 1))
    ensures Nat(Mix(a, b), k) == Xor(Nat(a, k), Nat(b, k))
  {
    hide *;
    NatStep(a, k);
    NatStep(b, k);
    NatStep(Mix(a, b), k);
    WordParts(a, b);
    XorJoin(Nat(Half(a), k - 1), Nat(Half(b), k - 1), LowBit(a), LowBit(b),
            Nat(Mix(Half(a), Half(b)), k - 1), LowBit(Mix(a, b)));
  }

  /** Exclusive or of words is exclusive or of their numbers. */
  lemma {:induction false} NatXor(a: bv32, b: bv32, k: nat)
    ensures Nat(Mix(a, b), k) == Xor(Nat(a, k), Nat(b, k))
    decreases k
  {
    if k > 0 {
      hide *;
      NatXor(Half(a), Half(b), k - 1);
      NatXorStep(a, b, k);
    } else {
      assert Xor(0, 0) == 0;
    }
  }

  // ----- the register -----

  const POLYNOMIAL_WORD: bv32 := 0xEDB8_8320

  function WordPick(c: bv32): bv32 {
    if c & 1 == 1 then POLYNOMIAL_WORD else 0
  }

  function WordStep(c: bv32): bv32 {
    Mix(Half(c), WordPick(c))
  }

  function WordSteps(c: bv32, k: nat): bv32
    decreases k
  {
    if k == 0 then c else WordStep(WordSteps(c, k - 1))
  }

  lemma PolynomialWord()
    ensures Number(POLYNOMIAL_WORD) == POLYNOMIAL
    ensures Number(0) == 0
  {
    NumberIs(0xEDB8_8320, 0xED, 0xB8, 0x83, 0x20);
    NumberIs(0, 0, 0, 0, 0);
  }

  lemma PickWord(c: bv32)
    ensures Number(WordPick(c)) == Pick(LowBit(c))
  {
    PolynomialWord();
    hide Number;
  }

  /** A step of the register in machine words is the step in numbers. */
  lemma BitStepWord(c: bv32)
    ensures BitStep(Number(c)) == Number(WordStep(c))
  {
    PickWord(c);
    NumberHalf(c);
    NatXor(Half(c), WordPick(c), 32);
    assert WordStep(c) == Mix(Half(c), WordPick(c));
    NumberDef(Half(c));
    NumberDef(WordPick(c));
    NumberDef(WordStep(c));
    hide Number, Half, WordPick, LowBit, Pick, Xor, Nat, WordStep;
  }

  lemma NumberHalf(c: bv32)
    ensures Number(c) / 2 == Number(Half(c)) && Number(c) % 2 == LowBit(c)
  {
    hide *;
    NoMore(c);
    NatStep(c, 33);
    NumberDef(c);
    NumberDef(Half(c));
  }

  lemma {:induction false} StepsWord(c: bv32, k: nat)
    ensures Steps(Number(c), k) == Number(WordSteps(c, k))
    decreases k
  {
    if k > 0 {
      hide BitStep, Number, WordStep;
      StepsWord(c, k - 1);
      BitStepWord(WordSteps(c, k - 1));
    }
  }

  /** A byte mixed into the register, in machine words. */
  function WordByteStep(c: bv32, d: bv32): bv32 {
    WordSteps(Mix(c, d), 8)
  }

  lemma ByteStepWord(c: bv32, d: bv32, b: byte)
    requires Number(d) == b
    ensures ByteStep(Number(c), b) == Number(WordByteStep(c, d))
  {
    NatXor(c, d, 32);
    NumberDef(c);
    NumberDef(d);
    NumberDef(Mix(c, d));
    hide Number, Nat, Mix, WordSteps, Steps, Xor;
    StepsWord(Mix(c, d), 8);
  }

  // ----- the published values -----

  lemma {:induction false} RegisterConcat(c: nat, s: seq<byte>, t: seq<byte>)
    ensures Register(c, s + t) == Register(Register(c, s), t)
  {
    if t == [] {
      assert s + t == s;
    } else {
      var front, d := t[..|t| - 1], t[|t| - 1];
      RegisterConcat(c, s, front);
      assert s + t == (s + front) + [d] && t == front + [d];
      hide *;
      RegisterSnoc(c, s + front, d);
      RegisterSnoc(Register(c, s), front, d);
    }
  }

  /** The number of a byte string is its little-endian value. */
  lemma {:induction false} PackedIsFromLe(s: seq<byte>)
    ensures Packed(s) == LittleEndian.FromLe(s)
  {
    if s != [] {
      PackedIsFromLe(s[1..]);
      PackedConcat([s[0]], s[1..]);
      assert s == [s[0]] + s[1..] && Packed([s[0]]) == s[0];
      assert Pow2(8) == 256;
    }
  }

  /** What an undamaged message with its checksum behind it always leaves in the register. */
  const RESIDUE := 0xDEBB_20E3

  lemma EightSteps()
    ensures WordSteps(0xFFFF_FFFF, 8) == 0x2DFD_1072
    ensures WordSteps(0x2DFD_1072, 8) == 0xBE26_ED00
    ensures WordSteps(0xBE26_ED00, 8) == 0x00BE_26ED
    ensures WordSteps(0x00BE_26ED, 8) == 0xDEBB_20E3
  {
  }

  lemma ResidueWord()
    ensures Steps(ALL_ONES, 32) == RESIDUE
  {
    NumberIs(0xFFFF_FFFF, 0xFF, 0xFF, 0xFF, 0xFF);
    NumberIs(0xDEBB_20E3, 0xDE, 0xBB, 0x20, 0xE3);
    EightSteps();
    hide *;
    StepsWord(0xFFFF_FFFF, 8);
    StepsWord(0x2DFD_1072, 8);
    StepsWord(0xBE26_ED00, 8);
    StepsWord(0x00BE_26ED, 8);
    StepsAdd(ALL_ONES, 8, 8);
    StepsAdd(ALL_ONES, 16, 8);
    StepsAdd(ALL_ONES, 24, 8);
  }

  /** Every message followed by its own checksum, lowest byte first, leaves one and the same register. */
  lemma Residue(s: seq<byte>)
    ensures Register(ALL_ONES, s + LittleEndian.Le(Crc32(s), 4)) == RESIDUE
  {
    var r, c := Register(ALL_ONES, s), Crc32(s);
    var f := LittleEndian.Le(c, 4);
    assert c == Xor(r, ALL_ONES);
    ResidueWord();
    hide *;
    RegisterConcat(ALL_ONES, s, f);
    RegisterOfFew(r, f);
    LittleEndian.WordBack(c);
    PackedIsFromLe(f);
    XorAssoc(r, r, ALL_ONES);
    XorSelf(r);
    XorComm(0, ALL_ONES);
    XorZero(ALL_ONES);
  }

  /** Four bytes of ones in front of a message cancel the ones the register starts with. */
  lemma StartIsOnes(s: seq<byte>)
    ensures Crc32([0xFF, 0xFF, 0xFF, 0xFF] + s) == Xor(Register(0, s), ALL_ONES)
  {
    var f: seq<byte> := [0xFF, 0xFF, 0xFF, 0xFF];
    PackedIsFromLe(f);
    assert LittleEndian.FromLe(f) == ALL_ONES;
    assert Crc32(f + s) == Xor(Register(ALL_ONES, f + s), ALL_ONES);
    hide *;
    RegisterOfFew(ALL_ONES, f);
    XorSelf(ALL_ONES);
    StepsOfShifted(0, 32);
    RegisterConcat(ALL_ONES, f, s);
  }

  /** The message "123456789" in ASCII. */
  const DIGITS: seq<byte> := [0x31, 0x32, 0x33, 0x34, 0x35, 0x36, 0x37, 0x38, 0x39]

  lemma DigitStep(front: seq<byte>, b: byte, c: bv32, d: bv32)
    requires Register(ALL_ONES, front) == Number(c) && Number(d) == b
    ensures Register(ALL_ONES, front + [b]) == Number(WordByteStep(c, d))
  {
    RegisterSnoc(ALL_ONES, front, b);
    hide *;
    ByteStepWord(c, d, b);
  }

  lemma NumbersOneToThree()
    ensures Number(0x31) == 0x31 && Number(0x32) == 0x32 && Number(0x33) == 0x33
  {
    NumberIs(0x31, 0, 0, 0, 0x31);
    NumberIs(0x32, 0, 0, 0, 0x32);
    NumberIs(0x33, 0, 0, 0, 0x33);
  }

  lemma WordsOneToThree()
    ensures WordByteStep(0xFFFF_FFFF, 0x31) == 0x7C23_1048
    ensures WordByteStep(0x7C23_1048, 0x32) == 0xB0AC_BB32
    ensures WordByteStep(0xB0AC_BB32, 0x33) == 0x77B7_9C2D
  {
  }

  lemma DigitsOneToThree(front: seq<byte>)
    requires Register(ALL_ONES, front) == Number(0xFFFF_FFFF)
    ensures Register(ALL_ONES, front + [0x31, 0x32, 0x33]) == Number(0x77B7_9C2D)
  {
    assert front + [0x31, 0x32, 0x33] == front + [0x31] + [0x32] + [0x33];
    hide *;
    NumbersOneToThree();
    WordsOneToThree();
    DigitStep(front, 0x31, 0xFFFF_FFFF, 0x31);
    DigitStep(front + [0x31], 0x32, 0x7C23_1048, 0x32);
    DigitStep(front + [0x31] + [0x32], 0x33, 0xB0AC_BB32, 0x33);
  }

  lemma NumbersFourToSix()
    ensures Number(0x34) == 0x34 && Number(0x35) == 0x35 && Number(0x36) == 0x36
  {
    NumberIs(0x34, 0, 0, 0, 0x34);
    NumberIs(0x35, 0, 0, 0, 0x35);
    NumberIs(0x36, 0, 0, 0, 0x36);
  }

  lemma WordsFourToSix()
    ensures WordByteStep(0x77B7_9C2D, 0x34) == 0x641C_1F5C
    ensures WordByteStep(0x641C_1F5C, 0x35) == 0x340A_C5E3
    ensures WordByteStep(0x340A_C5E3, 0x36) == 0xF68D_2C9E
  {
  }

  lemma DigitsFourToSix(front: seq<byte>)
    requires Register(ALL_ONES, front) == Number(0x77B7_9C2D)
    ensures Register(ALL_ONES, front + [0x34, 0x35, 0x36]) == Number(0xF68D_2C9E)
  {
    assert front + [0x34, 0x35, 0x36] == front + [0x34] + [0x35] + [0x36];
    hide *;
    NumbersFourToSix();
    WordsFourToSix();
    DigitStep(front, 0x34, 0x77B7_9C2D, 0x34);
    DigitStep(front + [0x34], 0x35, 0x641C_1F5C, 0x35);
    DigitStep(front + [0x34] + [0x35], 0x36, 0x340A_C5E3, 0x36);
  }

  lemma NumbersSevenToNine()
    ensures Number(0x37) == 0x37 && Number(0x38) == 0x38 && Number(0x39) == 0x39
  {
    NumberIs(0x37, 0, 0, 0, 0x37);
    NumberIs(0x38, 0, 0, 0, 0x38);
    NumberIs(0x39, 0, 0, 0, 0x39);
  }

  lemma WordsSevenToNine()
    ensures WordByteStep(0xF68D_2C9E, 0x37) == 0xAFFC_9660
    ensures WordByteStep(0xAFFC_9660, 0x38) == 0x651F_2550
    ensures WordByteStep(0x651F_2550, 0x39) == 0x340B_C6D9
  {
  }

  lemma DigitsSevenToNine(front: seq<byte>)
    requires Register(ALL_ONES, front) == Number(0xF68D_2C9E)
    ensures Register(ALL_ONES, front + [0x37, 0x38, 0x39]) == Number(0x340B_C6D9)
  {
    assert front + [0x37, 0x38, 0x39] == front + [0x37] + [0x38] + [0x39];
    hide *;
    NumbersSevenToNine();
    WordsSevenToNine();
    DigitStep(front, 0x37, 0xF68D_2C9E, 0x37);
    DigitStep(front + [0x37], 0x38, 0xAFFC_9660, 0x38);
    DigitStep(front + [0x37] + [0x38], 0x39, 0x651F_2550, 0x39);
  }

  lemma RegisterEmpty()
    ensures Register(ALL_ONES, []) == ALL_ONES == Number(0xFFFF_FFFF)
  {
    NumberIs(0xFFFF_FFFF, 0xFF, 0xFF, 0xFF, 0xFF);
  }

  lemma Crc32Is(s: seq<byte>)
    ensures Crc32(s) == Xor(Register(ALL_ONES, s), ALL_ONES)
  {
  }

  /** The check value published for this checksum. */
  lemma CheckValue()
    ensures Crc32(DIGITS) == 0xCBF4_3926
  {
    hide Register, Crc32, Number, Xor;
    RegisterEmpty();
    LastMix();
    var a: seq<byte> := [] + [0x31, 0x32, 0x33];
    var b: seq<byte> := a + [0x34, 0x35, 0x36];
    var c: seq<byte> := b + [0x37, 0x38, 0x39];
    assert c == DIGITS;
    hide *;
    Crc32Is(c);
    DigitsOneToThree([]);
    DigitsFourToSix(a);
    DigitsSevenToNine(b);
  }


  lemma LastMix()
    ensures Xor(Number(0x340B_C6D9), ALL_ONES) == 0xCBF4_3926
  {
    NumberIs(0xFFFF_FFFF, 0xFF, 0xFF, 0xFF, 0xFF);
    NumberIs(0xCBF4_3926, 0xCB, 0xF4, 0x39, 0x26);
    assert Mix(0x340B_C6D9, 0xFFFF_FFFF) == 0xCBF4_3926;
    NatXor(0x340B_C6D9, 0xFFFF_FFFF, 32);
    NumberDef(0x340B_C6D9);
    NumberDef(0xFFFF_FFFF);
    NumberDef(0xCBF4_3926);
  }
}
