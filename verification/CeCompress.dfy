/** The encoder and decoder objects of the range coder, with their bit buffers and 32-bit registers. */
module CeCompress {
  import opened Words
  import opened Arith
  import opened RangeCoder
  import NoDivide

  // ----- packing bits into bytes -----

  /** bytes spells bits, completed with fewer than eight zeros. */
  ghost predicate Packs(bytes: seq<byte>, bits: seq<bit>) {
    && |bits| <= 8 * |bytes| < |bits| + 8
    && bits <= BytesBits(bytes)
    && forall i :: |bits| <= i < 8 * |bytes| ==> BytesBits(bytes)[i] == 0
  }

  lemma BytesBitsInjective(a: seq<byte>, b: seq<byte>)
    requires BytesBits(a) == BytesBits(b)
    ensures a == b
  {
    forall i | 0 <= i < |a|
      ensures a[i] == b[i]
    {
      BytesBitsAt(a, i);
      BytesBitsAt(b, i);
      assert Pow2(8) == 256;
      ValDigits(a[i], 8);
      ValDigits(b[i], 8);
    }
  }

  /** There is only one way to pack a bit string. */
  lemma PacksUnique(a: seq<byte>, b: seq<byte>, bits: seq<bit>)
    requires Packs(a, bits) && Packs(b, bits)
    ensures a == b
  {
    forall i | 0 <= i < 8 * |a|
      ensures BytesBits(a)[i] == BytesBits(b)[i]
    {
      if i < |bits| {
        assert BytesBits(a)[i] == bits[i];
        assert BytesBits(b)[i] == bits[i];
      }
    }
    assert BytesBits(a) == BytesBits(b);
    BytesBitsInjective(a, b);
  }

  lemma PartialByte(tail: seq<bit>, b: bit)
    requires |tail| < 8
    ensures Val(tail + [b]) == 2 * Val(tail) + b < 0x100
  {
    ValAppend(tail, b);
    DigitsVal(tail + [b]);
    assert Pow2(8) == 256;
    Pow2Mono(|tail + [b]|, 8);
  }

  // ----- the model callbacks -----

  /** A model as the coder sees it: a table for the current state, and a state update per byte. */
  datatype CecBT<!S> = CecBT(distribution: S -> Table, train: (S, byte) -> S, user: S)

  function Trained<S>(bt: CecBT<S>, h: seq<byte>): S {
    if h == [] then bt.user else bt.train(Trained(bt, h[..|h| - 1]), h[|h| - 1])
  }

  /** The tables a model hands out are determined by the bytes it was trained on. */
  function HistoryModel<S>(bt: CecBT<S>): Model {
    (h: seq<byte>) => bt.distribution(Trained(bt, h))
  }

  // ----- encoder -----

  class CecEncoder {
    const noDivide: bool
    var low: uint32
    var high: uint32
    var pending: nat
    var curByte: byte
    var curBits: nat
    var out: array<byte>
    var outLen: nat
    ghost var tail: seq<bit>     // the bits in the partial byte
    ghost var bits: seq<bit>     // everything emitted

    /** The output bytes and the partial byte spell the emitted bits. */
    ghost predicate Valid()
      reads `out, `outLen, `curByte, `curBits, `tail, `bits, out
    {
      && outLen <= out.Length
      && |tail| == curBits < 8
      && curByte == Val(tail)
      && bits == BytesBits(out[..outLen]) + tail
    }

    ghost function State(): Enc
      reads this
    {
      Enc(low, high, pending, bits)
    }

    constructor (noDivide: bool)
      ensures Valid() && fresh(out) && State() == START_ENC
    {
      this.noDivide := noDivide;
      low, high, pending := 0, 0xFFFF_FFFF, 0;
      curByte, curBits := 0, 0;
      out, outLen := new byte[0], 0;
      tail, bits := [], [];
    }

    /** Doubles the output buffer, or allocates the first 256 bytes. */
    method Grow()
      requires outLen <= out.Length
      modifies this`out
      ensures fresh(out) && outLen < out.Length && out[..outLen] == old(out[..outLen])
    {
      var buf := new byte[if out.Length > 0 then out.Length * 2 else 256];
      forall i | 0 <= i < outLen {
        buf[i] := out[i];
      }
      assert buf[..outLen] == out[..outLen];
      out := buf;
    }

    method EmitBit(b: bit)
      requires Valid()
      modifies this`curByte, this`curBits, this`out, this`outLen, this`tail, this`bits, out
      ensures Valid() && (out == old(out) || fresh(out))
      ensures bits == old(bits) + [b]
    {
      hide BytesBits;
      PartialByte(tail, b);
      curByte := (2 * (curByte as int) + b) % 0x100;
      curBits := curBits + 1;
      tail, bits := tail + [b], bits + [b];
      if curBits == 8 {
        StoreByte();
      }
    }

    method StoreByte()
      requires outLen <= out.Length && |tail| == 8 && curByte == Val(tail)
      requires bits == BytesBits(out[..outLen]) + tail
      modifies this`curByte, this`curBits, this`out, this`outLen, this`tail, out
      ensures Valid() && (out == old(out) || fresh(out))
    {
      ghost var before := out[..outLen];
      if outLen + 1 > out.Length {
        Grow();
      }
      out[outLen] := curByte;
      outLen := outLen + 1;
      ByteOfBits(tail);
      assert out[..outLen] == before + [curByte];
      assert (before + [curByte])[..|before|] == before;
      curByte, curBits, tail := 0, 0, [];
    }

    /** Emits a bit and then the pending complementary bits. */
    method Flush(b: bit)
      requires Valid()
      modifies this`pending, this`curByte, this`curBits, this`out, this`outLen, this`tail, this`bits, out
      ensures Valid() && (out == old(out) || fresh(out))
      ensures bits == Flushed(old(bits), b, old(pending)) && pending == 0
    {
      hide Valid, BytesBits, Val;
      EmitBit(b);
      while pending > 0
        invariant Valid() && (out == old(out) || fresh(out))
        invariant pending <= old(pending) && bits == Flushed(old(bits), b, old(pending) - pending)
      {
        EmitBit(1 - b);
        pending := pending - 1;
      }
    }

    method RenormEnc()
      requires Valid() && State().Valid()
      modifies this, out
      ensures Valid() && (out == old(out) || fresh(out))
      ensures State() == Renorm(old(State()))
    {
      var more := true;
      while more
        invariant Valid() && State().Valid() && (out == old(out) || fresh(out))
        invariant Renorm(State()) == Renorm(old(State()))
        invariant !more ==> MoveOf(low, high) == Stop
        decreases more, TWO32 - (high - low)
      {
        more := RenormOnce();
      }
    }

    /** One pass of the rescaling loop; more tells whether it did not break out. */
    method RenormOnce() returns (more: bool)
      requires Valid() && State().Valid()
      modifies this, out
      ensures Valid() && (out == old(out) || fresh(out))
      ensures more <==> MoveOf(old(low), old(high)) != Stop
      ensures State() == if more then Advance(old(State())) else old(State())
    {
      if high < HALF {
        Flush(0);
        ShiftEnds(0);
      } else if low >= HALF {
        Flush(1);
        ShiftEnds(HALF);
      } else if low >= QUARTER && high < 3 * QUARTER {
        pending := pending + 1;
        ShiftEnds(QUARTER);
      } else {
        return false;
      }
      return true;
    }

    /** Takes the offset off both ends and shifts them left, bringing in 0 and 1. */
    method ShiftEnds(offset: uint32)
      requires offset <= low <= high < offset + HALF
      modifies this`low, this`high
      ensures low == 2 * (old(low) - offset) && high == 2 * (old(high) - offset) + 1
    {
      low := U32(2 * (low - offset));
      high := U32(2 * (high - offset)) + 1;
    }

    method EncSym(cl: nat, ch: nat, tot: nat)
      requires Valid() && State().Settled() && cl < ch <= tot && 0 < tot <= MAX_TOTAL
      modifies this, out
      ensures Valid() && (out == old(out) || fresh(out))
      ensures Narrow(old(State()), cl, ch, tot).Valid()
      ensures State() == Renorm(Narrow(old(State()), cl, ch, tot))
    {
      NarrowTo(cl, ch, tot);
      RenormEnc();
    }

    /** The interval update, in 32-bit words: the scaled end may wrap to 0 and back. */
    method NarrowTo(cl: nat, ch: nat, tot: nat)
      requires State().Settled() && cl < ch <= tot && 0 < tot <= MAX_TOTAL
      modifies this`low, this`high
      ensures State() == Narrow(old(State()), cl, ch, tot)
      ensures State().Valid()
    {
      ghost var e := State();
      NarrowValid(e, cl, ch, tot);
      RangeWord(low, high);
      hide U32, Scaled, ScaleLow, MoveOf;
      var r: uint64 := U32(high - low) + 1;
      var qh, ql := ScaledPair(noDivide, r, cl, ch, tot);
      NarrowWords(low, high, cl, ch, tot, qh, ql);
      high := U32(U32(low + U32(qh)) - 1);
      low := U32(low + U32(ql));
    }

    /** Codes one byte with the given table. */
    method EncByte(cum: Table, b: byte)
      requires Valid() && State().Settled()
      modifies this, out
      ensures Valid() && (out == old(out) || fresh(out))
      ensures State() == RangeCoder.EncSym(old(State()), cum, b)
    {
      EncSym(cum[b], cum[b + 1], cum[256]);
    }

    /** Fills the last byte up with zeros. */
    method PadByte()
      requires Valid()
      modifies this`curByte, this`curBits, this`out, this`outLen, this`tail, this`bits, out
      ensures Valid() && curBits == 0 && (out == old(out) || fresh(out))
      ensures old(bits) <= bits && |bits| < |old(bits)| + 8
      ensures forall i :: |old(bits)| <= i < |bits| ==> bits[i] == 0
    {
      while curBits > 0
        invariant Valid() && (out == old(out) || fresh(out))
        invariant old(bits) <= bits
        invariant |bits| < |old(bits)| + 8 && (curBits > 0 ==> |bits| <= |old(bits)| + curBits - old(curBits))
        invariant forall i :: |old(bits)| <= i < |bits| ==> bits[i] == 0
        decreases if curBits == 0 then 0 else 8 - curBits
      {
        EmitBit(0);
      }
    }

    /** The final flush; hands over the packed output. */
    method Finish() returns (payload: seq<byte>)
      requires Valid() && State().Settled()
      modifies this, out
      ensures Packs(payload, FinishBits(old(State())))
    {
      ghost var f := FinishBits(State());
      pending := pending + 1;
      Flush(if low < QUARTER then 0 else 1);
      assert bits == f;
      PadByte();
      payload := out[..outLen];
      assert bits == BytesBits(payload);
      out, outLen, tail, bits := new byte[0], 0, [], [];
    }
  }

  lemma RangeWord(low: uint32, high: uint32)
    requires low <= high
    ensures U32(high - low) + 1 == high - low + 1
  {
  }

  /** Word arithmetic on the interval ends agrees with exact arithmetic, range 2^32 included. */
  lemma WordEnds(low: uint32, qh: nat, ql: nat, r: nat)
    requires ql < qh <= r && low + r <= TWO32
    ensures U32(U32(low + U32(qh)) - 1) == low + qh - 1
    ensures U32(low + U32(ql)) == low + ql
  {
    if qh == TWO32 {
      assert U32(qh) == 0 && low == 0;
      assert U32(-1) == TWO32 - 1;
    }
  }

  lemma NarrowWords(low: uint32, high: uint32, cl: nat, ch: nat, tot: nat, qh: nat, ql: nat)
    requires high - low >= QUARTER && cl < ch <= tot && 0 < tot <= MAX_TOTAL
    requires qh == Scaled(high - low + 1, ch, tot) && ql == Scaled(high - low + 1, cl, tot)
    ensures U32(U32(low + U32(qh)) - 1) == ScaleLow(low, high, ch, tot) - 1
    ensures U32(low + U32(ql)) == ScaleLow(low, high, cl, tot)
  {
    ScaleGap(high - low + 1, cl, ch, tot);
    WordEnds(low, qh, ql, high - low + 1);
  }

  /** The two scaled products r*ch/tot and r*cl/tot, by division or, in the division-free build, without it. */
  method ScaledPair(noDivide: bool, r: uint64, cl: nat, ch: nat, tot: nat) returns (qh: nat, ql: nat)
    requires 0 < r <= TWO32 && cl < ch <= tot && 0 < tot <= MAX_TOTAL
    ensures qh == Scaled(r, ch, tot) && ql == Scaled(r, cl, tot)
  {
    MulMono2(r, TWO32, ch, MAX_TOTAL);
    MulMono(cl, ch, r);
    MulMono(0, cl, r);
    var nh: uint64, nl: uint64 := r * ch, r * cl;
    DivNat(nh, tot);
    DivNat(nl, tot);
    if noDivide {
      qh := NoDivide.Quotient(nh, tot);
      ql := NoDivide.Quotient(nl, tot);
    } else {
      qh, ql := nh / tot, nl / tot;
    }
  }

  // ----- decoder -----

  class CecDecoder {
    const noDivide: bool
    const input: seq<byte>
    var low: uint32
    var high: uint32
    var code: uint32
    var inPos: nat
    var curByte: byte
    var curBits: nat
    ghost var pos: nat           // bits read so far

    /** The unread bits of the current byte, and after them the unread bytes, are the bits from pos on. */
    ghost predicate Valid()
      reads `inPos, `curByte, `curBits, `pos
    {
      && curBits <= 8
      && inPos <= |input|
      && (forall j :: 0 <= j < curBits ==> ByteBits(curByte)[j] == BitAt(BytesBits(input), pos + j))
      && (if inPos < |input| then 8 * inPos == pos + curBits else pos + curBits >= 8 * |input|)
    }

    ghost function State(): Dec
      reads this
    {
      Dec(low, high, code, pos)
    }

    /** Refills the current byte, with zeros once the input is exhausted. */
    method Refill()
      requires Valid() && curBits == 0
      modifies this`inPos, this`curByte, this`curBits
      ensures Valid() && curBits == 8
    {
      if inPos < |input| {
        BytesBitsAt(input, inPos);
        curByte := input[inPos];
        assert ByteBits(curByte) == BytesBits(input)[8 * inPos..8 * inPos + 8];
        inPos := inPos + 1;
      } else {
        curByte := 0;
        ZeroByte();
      }
      curBits := 8;
    }

    method ReadBit() returns (b: bit)
      requires Valid()
      modifies this`inPos, this`curByte, this`curBits, this`pos
      ensures Valid() && pos == old(pos) + 1 && b == BitAt(BytesBits(input), old(pos))
    {
      hide ByteBits, BytesBits, BitAt;
      if curBits == 0 {
        Refill();
      }
      ShiftByte(curByte);
      b := curByte / 128;
      ghost var before := ByteBits(curByte);
      curByte := 2 * (curByte as int) % 0x100;
      assert forall j :: 0 <= j < 7 ==> ByteBits(curByte)[j] == before[j + 1];
      curBits := curBits - 1;
      pos := pos + 1;
    }

    constructor (input: seq<byte>, noDivide: bool)
      ensures Valid() && this.input == input && State() == StartDec(BytesBits(input))
      ensures State().Settled()
    {
      this.input, this.noDivide := input, noDivide;
      low, high, code := 0, 0xFFFF_FFFF, 0;
      inPos, curByte, curBits, pos := 0, 0, 0, 0;
      new;
      FillCode();
      StartDecSettled(BytesBits(input));
    }

    /** Reads the first 32 bits into the code register. */
    method FillCode()
      requires Valid() && code == 0 && pos == 0
      modifies this`code, this`inPos, this`curByte, this`curBits, this`pos
      ensures Valid() && pos == 32 && code == Prefix(BytesBits(input), 32)
    {
      hide Valid, BytesBits, BitAt, U32;
      for i := 0 to 32
        invariant Valid() && pos == i && code == Prefix(BytesBits(input), i)
      {
        var b := ReadBit();
        CodeWord(BytesBits(input), i, code);
        code := U32(U32(2 * (code as int)) + b);
      }
    }

    /** One pass of the rescaling loop. */
    method RenormOnce() returns (more: bool)
      requires Valid() && State().Valid()
      modifies this
      ensures Valid() && State().Valid()
      ensures more <==> MoveOf(old(low), old(high)) != Stop
      ensures State() == if more then DecAdvance(old(State()), BytesBits(input)) else old(State())
    {
      if high < HALF {
        ShiftEnds(0);
      } else if low >= HALF {
        ShiftEnds(HALF);
      } else if low >= QUARTER && high < 3 * QUARTER {
        ShiftEnds(QUARTER);
      } else {
        return false;
      }
      return true;
    }

    method ShiftEnds(offset: uint32)
      requires Valid() && offset <= low <= code <= high < offset + HALF
      modifies this
      ensures Valid() && pos == old(pos) + 1
      ensures low == 2 * (old(low) - offset) && high == 2 * (old(high) - offset) + 1
      ensures code == 2 * (old(code) - offset) + BitAt(BytesBits(input), old(pos))
    {
      hide Valid;
      ShiftWord(code, offset);
      ShiftWord(low, offset);
      ShiftWord(high, offset);
      code := U32(code - offset);
      low := U32(2 * (low - offset));
      high := U32(2 * (high - offset)) + 1;
      var b := ReadBit();
      code := U32(2 * (code as int)) + b;
    }

    method RenormDec()
      requires Valid() && State().Valid()
      modifies this
      ensures Valid()
      ensures State() == DecRenorm(old(State()), BytesBits(input))
    {
      hide Valid;
      var more := true;
      while more
        invariant Valid() && State().Valid()
        invariant DecRenorm(State(), BytesBits(input)) == DecRenorm(old(State()), BytesBits(input))
        invariant !more ==> MoveOf(low, high) == Stop
        decreases more, TWO32 - (high - low)
      {
        more := RenormOnce();
      }
    }

    /** The table position of the code, computed in 32- and 64-bit words. */
    method Target(tot: nat) returns (target: uint32)
      requires State().Settled() && 0 < tot <= MAX_TOTAL
      ensures target == TargetWord(low, high, code, tot)
    {
      var r: uint64 := U32(high - low) + 1;
      assert r == high - low + 1;
      hide Valid, U32, U64;
      var num := U64(U32(U32(code - low) + 1) * tot - 1);
      var q := Divide(num, r);
      target := U32(q);
    }

    method Divide(num: uint64, r: uint64) returns (q: int)
      requires r > 0
      ensures q == num / r
    {
      if noDivide {
        q := NoDivide.DivQ64(num, r);
      } else {
        q := num / r;
      }
    }

    /** The interval update after decoding; the code register is untouched. */
    method NarrowTo(cum: Table, b: byte)
      requires State().Settled() && Holds(State(), cum, b)
      modifies this`low, this`high
      ensures State() == DecNarrow(old(State()), cum, b)
      ensures State().Valid()
    {
      ghost var d := State();
      DecNarrowValid(d, cum, b);
      RangeWord(low, high);
      hide U32, Scaled, ScaleLow, MoveOf;
      var r: uint64 := U32(high - low) + 1;
      var qh, ql := ScaledPair(noDivide, r, cum[b], cum[b + 1], cum[256]);
      NarrowWords(low, high, cum[b], cum[b + 1], cum[256], qh, ql);
      high := U32(U32(low + U32(qh)) - 1);
      low := U32(low + U32(ql));
    }

    /**
     * Decodes one byte with the given table.  On any input, valid stream or not, the result is the
     * one symbol whose interval holds the code, and the code stays inside the interval.
     */
    method DecByte(cum: Table) returns (b: byte)
      requires Valid() && State().Settled()
      modifies this
      ensures Valid() && State().Settled()
      ensures b == SymbolAt(old(State()), cum)
      ensures State() == DecSym(old(State()), cum, b, BytesBits(input))
    {
      hide Valid;
      var target := Target(cum[256]);
      b := Search(cum, target);
      TargetFinds(State(), cum, target, b);
      NarrowTo(cum, b);
      RenormDec();
    }
  }

  lemma CodeWord(input: seq<bit>, i: nat, code: uint32)
    requires i < 32 && code == Prefix(input, i)
    ensures U32(U32(2 * (code as int)) + BitAt(input, i)) == Prefix(input, i + 1)
  {
    PrefixBound(input, i + 1);
    Pow2Mono(i + 1, 32);
    Pow2Values();
  }

  lemma ZeroByte()
    ensures forall j :: 0 <= j < 8 ==> ByteBits(0)[j] == 0
  {
    ZeroDigits(0, 8);
  }

  lemma {:induction false} ZeroDigits(x: nat, k: nat)
    requires x == 0
    ensures forall j :: 0 <= j < k ==> Digits(x, k)[j] == 0
  {
    if k > 0 {
      ZeroDigits(x, k - 1);
    }
  }

  /** code - low + 1 is a 32-bit word and wraps to 0 when the interval is everything and code is its end. */
  function TargetWord(low: uint32, high: uint32, code: uint32, tot: nat): uint32
    requires low <= high
  {
    U32(U64(U32(U32(code - low) + 1) * tot - 1) / (high - low + 1))
  }

  /** target falls on symbol b; past the last bound it counts as the last symbol. */
  predicate FallsOn(cum: Table, target: nat, b: byte) {
    cum[b] <= target && (b < 255 ==> target < cum[b + 1])
  }

  /** Binary search for the symbol. */
  method Search(cum: Table, target: nat) returns (b: byte)
    ensures FallsOn(cum, target, b)
  {
    var lo, hi := 0, 256;
    while lo + 1 < hi
      invariant 0 <= lo < hi <= 256
      invariant cum[lo] <= target && (hi == 256 || target < cum[hi])
    {
      var m := (lo + hi) / 2;
      if cum[m] <= target {
        lo := m;
      } else {
        hi := m;
      }
    }
    b := lo;
  }

  /** The wrapped word arithmetic and the search pick the symbol that exact arithmetic picks. */
  lemma TargetFinds(d: Dec, cum: Table, target: uint32, b: byte)
    requires d.Settled()
    requires target == TargetWord(d.low, d.high, d.code, cum[256]) && FallsOn(cum, target, b)
    ensures Holds(d, cum, b) && b == SymbolAt(d, cum)
  {
    var s := SymbolAt(d, cum);
    if d.code - d.low + 1 == TWO32 {
      WrappedFalls(d, cum, target, s);
    } else {
      PlainFalls(d, cum, target, s);
    }
    hide Holds, TargetWord, Scaled;
    TableOrder(cum, s, b);
    TableOrder(cum, b, s);
  }

  lemma WrappedFalls(d: Dec, cum: Table, target: uint32, s: byte)
    requires d.Settled() && Holds(d, cum, s) && d.code - d.low + 1 == TWO32
    requires target == TargetWord(d.low, d.high, d.code, cum[256])
    ensures FallsOn(cum, target, s)
  {
    WrappedTarget(cum[256]);
    LastHolds(d, cum);
    HoldsUnique(d, cum, s, 255);
  }

  lemma LastHolds(d: Dec, cum: Table)
    requires d.Settled() && d.code == d.high
    ensures Holds(d, cum, 255)
  {
    ScaleWhole(d, cum);
    ScaleGap(d.high - d.low + 1, cum[255], cum[256], cum[256]);
  }

  lemma PlainFalls(d: Dec, cum: Table, target: uint32, s: byte)
    requires d.Settled() && Holds(d, cum, s) && d.code - d.low + 1 < TWO32
    requires target == TargetWord(d.low, d.high, d.code, cum[256])
    ensures FallsOn(cum, target, s)
  {
    var r, k, tot := d.high - d.low + 1, d.code - d.low, cum[256];
    HeldBounds(d, cum, s, r, k);
    TargetWordIs(d.low, d.high, d.code, tot, r, k);
    hide *;
    TargetBounds(r, k, cum[s], cum[s + 1], tot);
    PlainTarget(r, k, tot);
    BetweenFalls(cum, target, s);
  }

  lemma HeldBounds(d: Dec, cum: Table, s: byte, r: nat, k: nat)
    requires d.Settled() && Holds(d, cum, s) && r == d.high - d.low + 1 && k == d.code - d.low
    ensures cum[256] > 0 && k < r <= TWO32
    ensures Scaled(r, cum[s], cum[256]) <= k < Scaled(r, cum[s + 1], cum[256])
  {
    hide Scaled;
  }

  lemma TargetWordIs(low: uint32, high: uint32, code: uint32, tot: nat, r: nat, k: nat)
    requires low <= code <= high && r == high - low + 1 && k == code - low
    ensures TargetWord(low, high, code, tot) == U32(U64(U32(U32(k) + 1) * tot - 1) / r)
  {
    hide U32, U64;
  }

  lemma BetweenFalls(cum: Table, target: nat, b: byte)
    requires cum[b] <= target < cum[b + 1]
    ensures FallsOn(cum, target, b)
  {
  }

  lemma TableOrder(cum: Table, a: byte, b: byte)
    ensures a < b ==> cum[a + 1] <= cum[b]
  {
  }

  lemma ShiftWord(x: uint32, offset: uint32)
    requires offset <= x < offset + HALF
    ensures U32(x - offset) == x - offset
    ensures U32(2 * (x - offset)) == 2 * (x - offset) < TWO32 - 1
  {
  }

  lemma WrappedTarget(tot: nat)
    ensures U32(U64(U32(TWO32) * tot - 1) / TWO32) == TWO32 - 1
  {
    assert U32(TWO32) == 0;
    assert U64(-1) == TWO64 - 1;
  }

  lemma PlainTarget(r: nat, k: nat, tot: nat)
    requires 0 < tot <= MAX_TOTAL && k < r <= TWO32 && k + 1 < TWO32
    ensures U32(U64(U32(U32(k) + 1) * tot - 1) / r) == ((k + 1) * tot - 1) / r
  {
    MulMono2(k + 1, TWO32, tot, MAX_TOTAL);
    MulMono(1, k + 1, tot);
    var n := (k + 1) * tot - 1;
    MulMono(k + 1, r, tot);
    DivBelow(tot, n, r);
    DivNat(n, r);
    assert U32(U32(k) + 1) == k + 1;
    SmallWords(n, n / r);
  }

  lemma SmallWords(n: int, q: int)
    requires 0 <= n < TWO64 && 0 <= q < TWO32
    ensures U64(n) == n && U32(q) == q
  {
  }

  lemma TargetBounds(r: nat, k: nat, cl: nat, ch: nat, tot: nat)
    requires r > 0 && tot > 0
    requires Scaled(r, cl, tot) <= k < Scaled(r, ch, tot)
    ensures cl <= ((k + 1) * tot - 1) / r < ch
  {
    var n := (k + 1) * tot - 1;
    DivBounds(r * cl, tot);
    DivBounds(r * ch, tot);
    MulMono(r * cl / tot, k, tot);
    assert (k + 1) * tot == k * tot + tot;
    DivAtLeast(cl, n, r);
    MulMono(k + 1, r * ch / tot, tot);
    DivBelow(ch, n, r);
  }

  // ----- whole messages -----

  /** The payload of a message under a model: the packed bits of the exact encoder. */
  ghost predicate IsPayload(m: Model, msg: seq<byte>, payload: seq<byte>) {
    Packs(payload, EncodedBits(m, msg))
  }

  method Compress<S>(data: seq<byte>, bt: CecBT<S>, noDivide: bool) returns (payload: seq<byte>)
    ensures IsPayload(HistoryModel(bt), data, payload)
  {
    var e := new CecEncoder(noDivide);
    var user := bt.user;
    for i := 0 to |data|
      invariant e.Valid() && fresh(e) && fresh(e.out) && e.State().Settled()
      invariant user == Trained(bt, data[..i])
      invariant EncRun(HistoryModel(bt), data[..i], data[i..], e.State())
             == EncRun(HistoryModel(bt), [], data, START_ENC)
    {
      assert data[i..][0] == data[i] && data[i..][1..] == data[i + 1..];
      assert data[..i + 1] == data[..i] + [data[i]];
      assert data[..i + 1][..i] == data[..i];
      e.EncByte(bt.distribution(user), data[i]);
      user := bt.train(user, data[i]);
    }
    assert data[..|data|] == data;
    payload := e.Finish();
  }

  method Decompress<S>(payload: seq<byte>, origLen: nat, bt: CecBT<S>, noDivide: bool) returns (data: seq<byte>)
    ensures data == DecodedBytes(HistoryModel(bt), BytesBits(payload), origLen)
  {
    var d := new CecDecoder(payload, noDivide);
    var user := bt.user;
    data := [];
    ghost var m, input := HistoryModel(bt), BytesBits(payload);
    assert user == Trained(bt, data);
    assert data + DecRun(m, data, origLen, d.State(), input) == DecodedBytes(m, input, origLen);
    hide *;
    for i := 0 to origLen
      invariant d.Valid() && fresh(d) && d.State().Settled() && d.input == payload
      invariant |data| == i && user == Trained(bt, data)
      invariant data + DecRun(m, data, origLen - i, d.State(), input) == DecodedBytes(m, input, origLen)
    {
      ghost var before := d.State();
      var b := d.DecByte(bt.distribution(user));
      HistoryStep(bt, data, b);
      DecRunStep(m, data, origLen - i, before, input);
      data := data + [b];
      user := bt.train(user, b);
    }
  }

  lemma HistoryStep<S>(bt: CecBT<S>, h: seq<byte>, b: byte)
    ensures HistoryModel(bt)(h) == bt.distribution(Trained(bt, h))
    ensures Trained(bt, h + [b]) == bt.train(Trained(bt, h), b)
  {
    assert (h + [b])[..|h|] == h;
  }

  lemma DecRunStep(m: Model, h: seq<byte>, n: nat, d: Dec, input: seq<bit>)
    requires n > 0 && d.Settled()
    ensures var b := SymbolAt(d, m(h));
      h + DecRun(m, h, n, d, input) == (h + [b]) + DecRun(m, h + [b], n - 1, DecSym(d, m(h), b, input), input)
  {
  }

  /**
   * Losslessness of the byte-level coder, for any adaptive model that starts both runs in the same state:
   * the payload, with any bytes behind it, decodes to the message.
   */
  lemma RoundTrip(m: Model, msg: seq<byte>, payload: seq<byte>, input: seq<byte>)
    requires IsPayload(m, msg, payload) && payload <= input
    ensures DecodedBytes(m, BytesBits(input), |msg|) == msg
  {
    BytesBitsPrefix(payload, input);
    DecodeInvertsEncode(m, msg, BytesBits(input));
  }

  lemma {:induction false} BytesBitsPrefix(s: seq<byte>, t: seq<byte>)
    requires s <= t
    ensures BytesBits(s) <= BytesBits(t)
    decreases |t|
  {
    if |s| < |t| {
      BytesBitsPrefix(s, t[..|t| - 1]);
    } else {
      assert s == t;
    }
  }

  /** Bit 8i + j of a byte string is bit 7 - j of byte i: the bytes in order, the top bit of each first. */
  lemma BitPlace(s: seq<byte>, i: nat, j: nat)
    requires i < |s| && j < 8
    ensures BytesBits(s)[8 * i + j] == s[i] / Pow2(7 - j) % 2
  {
    BytesBitsAt(s, i);
    assert ByteBits(s[i])[j] == BytesBits(s)[8 * i..8 * i + 8][j];
    DigitPlace(s[i], 8, j);
  }

  lemma {:induction false} DigitPlace(x: nat, k: nat, j: nat)
    requires j < k
    ensures Digits(x, k)[j] == x / Pow2(k - 1 - j) % 2
  {
    if j < k - 1 {
      DigitPlace(x / 2, k - 1, j);
      DivDiv(x, 2, Pow2(k - 2 - j));
    }
  }

  /** The payload of n bytes takes at most 2n + 1 bytes. */
  lemma PayloadSize(m: Model, msg: seq<byte>, payload: seq<byte>)
    requires IsPayload(m, msg, payload)
    ensures |payload| <= 2 * |msg| + 1
  {
    SixteenBitsPerSymbol(m, msg);
  }
}
