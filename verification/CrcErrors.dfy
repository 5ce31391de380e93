/**
 Which errors the checksum of src/storage_engine_production.cpp can and cannot see: collisions
 in general, changes within a window of bytes, and a change that is never seen.
 */
module CrcErrors {
  import opened Linear
  import opened Words
  import opened Crc

  function Inputs(message: seq<Byte>): seq<Word> {
    seq(|message|, i requires 0 <= i < |message| => ShiftByte(Widen(message[i])))
  }

  lemma {:induction false} RegisterIsRun(c: Word, message: seq<Byte>)
    ensures Register(c, message) == Run(Xor, ShiftByte, c, Inputs(message))
    decreases |message|
  {
    if message != [] {
      ShiftByteIsLinear();
      assert Inputs(message)[1..] == Inputs(message[1..]);
      RegisterIsRun(ShiftByte(Xor(c, Widen(message[0]))), message[1..]);
    }
  }

  lemma {:induction false} RegisterSplit(c: Word, a: seq<Byte>, b: seq<Byte>)
    ensures Register(c, a + b) == Register(Register(c, a), b)
    decreases |a|
  {
    if a == [] {
      assert a + b == b;
    } else {
      assert (a + b)[1..] == a[1..] + b;
      RegisterSplit(ShiftByte(Xor(c, Widen(a[0]))), a[1..], b);
    }
  }

  /** The top three bits are clear. */
  predicate Narrow(c: Word) {
    !c[29] && !c[30] && !c[31]
  }

  lemma NarrowShift(c: Word)
    requires Narrow(c)
    ensures Narrow(ShiftBit(c)) && (ShiftBit(c) == ZERO <==> c == ZERO)
  {
    var d := ShiftBit(c);
    assert d[28] == (c[29] != c[0]);
    if !c[0] {
      assert forall i :: 1 <= i < 32 ==> c[i] == d[i - 1];
      if d == ZERO { SameBits(c, ZERO); }
      if c == ZERO { SameBits(d, ZERO); }
    }
  }

  /** The register effectively has 29 bits: among narrow registers a shift loses nothing. */
  lemma {:induction false} NarrowRegisterIsInjective(c: Word, n: nat)
    requires Narrow(c)
    ensures Iterate(ShiftBit, c, n) == ZERO <==> c == ZERO
    decreases n
  {
    if n != 0 {
      NarrowShift(c);
      NarrowRegisterIsInjective(ShiftBit(c), n - 1);
    }
  }

  lemma ThreeShiftsNarrow(c: Word)
    ensures Narrow(Iterate(ShiftBit, c, 3))
  {
    var d := ShiftBit(c);
    var e := ShiftBit(d);
    assert Iterate(ShiftBit, c, 3) == Iterate(ShiftBit, d, 2) == Iterate(ShiftBit, e, 1) == ShiftBit(e);
    assert !d[31] && !e[31] && !e[30];
  }

  /** A difference that survives three shifts survives for ever. */
  lemma VanishesWithinThree(c: Word, n: nat)
    requires n >= 3
    ensures Iterate(ShiftBit, c, n) == ZERO <==> Iterate(ShiftBit, c, 3) == ZERO
  {
    ThreeShiftsNarrow(c);
    IterateAdd(ShiftBit, c, 3, n - 3);
    NarrowRegisterIsInjective(Iterate(ShiftBit, c, 3), n - 3);
  }

  lemma {:induction false} BytesAreBits(c: Word, n: nat)
    ensures Iterate(ShiftByte, c, n) == Iterate(ShiftBit, c, 8 * n)
    decreases n
  {
    if n != 0 {
      BytesAreBits(ShiftByte(c), n - 1);
      IterateAdd(ShiftBit, c, 8, 8 * (n - 1));
    }
  }

  /** The bytes after the first reach the low end when the first has been shifted out. */
  lemma LaterBytes(w: seq<Byte>, later: Word)
    requires |w| <= 3 && later == seq(8, _ => false) + AsWord(w)[..24]
    ensures ShiftByte(later) == AsWord(w)
  {
    var rest := AsWord(w);
    ShiftClear(later, 8);
    forall i | 24 <= i < 32 ensures !rest[i] { AsWordClear(w, i); }
    SameBits(ShiftRight(later, 8), rest);
  }

  lemma ShiftByteDistributes(a: Word, b: Word)
    ensures ShiftByte(Xor(a, b)) == Xor(ShiftByte(a), ShiftByte(b))
  {
    ShiftByteIsLinear();
  }

  /** Feeding a few bytes equals mixing them in as one word and shifting all of them out. */
  lemma {:induction false} WindowIsWord(c: Word, w: seq<Byte>)
    requires |w| <= 4
    ensures Register(c, w) == Iterate(ShiftByte, Xor(c, AsWord(w)), |w|)
    decreases |w|
  {
    if w == [] {
      SameBits(Xor(c, ZERO), c);
    } else {
      var first := Widen(w[0]);
      var later: Word := seq(8, _ => false) + AsWord(w[1..])[..24];
      assert Xor(c, AsWord(w)) == Xor(Xor(c, first), later) by {
        SameBits(Xor(c, AsWord(w)), Xor(Xor(c, first), later));
      }
      LaterBytes(w[1..], later);
      ShiftByteDistributes(Xor(c, first), later);
      WindowIsWord(ShiftByte(Xor(c, first)), w[1..]);
    }
  }

  // ----- Collisions -----

  lemma Complement(x: Word, y: Word)
    ensures Xor(x, ONES) == Xor(y, ONES) <==> x == y
  {
    if Xor(x, ONES) == Xor(y, ONES) {
      assert forall i :: 0 <= i < 32 ==> x[i] != Xor(x, ONES)[i] && y[i] != Xor(y, ONES)[i];
      SameBits(x, y);
    }
  }

  lemma InputsMix(a: seq<Byte>, b: seq<Byte>)
    requires |a| == |b|
    ensures Inputs(XorBytes(a, b)) == Mix(Xor, Inputs(a), Inputs(b))
  {
    forall i | 0 <= i < |a| ensures Inputs(XorBytes(a, b))[i] == Mix(Xor, Inputs(a), Inputs(b))[i] {
      XorByteBits(a[i], b[i]);
      ShiftByteDistributes(Widen(a[i]), Widen(b[i]));
    }
  }

  lemma RunsOfMessages(c: Word, a: seq<Word>, b: seq<Word>)
    requires |a| == |b|
    ensures Run(Xor, ShiftByte, c, a) == Run(Xor, ShiftByte, c, b)
      <==> Run(Xor, ShiftByte, Xor(c, c), Mix(Xor, a, b)) == ZERO
  {
    XorIsXor();
    ShiftByteIsLinear();
    RunsEqualIff(Xor, ZERO, ShiftByte, c, c, a, b);
  }

  /** Exactly which messages of one length collide: those whose XOR leads a register that starts
      at zero back to zero. */
  lemma CollideIff(a: seq<Byte>, b: seq<Byte>)
    requires |a| == |b|
    ensures Checksum(a) == Checksum(b) <==> Register(ZERO, XorBytes(a, b)) == ZERO
  {
    RegisterIsRun(ONES, a);
    RegisterIsRun(ONES, b);
    RegisterIsRun(ZERO, XorBytes(a, b));
    InputsMix(a, b);
    SameBits(Xor(ONES, ONES), ZERO);
    RunsOfMessages(ONES, Inputs(a), Inputs(b));
    Complement(Register(ONES, a), Register(ONES, b));
  }

  // ----- Changes within a window -----

  function Zeros(n: nat): seq<Byte> {
    seq(n, _ => 0 as Byte)
  }

  lemma XorWithSelf(b: Byte)
    ensures XorByte(b, b) == 0
  {
    XorByteBits(b, b);
    SameBits(Xor(Widen(b), Widen(b)), ZERO);
    WidenZero();
    WidenInjective(XorByte(b, b), 0);
  }

  /** Zero bytes only move the register. */
  lemma {:induction false} RegisterZeros(c: Word, n: nat)
    ensures Register(c, Zeros(n)) == Iterate(ShiftByte, c, n)
    decreases n
  {
    if n != 0 {
      WidenZero();
      SameBits(Xor(c, Widen(0)), c);
      assert Zeros(n)[1..] == Zeros(n - 1);
      RegisterZeros(ShiftByte(c), n - 1);
    }
  }

  lemma {:induction false} ZeroStays(n: nat)
    ensures Iterate(ShiftByte, ZERO, n) == ZERO
    decreases n
  {
    if n != 0 {
      ShiftClear(ZERO, 8);
      SameBits(ShiftRight(ZERO, 8), ZERO);
      ZeroStays(n - 1);
    }
  }

  lemma ShiftedOut(x: Word, n: nat, m: nat)
    ensures Register(Iterate(ShiftByte, x, n), Zeros(m)) == Iterate(ShiftBit, x, 8 * (n + m))
  {
    RegisterZeros(Iterate(ShiftByte, x, n), m);
    IterateAdd(ShiftByte, x, n, m);
    BytesAreBits(x, n + m);
  }

  lemma LeadingZeros(k: nat, y: seq<Byte>)
    ensures Register(ZERO, Zeros(k) + y) == Register(ZERO, y)
  {
    RegisterSplit(ZERO, Zeros(k), y);
    RegisterZeros(ZERO, k);
    ZeroStays(k);
  }

  lemma WindowFromZero(w: seq<Byte>)
    requires |w| <= 4
    ensures Register(ZERO, w) == Iterate(ShiftByte, AsWord(w), |w|)
  {
    WindowIsWord(ZERO, w);
    SameBits(Xor(ZERO, AsWord(w)), AsWord(w));
  }

  lemma ZerosAfter(y: seq<Byte>, x: Word, n: nat, m: nat)
    requires Register(ZERO, y) == Iterate(ShiftByte, x, n)
    ensures Register(ZERO, y + Zeros(m)) == Iterate(ShiftBit, x, 8 * (n + m))
  {
    RegisterSplit(ZERO, y, Zeros(m));
    ShiftedOut(x, n, m);
  }

  lemma ShiftsVanishIff(r: Word, x: Word, n: nat)
    requires n >= 3 && r == Iterate(ShiftBit, x, n)
    ensures r == ZERO <==> Iterate(ShiftBit, x, 3) == ZERO
  {
    VanishesWithinThree(x, n);
  }

  lemma VanishesAmongZeros(k: nat, w: seq<Byte>, x: Word, n: nat, m: nat)
    requires n >= 1 && Register(ZERO, w) == Iterate(ShiftByte, x, n)
    ensures Register(ZERO, Zeros(k) + w + Zeros(m)) == ZERO <==> Iterate(ShiftBit, x, 3) == ZERO
  {
    LeadingZeros(k, w);
    ZerosAfter(Zeros(k) + w, x, n, m);
    ShiftsVanishIff(Register(ZERO, Zeros(k) + w + Zeros(m)), x, 8 * (n + m));
  }

  /** A window of bytes among zeros. */
  lemma WindowVanishesIff(k: nat, w: seq<Byte>, m: nat)
    requires 1 <= |w| <= 4
    ensures Register(ZERO, Zeros(k) + w + Zeros(m)) == ZERO <==> Iterate(ShiftBit, AsWord(w), 3) == ZERO
  {
    WindowFromZero(w);
    VanishesAmongZeros(k, w, AsWord(w), |w|, m);
  }

  lemma WindowXor(before: seq<Byte>, w: seq<Byte>, w': seq<Byte>, after: seq<Byte>)
    requires |w| == |w'|
    ensures XorBytes(before + w + after, before + w' + after) == Zeros(|before|) + XorBytes(w, w') + Zeros(|after|)
  {
    var a, b := before + w + after, before + w' + after;
    forall i | 0 <= i < |a| ensures XorBytes(a, b)[i] == (Zeros(|before|) + XorBytes(w, w') + Zeros(|after|))[i] {
      XorWithSelf(a[i]);
    }
  }

  /** Exactly which corruptions confined to a four-byte window go unseen: those whose
      XOR difference dies within three shifts.  The message around the window is arbitrary. */
  lemma BurstUndetectedIff(before: seq<Byte>, w: seq<Byte>, w': seq<Byte>, after: seq<Byte>)
    requires 1 <= |w| == |w'| <= 4
    ensures Checksum(before + w + after) == Checksum(before + w' + after)
      <==> Iterate(ShiftBit, Xor(AsWord(w), AsWord(w')), 3) == ZERO
  {
    CollideIff(before + w + after, before + w' + after);
    WindowXor(before, w, w', after);
    WindowVanishesIff(|before|, XorBytes(w, w'), |after|);
    AsWordLinear(w, w');
  }

  /** Every change of up to three adjacent bytes, anywhere in any message, changes the checksum. */
  lemma ShortBurstDetected(before: seq<Byte>, w: seq<Byte>, w': seq<Byte>, after: seq<Byte>)
    requires |w| == |w'| <= 3 && w != w'
    ensures Checksum(before + w + after) != Checksum(before + w' + after)
  {
    var d := Xor(AsWord(w), AsWord(w'));
    BurstUndetectedIff(before, w, w', after);
    forall i | 29 <= i < 32 ensures !d[i] {
      AsWordClear(w, i);
      AsWordClear(w', i);
    }
    NarrowRegisterIsInjective(d, 3);
    if d == ZERO {
      forall i | 0 <= i < 32 ensures AsWord(w)[i] == AsWord(w')[i] { assert !d[i]; }
      SameBits(AsWord(w), AsWord(w'));
      AsWordInjective(w, w');
    }
  }

  /** XORing the constant, moved up one bit and with the lowest bit set (the bytes 83 DE B8 3D),
      anywhere into any message is a corruption that the checksum cannot see: the class
      promises less than a 32-bit CRC. */
  lemma UnseenBurst(before: seq<Byte>, w: seq<Byte>, w': seq<Byte>, after: seq<Byte>)
    requires |w| == |w'| == 4 && Xor(AsWord(w), AsWord(w')) == [true] + POLY[..31]
    ensures Checksum(before + w + after) == Checksum(before + w' + after)
  {
    var d: Word := [true] + POLY[..31];
    SameBits(ShiftBit(d), ZERO);
    assert Iterate(ShiftBit, d, 3) == Iterate(ShiftBit, ShiftBit(d), 2);
    NarrowRegisterIsInjective(ZERO, 2);
    BurstUndetectedIff(before, w, w', after);
  }

  /** The bits of the bytes 83, DE, B8 and 3D. */
  function UnseenBits(): (r: seq<seq<bool>>)
    ensures |r| == 4 && |r[0]| == |r[1]| == |r[2]| == |r[3]| == 8
  {
    [[true, true, false, false, false, false, false, true],
     [false, true, true, true, true, false, true, true],
     [false, false, false, true, true, true, false, true],
     [true, false, true, true, true, true, false, false]]
  }

  lemma UnseenBytes()
    ensures Bits(0x83, 8) == UnseenBits()[0] && Bits(0xDE, 8) == UnseenBits()[1]
    ensures Bits(0xB8, 8) == UnseenBits()[2] && Bits(0x3D, 8) == UnseenBits()[3]
  {
    ByteBits(0x83, UnseenBits()[0]);
    ByteBits(0xDE, UnseenBits()[1]);
    ByteBits(0xB8, UnseenBits()[2]);
    ByteBits(0x3D, UnseenBits()[3]);
  }

  lemma PolyBits0()
    ensures POLY[0..8] == [true, false, false, false, false, false, true, false]
  {
    var p := POLY;
    assert p[0] && !p[1] && !p[2] && !p[3] && !p[4] && !p[5] && p[6] && !p[7];
  }

  lemma PolyBits1()
    ensures POLY[8..16] == [true, true, true, true, false, true, true, false]
  {
    var p := POLY;
    assert p[8] && p[9] && p[10] && p[11] && !p[12] && p[13] && p[14] && !p[15];
  }

  lemma PolyBits2()
    ensures POLY[16..24] == [false, false, true, true, true, false, true, true]
  {
    var p := POLY;
    assert !p[16] && !p[17] && p[18] && p[19] && p[20] && !p[21] && p[22] && p[23];
  }

  lemma PolyBits3()
    ensures POLY[24..32] == [false, true, true, true, true, false, false, false]
  {
    var p := POLY;
    assert !p[24] && p[25] && p[26] && p[27] && p[28] && !p[29] && !p[30] && !p[31];
  }

  /** The bytes of the constant are 41, 6F, DC and 1E. */
  lemma PolyIsTheConstant()
    ensures Bits(0x41, 8) == POLY[0..8] && Bits(0x6F, 8) == POLY[8..16]
    ensures Bits(0xDC, 8) == POLY[16..24] && Bits(0x1E, 8) == POLY[24..32]
  {
    PolyBits0();
    PolyBits1();
    PolyBits2();
    PolyBits3();
    ByteBits(0x41, POLY[0..8]);
    ByteBits(0x6F, POLY[8..16]);
    ByteBits(0xDC, POLY[16..24]);
    ByteBits(0x1E, POLY[24..32]);
  }

  lemma UnseenIsShiftedPoly()
    ensures UnseenBits()[0] + UnseenBits()[1] + UnseenBits()[2] + UnseenBits()[3] == [true] + POLY[..31]
  {
    PolyBits0();
    PolyBits1();
    PolyBits2();
    PolyBits3();
    ShiftedBits(POLY, POLY[0..8], POLY[8..16], POLY[16..24], POLY[24..32]);
    var k := UnseenBits();
    assert k[0] == [true] + POLY[0..8][..7];
    assert k[1] == [POLY[0..8][7]] + POLY[8..16][..7];
    assert k[2] == [POLY[8..16][7]] + POLY[16..24][..7];
    assert k[3] == [POLY[16..24][7]] + POLY[24..32][..7];
  }

  lemma ShiftedBits(w: Word, a: seq<bool>, b: seq<bool>, c: seq<bool>, d: seq<bool>)
    requires a == w[0..8] && b == w[8..16] && c == w[16..24] && d == w[24..32]
    ensures [true] + w[..31] == ([true] + a[..7]) + ([a[7]] + b[..7]) + ([b[7]] + c[..7]) + ([c[7]] + d[..7])
  {
    assert a == a[..7] + [a[7]] && b == b[..7] + [b[7]] && c == c[..7] + [c[7]];
    assert w[..31] == a + b + c + d[..7];
  }

  /** Such bytes, concretely: the checksum of any message with four zero bytes in it is that of
      the same message with 83 DE B8 3D in their place. */
  lemma ZerosCollide(before: seq<Byte>, after: seq<Byte>)
    ensures Checksum(before + [0, 0, 0, 0] + after) == Checksum(before + [0x83, 0xDE, 0xB8, 0x3D] + after)
  {
    var w: seq<Byte>, w': seq<Byte> := [0, 0, 0, 0], [0x83, 0xDE, 0xB8, 0x3D];
    ConcreteWords(w, w');
    UnseenBurst(before, w, w', after);
  }

  lemma ConcreteWords(w: seq<Byte>, w': seq<Byte>)
    requires w == [0, 0, 0, 0] && w' == [0x83, 0xDE, 0xB8, 0x3D]
    ensures Xor(AsWord(w), AsWord(w')) == [true] + POLY[..31]
  {
    UnseenBytes();
    ByteBits(0, ZERO[..8]);
    WordFromBits(w, w', UnseenBits()[0], UnseenBits()[1], UnseenBits()[2], UnseenBits()[3]);
    UnseenIsShiftedPoly();
  }

  lemma WordFromBits(w: seq<Byte>, w': seq<Byte>, k0: seq<bool>, k1: seq<bool>, k2: seq<bool>, k3: seq<bool>)
    requires w == [0, 0, 0, 0] && Bits(0, 8) == ZERO[..8] && |w'| == 4 && |k0| == |k1| == |k2| == |k3| == 8
    requires Bits(w'[0] as nat, 8) == k0 && Bits(w'[1] as nat, 8) == k1
    requires Bits(w'[2] as nat, 8) == k2 && Bits(w'[3] as nat, 8) == k3
    ensures Xor(AsWord(w), AsWord(w')) == k0 + k1 + k2 + k3
  {
    var kernel: Word := k0 + k1 + k2 + k3;
    assert kernel[..8] == k0 && kernel[8..16] == k1;
    assert kernel[16..24] == k2 && kernel[24..] == k3;
    FourBytes(w', kernel);
    FourBytes(w, ZERO);
    SameBits(Xor(ZERO, kernel), kernel);
  }

  function Bit(b: bool): nat { if b then 1 else 0 }

  lemma ByteBits(b: Byte, s: seq<bool>)
    requires |s| == 8
    requires Bit(s[0]) + 2 * Bit(s[1]) + 4 * Bit(s[2]) + 8 * Bit(s[3])
           + 16 * Bit(s[4]) + 32 * Bit(s[5]) + 64 * Bit(s[6]) + 128 * Bit(s[7]) == b as nat
    ensures Bits(b as nat, 8) == s
  {
    FourBits(s[4..], []);
    FourBits(s, s[4..]);
    assert s[..4] + s[4..] == s && s[4..][..4] + [] == s[4..];
    BitsOfNumber(s);
  }

  lemma FourBits(s: seq<bool>, rest: seq<bool>)
    requires |s| >= 4
    ensures Number(s[..4] + rest) == Bit(s[0]) + 2 * Bit(s[1]) + 4 * Bit(s[2]) + 8 * Bit(s[3]) + 16 * Number(rest)
  {
    var t := s[..4] + rest;
    assert t[1..][1..][1..][1..] == rest;
    assert Number(t) == Bit(s[0]) + 2 * Number(t[1..]);
    assert Number(t[1..]) == Bit(s[1]) + 2 * Number(t[1..][1..]);
    assert Number(t[1..][1..]) == Bit(s[2]) + 2 * Number(t[1..][1..][1..]);
    assert Number(t[1..][1..][1..]) == Bit(s[3]) + 2 * Number(rest);
  }

  lemma {:induction false} AsWordBit(w: seq<Byte>, k: nat, i: nat)
    requires k < |w| <= 4 && i < 8
    ensures AsWord(w)[8 * k + i] == Bits(w[k] as nat, 8)[i]
    decreases k
  {
    if k > 0 {
      AsWordBit(w[1..], k - 1, i);
      assert AsWord(w)[8 * k + i] == AsWord(w[1..])[8 * (k - 1) + i];
    }
  }

  lemma OneByte(w: seq<Byte>, k: nat, r: Word)
    requires k < |w| <= 4 && Bits(w[k] as nat, 8) == r[8 * k..8 * k + 8]
    ensures forall j :: 8 * k <= j < 8 * k + 8 ==> AsWord(w)[j] == r[j]
  {
    forall j | 8 * k <= j < 8 * k + 8 ensures AsWord(w)[j] == r[j] {
      AsWordBit(w, k, j - 8 * k);
      assert r[8 * k..8 * k + 8][j - 8 * k] == r[j];
    }
  }

  lemma FourBytes(w: seq<Byte>, r: Word)
    requires |w| == 4
    requires Bits(w[0] as nat, 8) == r[..8] && Bits(w[1] as nat, 8) == r[8..16]
    requires Bits(w[2] as nat, 8) == r[16..24] && Bits(w[3] as nat, 8) == r[24..]
    ensures AsWord(w) == r
  {
    OneByte(w, 0, r);
    OneByte(w, 1, r);
    OneByte(w, 2, r);
    OneByte(w, 3, r);
    SameBits(AsWord(w), r);
  }
}
