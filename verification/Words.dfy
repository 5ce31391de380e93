/**
 Bytes and 32-bit words.

 A uint32_t is the sequence of its bits, lowest first, so that shifts are slices and XOR
 is taken bit by bit; a uint8_t is a number below 256.
 */
module Words {
  import opened Linear

  newtype Byte = n: int | 0 <= n < 256

  type Word = w: seq<bool> | |w| == 32 witness seq(32, _ => false)

  function Fill(b: bool): (r: Word)
    ensures forall i :: 0 <= i < 32 ==> r[i] == b
  {
    seq(32, _ => b)
  }

  /** 0 and 0xFFFFFFFF. */
  const ZERO: Word := Fill(false)
  const ONES: Word := Fill(true)

  function Xor(a: Word, b: Word): (r: Word)
    ensures forall i :: 0 <= i < 32 ==> r[i] == (a[i] != b[i])
  {
    seq(32, i requires 0 <= i < 32 => a[i] != b[i])
  }

  lemma SameBits(a: Word, b: Word)
    requires forall i :: 0 <= i < 32 ==> a[i] == b[i]
    ensures a == b
  {
  }

  /** Bitwise XOR meets the laws that the shift-register theory asks for. */
  lemma XorIsXor()
    ensures IsXor(Xor, ZERO)
  {
    forall x: Word, y: Word, z: Word ensures Xor(Xor(x, y), z) == Xor(x, Xor(y, z)) {
      SameBits(Xor(Xor(x, y), z), Xor(x, Xor(y, z)));
    }
    forall x: Word, y: Word ensures Xor(x, y) == Xor(y, x) { SameBits(Xor(x, y), Xor(y, x)); }
    forall x: Word ensures Xor(x, ZERO) == x { SameBits(Xor(x, ZERO), x); }
    forall x: Word ensures Xor(x, x) == ZERO { SameBits(Xor(x, x), ZERO); }
  }

  /** w << 1 and w >> n in 32 bits. */
  function ShiftLeft(w: Word): Word { [false] + w[..31] }

  function ShiftRight(w: Word, n: nat): Word
    requires n <= 32
  {
    w[n..] + seq(n, _ => false)
  }

  lemma ShiftMeans(w: Word, n: nat, i: nat)
    requires n <= 32 && i < 32
    ensures ShiftLeft(w)[i] == (i > 0 && w[i - 1])
    ensures ShiftRight(w, n)[i] == (i + n < 32 && w[i + n])
  {
  }

  // ----- Numbers and bits -----

  /** The low k bits of n, lowest first. */
  function Bits(n: nat, k: nat): (r: seq<bool>)
    ensures |r| == k
    decreases k, n
  {
    if k == 0 then [] else [n % 2 == 1] + Bits(n / 2, k - 1)
  }

  function Number(bits: seq<bool>): nat {
    if bits == [] then 0 else (if bits[0] then 1 else 0) + 2 * Number(bits[1..])
  }

  function Power2(k: nat): nat { if k == 0 then 1 else 2 * Power2(k - 1) }

  lemma {:induction false} NumberBelow(bits: seq<bool>)
    ensures Number(bits) < Power2(|bits|)
  {
    if bits != [] { NumberBelow(bits[1..]); }
  }

  lemma {:induction false} BitsOfNumber(bits: seq<bool>)
    ensures Bits(Number(bits), |bits|) == bits
  {
    if bits != [] {
      BitsOfNumber(bits[1..]);
      assert Number(bits) / 2 == Number(bits[1..]);
    }
  }

  lemma {:induction false} NumberOfBits(n: nat, k: nat)
    requires n < Power2(k)
    ensures Number(Bits(n, k)) == n
    decreases k
  {
    if k != 0 {
      NumberOfBits(n / 2, k - 1);
      assert Bits(n, k)[1..] == Bits(n / 2, k - 1);
    }
  }

  lemma EightBits()
    ensures Power2(8) == 256
  {
    assert Power2(4) == 16;
    assert Power2(8) == 2 * (2 * (2 * (2 * Power2(4))));
  }

  function One(b: bool): nat { if b then 1 else 0 }

  /** Which bits a byte has. */
  lemma ByteOfBits(b: seq<bool>)
    requires |b| == 8
    ensures Bits(One(b[0]) + 2 * One(b[1]) + 4 * One(b[2]) + 8 * One(b[3])
               + 16 * One(b[4]) + 32 * One(b[5]) + 64 * One(b[6]) + 128 * One(b[7]), 8) == b
  {
    FourBits(b);
    FourBits(b[4..]);
    BitsOfNumber(b);
  }

  lemma FourBits(b: seq<bool>)
    requires |b| >= 4
    ensures Number(b) == One(b[0]) + 2 * One(b[1]) + 4 * One(b[2]) + 8 * One(b[3]) + 16 * Number(b[4..])
  {
    assert b[1..][1..] == b[2..] && b[2..][1..] == b[3..] && b[3..][1..] == b[4..];
    assert Number(b[1..]) == One(b[1]) + 2 * Number(b[2..]);
    assert Number(b[2..]) == One(b[2]) + 2 * Number(b[3..]);
    assert Number(b[3..]) == One(b[3]) + 2 * Number(b[4..]);
  }

  /** A byte in the low end of a word, as the implicit conversion to uint32_t gives it. */
  function Widen(b: Byte): Word {
    Bits(b as nat, 8) + seq(24, _ => false)
  }

  /** (uint8_t) w: the low eight bits. */
  function LowByte(w: Word): Byte {
    (Number(w[..8]) % 256) as Byte
  }

  lemma LowByteBits(w: Word)
    ensures Bits(LowByte(w) as nat, 8) == w[..8]
  {
    var low := w[..8];
    assert Number(low) % 256 == Number(low) by { NumberBelow(low); EightBits(); }
    BitsOfNumber(low);
  }

  lemma WidenZero()
    ensures Widen(0) == ZERO
  {
    forall i | 0 <= i < 8 ensures !Bits(0, 8)[i] { ZeroBits(8, i); }
    SameBits(Widen(0), ZERO);
  }

  lemma {:induction false} ZeroBits(k: nat, i: nat)
    requires i < k
    ensures !Bits(0, k)[i]
    decreases k
  {
    if i > 0 { ZeroBits(k - 1, i - 1); }
  }

  lemma WidenInjective(a: Byte, b: Byte)
    requires Widen(a) == Widen(b)
    ensures a == b
  {
    EightBits();
    assert Bits(a as nat, 8) == Widen(a)[..8] == Widen(b)[..8] == Bits(b as nat, 8);
    NumberOfBits(a as nat, 8);
    NumberOfBits(b as nat, 8);
  }

  // ----- Bytes in a word -----

  /** a ^ b on bytes, and on byte strings. */
  function XorByte(a: Byte, b: Byte): Byte {
    LowByte(Xor(Widen(a), Widen(b)))
  }

  lemma XorByteBits(a: Byte, b: Byte)
    ensures Widen(XorByte(a, b)) == Xor(Widen(a), Widen(b))
  {
    var w := Xor(Widen(a), Widen(b));
    LowByteBits(w);
    SameBits(Widen(XorByte(a, b)), w);
  }

  function XorBytes(a: seq<Byte>, b: seq<Byte>): (r: seq<Byte>)
    requires |a| == |b|
    ensures |r| == |a| && forall i :: 0 <= i < |r| ==> r[i] == XorByte(a[i], b[i])
  {
    seq(|a|, i requires 0 <= i < |a| => XorByte(a[i], b[i]))
  }

  /** Up to four bytes as one word, first byte lowest. */
  function AsWord(w: seq<Byte>): Word
    requires |w| <= 4
  {
    if w == [] then ZERO else Bits(w[0] as nat, 8) + AsWord(w[1..])[..24]
  }

  lemma AsWordBytes(a: Byte, b: Byte, c: Byte, d: Byte)
    ensures AsWord([a, b, c, d]) == Bits(a as nat, 8) + Bits(b as nat, 8) + Bits(c as nat, 8) + Bits(d as nat, 8)
  {
    assert [a, b, c, d][1..] == [b, c, d] && [b, c, d][1..] == [c, d] && [c, d][1..] == [d];
    assert AsWord([d])[..8] == Bits(d as nat, 8);
    assert AsWord([c, d])[..16] == Bits(c as nat, 8) + Bits(d as nat, 8);
    assert AsWord([b, c, d])[..24] == Bits(b as nat, 8) + Bits(c as nat, 8) + Bits(d as nat, 8);
  }

  lemma {:induction false} AsWordClear(w: seq<Byte>, i: nat)
    requires |w| <= 4 && 8 * |w| <= i < 32
    ensures !AsWord(w)[i]
    decreases |w|
  {
    if w != [] { AsWordClear(w[1..], i - 8); }
  }

  lemma {:induction false} AsWordInjective(w: seq<Byte>, w': seq<Byte>)
    requires |w| == |w'| <= 4 && AsWord(w) == AsWord(w')
    ensures w == w'
    decreases |w|
  {
    if w != [] {
      var r, r' := AsWord(w[1..]), AsWord(w'[1..]);
      assert Bits(w[0] as nat, 8) == AsWord(w)[..8] == AsWord(w')[..8] == Bits(w'[0] as nat, 8);
      WidenInjective(w[0], w'[0]);
      forall i | 0 <= i < 32 ensures r[i] == r'[i] {
        if i < 24 {
          assert r[i] == AsWord(w)[8 + i] == AsWord(w')[8 + i] == r'[i];
        } else {
          AsWordClear(w[1..], i);
          AsWordClear(w'[1..], i);
        }
      }
      SameBits(r, r');
      AsWordInjective(w[1..], w'[1..]);
    }
  }

  lemma {:induction false} AsWordLinear(a: seq<Byte>, b: seq<Byte>)
    requires |a| == |b| <= 4
    ensures AsWord(XorBytes(a, b)) == Xor(AsWord(a), AsWord(b))
    decreases |a|
  {
    if a == [] {
      SameBits(Xor(ZERO, ZERO), ZERO);
    } else {
      var r := XorBytes(a, b);
      assert r[1..] == XorBytes(a[1..], b[1..]);
      AsWordLinear(a[1..], b[1..]);
      XorByteBits(a[0], b[0]);
      assert Bits(r[0] as nat, 8) == Widen(r[0])[..8];
      SameBits(AsWord(r), Xor(AsWord(a), AsWord(b)));
    }
  }

  // ----- Little-endian integers -----

  /** The lowest k bytes of n, lowest first. */
  function LittleEndian(n: nat, k: nat): (r: seq<Byte>)
    ensures |r| == k
    decreases k, n
  {
    if k == 0 then [] else [(n % 256) as Byte] + LittleEndian(n / 256, k - 1)
  }

  function FromLittleEndian(b: seq<Byte>): nat {
    if b == [] then 0 else b[0] as nat + 256 * FromLittleEndian(b[1..])
  }

  function Power256(k: nat): (r: nat)
    ensures r > 0
  {
    if k == 0 then 1 else 256 * Power256(k - 1)
  }

  lemma {:induction false} LittleEndianBelow(b: seq<Byte>)
    ensures FromLittleEndian(b) < Power256(|b|)
  {
    if b != [] { LittleEndianBelow(b[1..]); }
  }

  lemma {:induction false} LittleEndianRoundTrip(n: nat, k: nat)
    requires n < Power256(k)
    ensures FromLittleEndian(LittleEndian(n, k)) == n
    decreases k
  {
    if k != 0 {
      LittleEndianRoundTrip(n / 256, k - 1);
      assert LittleEndian(n, k)[1..] == LittleEndian(n / 256, k - 1);
    }
  }

  /** Which two bytes, and which four, a number has. */
  lemma TwoBytes(a: Byte, b: Byte)
    ensures LittleEndian(a as nat + 0x100 * b as nat, 2) == [a, b]
    ensures FromLittleEndian([a, b]) == a as nat + 0x100 * b as nat
  {
    FirstByte(a, b as nat, 1);
    FirstByte(b, 0, 0);
    FromFirstByte(a, [b]);
    FromFirstByte(b, []);
  }

  lemma FourBytes(a: Byte, b: Byte, c: Byte, d: Byte)
    ensures LittleEndian(a as nat + 0x100 * b as nat + 0x1_0000 * c as nat + 0x100_0000 * d as nat, 4) == [a, b, c, d]
    ensures FromLittleEndian([a, b, c, d])
         == a as nat + 0x100 * b as nat + 0x1_0000 * c as nat + 0x100_0000 * d as nat
  {
    TwoBytes(c, d);
    var high := c as nat + 0x100 * d as nat;
    FirstByte(a, b as nat + 0x100 * high, 3);
    FirstByte(b, high, 2);
    FromFirstByte(a, [b, c, d]);
    FromFirstByte(b, [c, d]);
  }

  lemma FirstByte(a: Byte, n: nat, k: nat)
    ensures LittleEndian(a as nat + 0x100 * n, k + 1) == [a] + LittleEndian(n, k)
  {
    var m := a as nat + 0x100 * n;
    assert m % 256 == a as nat && m / 256 == n;
  }

  lemma FromFirstByte(a: Byte, b: seq<Byte>)
    ensures FromLittleEndian([a] + b) == a as nat + 0x100 * FromLittleEndian(b)
  {
  }

  lemma IntegerWidths()
    ensures Power256(2) == 0x1_0000 && Power256(4) == 0x1_0000_0000
  {
    assert Power256(2) == 256 * (256 * Power256(0));
  }
}
