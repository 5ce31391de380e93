/**
 The table-driven checksum of src/storage_engine_production.cpp (class CRC32C).

 The class fills a 256-entry table once and then consumes a byte per step.  It is
 proved here to compute the bit-at-a-time shift-and-XOR checksum with the same
 constant.  The constant is kept exactly as the source has it; no conformance to any published
 CRC is claimed.
 */
module Crc {
  import opened Linear
  import opened Words

  /** CRC32C_POLY, 0x1EDC6F41, lowest bit first. */
  const POLY: Word :=
    [
     true, false, false, false, false, false, true, false,
     true, true, true, true, false, true, true, false,
     false, false, true, true, true, false, true, true,
     false, true, true, true, true, false, false, false
    ]

  // ----- Reference: one bit at a time -----

  /** One shift of the register: the outgoing bit decides whether the constant is mixed in. */
  function ShiftBit(c: Word): Word {
    if c[0] then Xor(ShiftRight(c, 1), POLY) else ShiftRight(c, 1)
  }

  function ShiftByte(c: Word): Word {
    Iterate(ShiftBit, c, 8)
  }

  /** The register after the message, one bit at a time: each byte is mixed into the low
      end and shifted out bit by bit. */
  function Register(c: Word, message: seq<Byte>): Word
    decreases |message|
  {
    if message == [] then c
    else Register(ShiftByte(Xor(c, Widen(message[0]))), message[1..])
  }

  /** The bit-at-a-time checksum. */
  function Checksum(message: seq<Byte>): Word {
    Xor(Register(ONES, message), ONES)
  }

  // ----- The register is linear -----

  lemma ShiftBitIsLinear()
    ensures IsLinear(Xor, ShiftBit)
  {
    forall a: Word, b: Word ensures ShiftBit(Xor(a, b)) == Xor(ShiftBit(a), ShiftBit(b)) {
      SameBits(ShiftBit(Xor(a, b)), Xor(ShiftBit(a), ShiftBit(b)));
    }
  }

  lemma ShiftByteIsLinear()
    ensures IsLinear(Xor, ShiftByte)
  {
    forall a: Word, b: Word ensures ShiftByte(Xor(a, b)) == Xor(ShiftByte(a), ShiftByte(b)) {
      ShiftBitIsLinear();
      IterateLinear(Xor, ShiftBit, a, b, 8);
    }
  }

  /** While the outgoing bits are clear, the register just moves right. */
  lemma {:induction false} ShiftClear(c: Word, n: nat)
    requires n <= 32 && forall i :: 0 <= i < n ==> !c[i]
    ensures Iterate(ShiftBit, c, n) == ShiftRight(c, n)
    decreases n
  {
    if n == 0 {
      assert ShiftRight(c, 0) == c;
    } else {
      var d := ShiftBit(c);
      assert d == ShiftRight(c, 1);
      ShiftClear(d, n - 1);
      assert ShiftRight(d, n - 1) == ShiftRight(c, n);
    }
  }

  /** Eight shifts split into a part that depends on the low byte only and a plain move:
      the identity behind the table. */
  lemma ShiftByteSplits(c: Word)
    ensures ShiftByte(c) == Xor(ShiftByte(Widen(LowByte(c))), ShiftRight(c, 8))
  {
    var low := Widen(LowByte(c));
    var high: Word := seq(8, _ => false) + c[8..];
    LowByteBits(c);
    SameBits(c, Xor(low, high));
    ShiftByteIsLinear();
    ShiftClear(high, 8);
    assert ShiftRight(high, 8) == ShiftRight(c, 8);
  }

  lemma ConsumeSplits(c: Word, b: Byte)
    ensures ShiftByte(Xor(c, Widen(b)))
         == Xor(ShiftByte(Widen(LowByte(Xor(c, Widen(b))))), ShiftRight(c, 8))
  {
    ShiftByteSplits(Xor(c, Widen(b)));
    SameBits(ShiftRight(Xor(c, Widen(b)), 8), ShiftRight(c, 8));
  }

  // ----- What the checksum is -----

  /** One shift, bit by bit; eight of them shift a byte out. */
  lemma ShiftMeans(c: Word, i: nat)
    requires i < 32
    ensures ShiftBit(c)[i] == ((i < 31 && c[i + 1]) != (c[0] && POLY[i]))
    ensures ShiftByte(c) == ShiftBit(ShiftBit(ShiftBit(ShiftBit(ShiftBit(ShiftBit(ShiftBit(ShiftBit(c))))))))
  {
    var d := ShiftBit(ShiftBit(ShiftBit(ShiftBit(c))));
    FourShifts(c, 4);
    FourShifts(d, 0);
  }

  lemma FourShifts(c: Word, n: nat)
    ensures Iterate(ShiftBit, c, n + 4) == Iterate(ShiftBit, ShiftBit(ShiftBit(ShiftBit(ShiftBit(c)))), n)
  {
    var c1 := ShiftBit(c);
    var c2 := ShiftBit(c1);
    var c3 := ShiftBit(c2);
    assert Iterate(ShiftBit, c1, n + 3) == Iterate(ShiftBit, c2, n + 2) == Iterate(ShiftBit, c3, n + 1);
  }

  lemma {:induction false} RegisterAppend(c: Word, message: seq<Byte>, b: Byte)
    ensures Register(c, message + [b]) == ShiftByte(Xor(Register(c, message), Widen(b)))
    decreases |message|
  {
    if message == [] {
      assert [b][1..] == [];
    } else {
      assert (message + [b])[1..] == message[1..] + [b];
      RegisterAppend(ShiftByte(Xor(c, Widen(message[0]))), message[1..], b);
    }
  }

  /** Nothing has checksum zero; one more byte undoes the final inversion, mixes the byte in,
      shifts it out and inverts again. */
  lemma ChecksumMeans(message: seq<Byte>, b: Byte)
    ensures Checksum([]) == ZERO
    ensures Checksum(message + [b]) == Xor(ShiftByte(Xor(Xor(Checksum(message), ONES), Widen(b))), ONES)
  {
    SameBits(Checksum([]), ZERO);
    RegisterAppend(ONES, message, b);
    SameBits(Xor(Checksum(message), ONES), Register(ONES, message));
  }

  /** The byte 0xFF has checksum 0xFF000000: the constant never enters. */
  lemma OnesChecksum(i: nat)
    requires i < 32
    ensures Checksum([255])[i] == (i >= 24)
  {
    ByteOfBits([true, true, true, true, true, true, true, true]);
    assert [255 as Byte][1..] == [];
    ShiftClear(Xor(ONES, Widen(255)), 8);
  }

  /** The byte 0x7F has checksum 0xE1DC6F41: the constant enters once, so that the low 24 bits
      are its own and the others are inverted. */
  lemma SevenBitsChecksum(i: nat)
    requires i < 32
    ensures Checksum([127])[i] == (if i < 24 then POLY[i] else !POLY[i])
  {
    ByteOfBits([true, true, true, true, true, true, true, false]);
    assert [127 as Byte][1..] == [];
    var c := Xor(ONES, Widen(127));
    IterateAdd(ShiftBit, c, 7, 1);
    ShiftClear(c, 7);
    assert ShiftRight(c, 7)[0] == c[7];
  }

  // ----- The class -----

  /** The first n table entries: entry b holds the register that byte b shifts out to. */
  function Table(n: nat): (t: seq<Word>)
    requires n <= 256
    ensures |t| == n
  {
    if n == 0 then [] else Table(n - 1) + [ShiftByte(Widen((n - 1) as Byte))]
  }

  lemma {:induction false} TableEntry(n: nat, b: Byte)
    requires b as nat < n <= 256
    ensures Table(n)[b as nat] == ShiftByte(Widen(b))
  {
    if b as nat < n - 1 { TableEntry(n - 1, b); }
  }

  class CRC32C {
    var table: array<Word>
    var initialized: bool

    ghost predicate Valid()
      reads this, table
    {
      table.Length == 256 && (initialized ==> table[..] == Table(256))
    }

    constructor ()
      ensures Valid() && !initialized && fresh(table)
    {
      table := new Word[256](_ => ZERO);
      initialized := false;
    }

    method Initialize()
      requires Valid()
      modifies this`initialized, table
      ensures Valid() && initialized
    {
      if initialized { return; }   // std::call_once
      for i := 0 to 256
        invariant table.Length == 256
        invariant table[..i] == Table(i)
      {
        var crc := ShiftOut(Widen(i as Byte));
        table[i] := crc;
        assert table[..i + 1] == table[..i] + [crc];
      }
      assert table[..] == table[..256];
      initialized := true;
    }

    /** The inner loop: eight shifts. */
    static method ShiftOut(start: Word) returns (crc: Word)
      ensures crc == ShiftByte(start)
    {
      crc := start;
      for j := 0 to 8
        invariant Iterate(ShiftBit, crc, 8 - j) == ShiftByte(start)
      {
        if crc[0] {
          crc := Xor(ShiftRight(crc, 1), POLY);
        } else {
          crc := ShiftRight(crc, 1);
        }
      }
    }

    /** The byte-at-a-time result is the bit-at-a-time checksum, for every message. */
    method Calculate(data: seq<Byte>) returns (crc: Word)
      requires Valid()
      modifies this`initialized, table
      ensures Valid()
      ensures crc == Checksum(data)
    {
      if !initialized { Initialize(); }
      crc := ONES;
      for i := 0 to |data|
        invariant Valid() && initialized
        invariant Register(crc, data[i..]) == Register(ONES, data)
      {
        crc := Consume(crc, data[i]);
      }
      crc := Xor(crc, ONES);
    }

    /** One table lookup does eight shifts. */
    method Consume(crc: Word, b: Byte) returns (next: Word)
      requires Valid() && initialized
      ensures next == ShiftByte(Xor(crc, Widen(b)))
    {
      var mixed := Xor(crc, Widen(b));
      ConsumeSplits(crc, b);
      TableEntry(256, LowByte(mixed));
      assert table[LowByte(mixed) as int] == Table(256)[LowByte(mixed) as int];
      next := Xor(table[LowByte(mixed) as int], ShiftRight(crc, 8));
    }

    method Verify(data: seq<Byte>, expected: Word) returns (ok: bool)
      requires Valid()
      modifies this`initialized, table
      ensures Valid()
      ensures ok <==> Checksum(data) == expected
    {
      var crc := Calculate(data);
      ok := crc == expected;
    }
  }
}
