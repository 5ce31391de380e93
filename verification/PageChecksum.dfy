/**
 The checksum of a page in src/storage_complete.cpp, what it detects, and the class that keeps
 a page in an array.
 */
module PageChecksum {
  import opened Words
  import opened Linear
  import opened Page

  function Inputs(b: Bytes): seq<Word> {
    seq(|b|, i requires 0 <= i < |b| => Widen(b[i]))
  }

  /** All bytes but those of the checksum field. */
  function Body(p: Bytes): Bytes
    requires |p| == PAGE_SIZE
  {
    p[..12] + p[16..]
  }

  /** compute_checksum: shift left, XOR the next byte in. */
  function PageSum(p: Bytes): Word
    requires |p| == PAGE_SIZE
  {
    Run(Xor, ShiftLeft, ZERO, Inputs(Body(p)))
  }

  /** The stored checksum is the computed one: what deserialize answers. */
  predicate Accepts(p: Bytes)
    requires |p| == PAGE_SIZE
  {
    AsWord(p[12..16]) == PageSum(p)
  }

  // ----- The register -----

  lemma ShiftLeftIsLinear()
    ensures IsLinear(Xor, ShiftLeft)
  {
    forall a: Word, b: Word ensures ShiftLeft(Xor(a, b)) == Xor(ShiftLeft(a), ShiftLeft(b)) {
      SameBits(ShiftLeft(Xor(a, b)), Xor(ShiftLeft(a), ShiftLeft(b)));
    }
  }

  lemma {:induction false} ShiftedLeft(w: Word, n: nat, i: nat)
    requires i < 32
    ensures Iterate(ShiftLeft, w, n)[i] == (i >= n && w[i - n])
    decreases n
  {
    if n != 0 {
      ShiftedLeft(ShiftLeft(w), n - 1, i);
    }
  }

  /** n shifts clear a word exactly when all its set bits lie within n of the top. */
  lemma ShiftedOutIff(w: Word, n: nat)
    ensures Iterate(ShiftLeft, w, n) == ZERO <==> forall i :: 0 <= i < 32 && w[i] ==> i + n >= 32
  {
    var r := Iterate(ShiftLeft, w, n);
    forall i | 0 <= i < 32 ensures r[i] == (i >= n && w[i - n]) { ShiftedLeft(w, n, i); }
    assert forall i :: 0 <= i < 32 - n ==> w[i] == r[i + n];
    if forall i :: 0 <= i < 32 && w[i] ==> i + n >= 32 {
      SameBits(r, ZERO);
    }
  }

  /** Sums of two runs of bytes with a common end, starting from any registers. */
  lemma SumsAgreeIff(a: Bytes, b: Bytes, end: Bytes)
    ensures var ra, rb := Run(Xor, ShiftLeft, ZERO, Inputs(a)), Run(Xor, ShiftLeft, ZERO, Inputs(b));
      Run(Xor, ShiftLeft, ZERO, Inputs(a + end)) == Run(Xor, ShiftLeft, ZERO, Inputs(b + end))
      <==> forall i :: 0 <= i < 32 && Xor(ra, rb)[i] ==> i + |end| >= 32
  {
    var ra, rb := Run(Xor, ShiftLeft, ZERO, Inputs(a)), Run(Xor, ShiftLeft, ZERO, Inputs(b));
    assert Inputs(a + end) == Inputs(a) + Inputs(end) && Inputs(b + end) == Inputs(b) + Inputs(end);
    RunSplit(Xor, ShiftLeft, ZERO, Inputs(a), Inputs(end));
    RunSplit(Xor, ShiftLeft, ZERO, Inputs(b), Inputs(end));
    XorIsXor();
    ShiftLeftIsLinear();
    RunEqualIff(Xor, ZERO, ShiftLeft, ra, rb, Inputs(end));
    ShiftedOutIff(Xor(ra, rb), |end|);
  }

  /** The checksum depends on the last 32 bytes only. */
  lemma OnlyTheEndCounts(p: Bytes, q: Bytes)
    requires |p| == |q| == PAGE_SIZE && p[PAGE_SIZE - 32..] == q[PAGE_SIZE - 32..]
    ensures PageSum(p) == PageSum(q)
  {
    var end := p[PAGE_SIZE - 32..];
    var a, b := p[..12] + p[16..PAGE_SIZE - 32], q[..12] + q[16..PAGE_SIZE - 32];
    assert Body(p) == a + end && Body(q) == b + end;
    SumsAgreeIff(a, b, end);
  }

  // ----- One changed byte -----

  /** Every bit in which the two bytes differ lies within n of the top of a word. */
  ghost predicate ShiftedOut(a: Byte, b: Byte, n: nat) {
    forall i :: 0 <= i < 32 && Xor(Widen(a), Widen(b))[i] ==> i + n >= 32
  }

  lemma OneByteSums(before: Bytes, a: Byte, b: Byte, end: Bytes)
    ensures Run(Xor, ShiftLeft, ZERO, Inputs(before + [a] + end))
         == Run(Xor, ShiftLeft, ZERO, Inputs(before + [b] + end))
      <==> ShiftedOut(a, b, |end|)
  {
    SumsAgreeIff(before + [a], before + [b], end);
    var r := Run(Xor, ShiftLeft, ZERO, Inputs(before));
    LastByte(before, a);
    LastByte(before, b);
    var d := Xor(Xor(ShiftLeft(r), Widen(a)), Xor(ShiftLeft(r), Widen(b)));
    SameBits(d, Xor(Widen(a), Widen(b)));
  }

  lemma LastByte(before: Bytes, a: Byte)
    ensures Run(Xor, ShiftLeft, ZERO, Inputs(before + [a]))
         == Xor(ShiftLeft(Run(Xor, ShiftLeft, ZERO, Inputs(before))), Widen(a))
  {
    assert Inputs(before + [a]) == Inputs(before) + [Widen(a)];
    RunSplit(Xor, ShiftLeft, ZERO, Inputs(before), [Widen(a)]);
    assert [Widen(a)][1..] == [];
  }

  /** Exactly which single-byte corruptions outside the checksum field of an accepted page go
      unseen: those whose changed bits are shifted out before the end of the page. */
  lemma ByteChangeUnseenIff(p: Bytes, k: nat, b: Byte)
    requires |p| == PAGE_SIZE && Accepts(p) && k < PAGE_SIZE && !(12 <= k < 16)
    ensures Accepts(p[k := b]) <==> ShiftedOut(p[k], b, PAGE_SIZE - 1 - k)
  {
    var q := p[k := b];
    assert q[12..16] == p[12..16];
    if k >= 16 {
      var before, end := p[..12] + p[16..k], p[k + 1..];
      assert Body(p) == before + [p[k]] + end && Body(q) == before + [b] + end;
      OneByteSums(before, p[k], b, end);
    } else {
      OnlyTheEndCounts(p, q);
    }
  }

  /** Any change of a byte among the last 25 is detected. */
  lemma LateChangeDetected(p: Bytes, k: nat, b: Byte)
    requires |p| == PAGE_SIZE && Accepts(p) && PAGE_SIZE - 25 <= k < PAGE_SIZE && b != p[k]
    ensures !Accepts(p[k := b])
  {
    ByteChangeUnseenIff(p, k, b);
    if ShiftedOut(p[k], b, PAGE_SIZE - 1 - k) {
      var x, y := Widen(p[k]), Widen(b);
      forall i | 0 <= i < 32 ensures x[i] == y[i] { assert !Xor(x, y)[i] || i >= 8; }
      SameBits(x, y);
      WidenInjective(p[k], b);
    }
  }

  /** Any change of the stored checksum is detected. */
  lemma ChecksumChangeDetected(p: Bytes, k: nat, b: Byte)
    requires |p| == PAGE_SIZE && Accepts(p) && 12 <= k < 16 && b != p[k]
    ensures !Accepts(p[k := b])
  {
    var q := p[k := b];
    assert Body(q) == Body(p);
    assert p[12..16][k - 12] == p[k] && q[12..16][k - 12] == b;
    if Accepts(q) {
      AsWordInjective(p[12..16], q[12..16]);
    }
  }

  // ----- The sum of a page with one byte -----

  /** A page of zeros but for byte b at place k. */
  function OneByte(k: nat, b: Byte): (p: Bytes)
    ensures |p| == 8192
  {
    seq(8192, i => if i == k then b else 0)
  }

  /** A byte at distance n from the end appears in the sum moved up by n bits, as far as 32 bits
      reach; a byte in the checksum field does not appear.  Every page is the XOR of such pages,
      and the sum distributes over XOR. */
  lemma OneByteSum(k: nat, b: Byte, i: nat)
    requires k < 8192 && i < 32
    ensures PageSum(OneByte(k, b))[i]
      <==> !(12 <= k < 16) && i >= 8191 - k && i - (8191 - k) < 8 && Bits(b as nat, 8)[i - (8191 - k)]
  {
    var p := OneByte(k, b);
    WidenZero();
    if 12 <= k < 16 {
      ZerosMove(ZERO, Body(p));
      ShiftedLeft(ZERO, |Body(p)|, i);
    } else {
      var before := if k < 12 then p[..k] else p[..12] + p[16..k];
      var end := if k < 12 then p[k + 1..12] + p[16..] else p[k + 1..];
      assert Body(p) == before + [b] + end;
      OneByteMoves(before, b, end);
      ShiftedLeft(Widen(b), |end|, i);
    }
  }

  lemma ZerosMove(c: Word, zeros: Bytes)
    requires forall j :: 0 <= j < |zeros| ==> zeros[j] == 0
    ensures Run(Xor, ShiftLeft, c, Inputs(zeros)) == Iterate(ShiftLeft, c, |zeros|)
  {
    WidenZero();
    XorIsXor();
    RunZeros(Xor, ZERO, ShiftLeft, c, Inputs(zeros));
  }

  lemma OneByteMoves(before: Bytes, b: Byte, end: Bytes)
    requires forall j :: 0 <= j < |before| ==> before[j] == 0
    requires forall j :: 0 <= j < |end| ==> end[j] == 0
    ensures Run(Xor, ShiftLeft, ZERO, Inputs(before + [b] + end)) == Iterate(ShiftLeft, Widen(b), |end|)
  {
    FirstByteMoves(before, b);
    assert Inputs(before + [b] + end) == Inputs(before + [b]) + Inputs(end);
    RunSplit(Xor, ShiftLeft, ZERO, Inputs(before + [b]), Inputs(end));
    ZerosMove(Widen(b), end);
  }

  lemma FirstByteMoves(before: Bytes, b: Byte)
    requires forall j :: 0 <= j < |before| ==> before[j] == 0
    ensures Run(Xor, ShiftLeft, ZERO, Inputs(before + [b])) == Widen(b)
  {
    var first := Run(Xor, ShiftLeft, ZERO, Inputs(before));
    ZerosMove(ZERO, before);
    forall i | 0 <= i < 32 ensures !first[i] { ShiftedLeft(ZERO, |before|, i); }
    LastByte(before, b);
    SameBits(Xor(ShiftLeft(first), Widen(b)), Widen(b));
  }

  // ----- Any corruption: accepted pages form a linear code -----

  lemma PageSumLinear(p: Bytes, d: Bytes)
    requires |p| == |d| == PAGE_SIZE
    ensures PageSum(XorBytes(p, d)) == Xor(PageSum(p), PageSum(d))
  {
    var x, y := Inputs(Body(p)), Inputs(Body(d));
    var z := Inputs(Body(XorBytes(p, d)));
    forall i | 0 <= i < |z| ensures z[i] == Xor(x[i], y[i]) {
      XorByteBits(Body(p)[i], Body(d)[i]);
    }
    assert z == Mix(Xor, x, y);
    XorIsXor();
    ShiftLeftIsLinear();
    RunLinear(Xor, ZERO, ShiftLeft, ZERO, ZERO, x, y);
  }

  /** Whatever is XORed into an accepted page, the result is accepted exactly when the
      corruption, taken as a page of its own, would be. */
  lemma CorruptionUnseenIff(p: Bytes, d: Bytes)
    requires |p| == |d| == PAGE_SIZE && Accepts(p)
    ensures Accepts(XorBytes(p, d)) <==> Accepts(d)
  {
    var q := XorBytes(p, d);
    assert q[12..16] == XorBytes(p[12..16], d[12..16]);
    AsWordLinear(p[12..16], d[12..16]);
    PageSumLinear(p, d);
    CancelLeft(PageSum(p), AsWord(d[12..16]), PageSum(d));
  }

  lemma CancelLeft(c: Word, a: Word, b: Word)
    ensures Xor(c, a) == Xor(c, b) <==> a == b
  {
    if Xor(c, a) == Xor(c, b) {
      assert forall i :: 0 <= i < 32 ==> (c[i] != a[i]) == Xor(c, a)[i] && (c[i] != b[i]) == Xor(c, b)[i];
      SameBits(a, b);
    }
  }

  // ----- Serializing -----

  /** The bytes of a word, lowest first. */
  function WordBytes(w: Word, n: nat): (r: Bytes)
    requires n <= 4
    ensures |r| == n
    decreases n, w
  {
    if n == 0 then [] else [LowByte(w)] + WordBytes(ShiftRight(w, 8), n - 1)
  }

  lemma {:induction false} WordBytesRoundTrip(w: Word, n: nat)
    requires n <= 4 && forall i :: 8 * n <= i < 32 ==> !w[i]
    ensures AsWord(WordBytes(w, n)) == w
    decreases n
  {
    if n == 0 {
      SameBits(w, ZERO);
    } else {
      var v := ShiftRight(w, 8);
      WordBytesRoundTrip(v, n - 1);
      LowByteBits(w);
      assert WordBytes(w, n)[1..] == WordBytes(v, n - 1);
      SameBits(AsWord(WordBytes(w, n)), w);
    }
  }

  /** serialize. */
  function Serialized(p: Bytes): (r: Bytes)
    requires |p| == PAGE_SIZE
    ensures |r| == PAGE_SIZE
  {
    Put(p, 12, WordBytes(PageSum(p), 4))
  }

  /** What deserialize leaves in the page: the bytes given, with the checksum field cleared. */
  function Restored(b: Bytes): (r: Bytes)
    requires |b| == PAGE_SIZE
    ensures |r| == PAGE_SIZE
  {
    Put(b, 12, [0, 0, 0, 0])
  }

  /** Serializing stores the sum at 12 to 16, lowest byte first; reading back clears those bytes;
      every other byte of the page is left as it is. */
  lemma SerializedMeans(p: Bytes, k: nat)
    requires |p| == 8192 && k < 8192 && !(12 <= k < 16)
    ensures Serialized(p)[k] == p[k] && Restored(p)[k] == p[k]
    ensures AsWord(Serialized(p)[12..16]) == PageSum(p) && Restored(p)[12..16] == [0, 0, 0, 0]
  {
    var field := WordBytes(PageSum(p), 4);
    WordBytesRoundTrip(PageSum(p), 4);
    PutHere(p, 12, field);
    PutHere(p, 12, [0, 0, 0, 0]);
  }

  lemma SumIgnoresField(p: Bytes, field: Bytes)
    requires |p| == PAGE_SIZE && |field| == 4
    ensures PageSum(Put(p, 12, field)) == PageSum(p)
  {
    assert Body(Put(p, 12, field)) == Body(p);
  }

  lemma HoldsIgnoresField(p: Bytes, rows: seq<Bytes>, field: Bytes)
    requires Holds(p, rows) && |field| == 4
    ensures Holds(Put(p, 12, field), rows)
  {
    var q := Put(p, 12, field);
    PutElsewhere(p, 12, field, 8, 10);
    PutElsewhere(p, 12, field, 10, 12);
    PutElsewhere(p, 12, field, PAYLOAD, PAYLOAD + |Flat(rows)|);
    forall i | 0 <= i < |rows| ensures SlotHolds(q, rows, i) {
      assert SlotHolds(p, rows, i);
      PutElsewhere(p, 12, field, SLOTS + 8 * i, SLOTS + 8 * i + 4);
      PutElsewhere(p, 12, field, SLOTS + 8 * i + 4, SLOTS + 8 * i + 6);
    }
  }

  lemma ReadsIgnoreField(p: Bytes, field: Bytes, i: nat)
    requires |p| == PAGE_SIZE && |field| == 4
    ensures ReadBytes(Put(p, 12, field), i) == ReadBytes(p, i)
  {
    PutElsewhere(p, 12, field, 8, 10);
    if i < NumSlots(p) && SLOTS + 8 * i + 8 <= PAGE_SIZE {
      PutElsewhere(p, 12, field, SLOTS + 8 * i, SLOTS + 8 * i + 4);
      PutElsewhere(p, 12, field, SLOTS + 8 * i + 4, SLOTS + 8 * i + 6);
      var from, length := PAYLOAD + U32(p, SLOTS + 8 * i), U16(p, SLOTS + 8 * i + 4);
      if from + length <= PAGE_SIZE { PutElsewhere(p, 12, field, from, from + length); }
    }
  }

  /** Any page, once serialized, is accepted wherever it is read back; every read then gives what
      it gave before, held rows included; and serializing again gives the same bytes. */
  lemma SerializeRoundTrip(p: Bytes)
    requires |p| == PAGE_SIZE
    ensures Accepts(Serialized(p))
    ensures forall i: nat :: ReadBytes(Restored(Serialized(p)), i) == ReadBytes(p, i)
    ensures forall rows :: Holds(p, rows) ==> Holds(Restored(Serialized(p)), rows)
    ensures Serialized(Restored(Serialized(p))) == Serialized(p)
  {
    var field, none: Bytes := WordBytes(PageSum(p), 4), [0, 0, 0, 0];
    var s := Serialized(p);
    WordBytesRoundTrip(PageSum(p), 4);
    PutHere(p, 12, field);
    SumIgnoresField(p, field);
    SumIgnoresField(s, none);
    PutTwice(p, field, none);
    forall i: nat ensures ReadBytes(Restored(s), i) == ReadBytes(p, i) {
      ReadsIgnoreField(p, field, i);
      ReadsIgnoreField(s, none, i);
    }
    forall rows | Holds(p, rows) ensures Holds(Restored(s), rows) {
      HoldsIgnoresField(p, rows, field);
      HoldsIgnoresField(s, rows, none);
    }
  }

  lemma PutTwice(p: Bytes, field: Bytes, other: Bytes)
    requires |p| == PAGE_SIZE && |field| == |other| == 4
    ensures Put(Put(Put(p, 12, field), 12, other), 12, field) == Put(p, 12, field)
  {
  }

  // ----- The class -----

  /** A zeroed page with its number and type. */
  function Fresh(number: nat): (p: Bytes)
    requires number < 0x1_0000_0000
    ensures |p| == PAGE_SIZE
  {
    LittleEndian(number, 4) + LittleEndian(1, 4) + seq(PAGE_SIZE - 8, _ => 0 as Byte)
  }

  /** A fresh page: its number in the first four bytes, type 1 in the next four, zeros behind. */
  lemma FreshMeans(a: Byte, b: Byte, c: Byte, d: Byte)
    ensures Fresh(a as nat + 0x100 * b as nat + 0x1_0000 * c as nat + 0x100_0000 * d as nat)
      == [a, b, c, d] + [1, 0, 0, 0] + seq(8184, _ => 0 as Byte)
  {
    FourBytes(a, b, c, d);
    FourBytes(1, 0, 0, 0);
  }

  lemma FreshIsEmpty(number: nat)
    requires number < 0x1_0000_0000
    ensures Holds(Fresh(number), [])
  {
    var p := Fresh(number);
    assert p[8..10] == [0, 0] && p[10..12] == [0, 0];
    assert FromLittleEndian([0, 0]) == 0 + 256 * FromLittleEndian([0 as Byte]);
  }

  /** Whatever rows p holds, q holds those and the row, if the list accepts it. */
  ghost predicate Refines(p: Bytes, q: Bytes, row: Bytes) {
    forall rows :: Holds(p, rows) ==> Holds(q, Accept(rows, row))
  }

  lemma InsertRefines(p: Bytes, row: Bytes)
    requires |p| == PAGE_SIZE
    ensures Refines(p, TryInsert(p, row), row)
  {
    forall rows | Holds(p, rows) ensures Holds(TryInsert(p, row), Accept(rows, row)) {
      TryInsertRefines(p, rows, row);
    }
  }

  lemma TryInsertPuts(p: Bytes, row: Bytes, n: nat, free: nat)
    requires |p| == PAGE_SIZE && n == NumSlots(p) && free == FreeOffset(p)
    ensures Fits(p, row) <==> n < MAX_SLOTS && free + |row| <= PAYLOAD_SIZE
    ensures Fits(p, row) ==>
      TryInsert(p, row) == PutAll(p, SLOTS + 8 * n, Slot(free, |row|), PAYLOAD + free, row,
                                  LittleEndian(free + |row|, 2), LittleEndian(n + 1, 2))
  {
  }

  class StoragePage {
    const data: array<Byte>

    ghost predicate Valid()
      reads this
    {
      data.Length == PAGE_SIZE
    }

    constructor (number: nat)
      requires number < 0x1_0000_0000
      ensures Valid() && fresh(data) && data[..] == Fresh(number) && Holds(data[..], [])
    {
      var init := Fresh(number);
      data := new Byte[PAGE_SIZE](i requires 0 <= i < PAGE_SIZE => init[i]);
      new;
      assert data[..] == init;
      FreshIsEmpty(number);
    }

    /** memcpy into the page. */
    method Write(at: nat, b: Bytes)
      requires Valid() && at + |b| <= PAGE_SIZE
      modifies data
      ensures data[..] == Put(old(data[..]), at, b)
    {
      ghost var was := data[..];
      for i := 0 to |b|
        invariant forall k :: 0 <= k < PAGE_SIZE ==> data[k] == if at <= k < at + i then b[k - at] else was[k]
      {
        data[at + i] := b[i];
      }
      assert data[..] == Put(was, at, b);
    }

    /** insert_row: accepted exactly when a slot and enough payload bytes are left. */
    method InsertRow(row: Bytes) returns (ok: bool)
      requires Valid() && |row| < 0x1_0000
      modifies data
      ensures ok == Fits(old(data[..]), row) && data[..] == TryInsert(old(data[..]), row)
      ensures Refines(old(data[..]), data[..], row)
    {
      ghost var was := data[..];
      InsertRefines(was, row);
      ok := InsertBody(row);
    }

    method InsertBody(row: Bytes) returns (ok: bool)
      requires Valid() && |row| < 0x1_0000
      modifies data
      ensures ok == Fits(old(data[..]), row) && data[..] == TryInsert(old(data[..]), row)
    {
      ghost var was := data[..];
      var n := FromLittleEndian(data[8..10]);
      var free := FromLittleEndian(data[10..12]);
      assert data[8..10] == was[8..10] && data[10..12] == was[10..12];
      TryInsertPuts(was, row, n, free);
      if n >= MAX_SLOTS || free + |row| > PAYLOAD_SIZE { return false; }
      StoreRow(n, free, row);
      ok := true;
    }

    /** The writes of an accepted insert. */
    method StoreRow(n: nat, free: nat, row: Bytes)
      requires Valid() && n < MAX_SLOTS && free + |row| <= PAYLOAD_SIZE
      modifies data
      ensures data[..] == PutAll(old(data[..]), SLOTS + 8 * n, Slot(free, |row|), PAYLOAD + free, row,
                                 LittleEndian(free + |row|, 2), LittleEndian(n + 1, 2))
    {
      Write(SLOTS + 8 * n, Slot(free, |row|));
      Write(PAYLOAD + free, row);
      Write(10, LittleEndian(free + |row|, 2));
      Write(8, LittleEndian(n + 1, 2));
    }

    method ReadRow(i: nat) returns (r: ReadResult)
      requires Valid()
      ensures r == ReadBytes(data[..], i)
      ensures forall rows :: Holds(data[..], rows) ==> r == if i < |rows| then Row(rows[i]) else NoSuchSlot
    {
      forall rows | Holds(data[..], rows)
        ensures ReadBytes(data[..], i) == if i < |rows| then Row(rows[i]) else NoSuchSlot
      {
        ReadsHeldRows(data[..], rows, i);
      }
      r := ReadBytes(data[..], i);
    }

    /** The loop of compute_checksum. */
    method ComputeChecksum() returns (sum: Word)
      requires Valid()
      ensures sum == PageSum(data[..])
    {
      sum := ZERO;
      for i := 0 to PAGE_SIZE
        invariant sum == Run(Xor, ShiftLeft, ZERO, Inputs(Summed(data[..], i)))
      {
        if 12 <= i < 16 {
          assert Summed(data[..], i + 1) == Summed(data[..], i);
        } else {
          assert Summed(data[..], i + 1) == Summed(data[..], i) + [data[i]];
          LastByte(Summed(data[..], i), data[i]);
          sum := Xor(ShiftLeft(sum), Widen(data[i]));
        }
      }
      assert Summed(data[..], PAGE_SIZE) == Body(data[..]);
    }

    method Serialize() returns (b: Bytes)
      requires Valid()
      modifies data
      ensures b == data[..] == Serialized(old(data[..]))
    {
      ghost var was := data[..];
      Write(12, [0, 0, 0, 0]);
      SumIgnoresField(was, [0, 0, 0, 0]);
      var sum := ComputeChecksum();
      Write(12, WordBytes(sum, 4));
      assert data[..] == Serialized(was);
      b := data[..];
    }

    /** deserialize: answers whether the checksum fits; the page has taken the bytes either way. */
    method Deserialize(b: Bytes) returns (ok: bool)
      requires Valid()
      modifies data
      ensures |b| != PAGE_SIZE ==> !ok && data[..] == old(data[..])
      ensures |b| == PAGE_SIZE ==> ok == Accepts(b) && data[..] == Restored(b)
    {
      if |b| != PAGE_SIZE { return false; }
      Write(0, b);
      assert data[..] == b;
      var stored := AsWord(data[12..16]);
      assert data[12..16] == b[12..16];
      Write(12, [0, 0, 0, 0]);
      SumIgnoresField(b, [0, 0, 0, 0]);
      var computed := ComputeChecksum();
      ok := stored == computed;
    }
  }

  /** The bytes that the checksum loop has taken before index i. */
  function Summed(p: Bytes, i: nat): Bytes
    requires |p| == PAGE_SIZE && i <= PAGE_SIZE
  {
    if i <= 12 then p[..i] else if i <= 16 then p[..12] else p[..12] + p[16..i]
  }
}
