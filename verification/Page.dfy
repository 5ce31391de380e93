/**
 The slotted page of src/storage_complete.cpp: a header, an area of 256 slots of 8 bytes and
 a payload area in a fixed array of 8192 bytes, with a shift-and-XOR checksum.

 Header: page_num at 0, page_type at 4, num_slots at 8, free_offset at 10, checksum at 12.
 Integers are stored as the source's struct accesses store them on a little-endian machine.
 */
module Page {
  import opened Words

  const PAGE_SIZE: nat := 8192
  const SLOTS: nat := 256              // HEADER_SIZE
  const PAYLOAD: nat := 2304           // PAYLOAD_START
  const PAYLOAD_SIZE: nat := 5888
  const MAX_SLOTS: nat := 256

  type Bytes = seq<Byte>

  // ----- Ranges of bytes -----

  function Put(p: Bytes, at: nat, b: Bytes): (r: Bytes)
    requires at + |b| <= |p|
    ensures |r| == |p|
  {
    p[..at] + b + p[at + |b|..]
  }

  lemma PutHere(p: Bytes, at: nat, b: Bytes)
    requires at + |b| <= |p|
    ensures Put(p, at, b)[at..at + |b|] == b
  {
  }

  lemma PutElsewhere(p: Bytes, at: nat, b: Bytes, lo: nat, hi: nat)
    requires at + |b| <= |p| && lo <= hi <= |p| && (hi <= at || at + |b| <= lo)
    ensures Put(p, at, b)[lo..hi] == p[lo..hi]
  {
  }

  lemma SubRange(p: Bytes, lo: nat, hi: nat, a: nat, b: nat)
    requires a <= b && lo + b <= hi <= |p|
    ensures p[lo + a..lo + b] == p[lo..hi][a..b]
  {
    var x, y := p[lo + a..lo + b], p[lo..hi][a..b];
    assert |x| == |y| && forall k :: 0 <= k < |x| ==> x[k] == p[lo + a + k] == y[k];
  }

  function U16(p: Bytes, at: nat): nat
    requires at + 2 <= |p|
  {
    FromLittleEndian(p[at..at + 2])
  }

  function U32(p: Bytes, at: nat): nat
    requires at + 4 <= |p|
  {
    FromLittleEndian(p[at..at + 4])
  }

  function NumSlots(p: Bytes): nat
    requires |p| == PAGE_SIZE
  {
    U16(p, 8)
  }

  function FreeOffset(p: Bytes): nat
    requires |p| == PAGE_SIZE
  {
    U16(p, 10)
  }

  // ----- Rows -----

  function Fits(p: Bytes, row: Bytes): bool
    requires |p| == PAGE_SIZE
  {
    NumSlots(p) < MAX_SLOTS && FreeOffset(p) + |row| <= PAYLOAD_SIZE
  }

  function Slot(offset: nat, length: nat): (r: Bytes)
    ensures |r| == 8
  {
    LittleEndian(offset, 4) + LittleEndian(length, 2) + LittleEndian(0, 2)
  }

  /** insert_row, on the bytes of the page. */
  function InsertBytes(p: Bytes, row: Bytes): (r: Bytes)
    requires |p| == PAGE_SIZE && Fits(p, row)
    ensures |r| == PAGE_SIZE
  {
    var n, free := NumSlots(p), FreeOffset(p);
    PutAll(p, SLOTS + 8 * n, Slot(free, |row|), PAYLOAD + free, row,
           LittleEndian(free + |row|, 2), LittleEndian(n + 1, 2))
  }

  /** The four writes of insert_row: slot, payload, free_offset, num_slots. */
  function PutAll(p: Bytes, a: nat, slot: Bytes, b: nat, row: Bytes, free: Bytes, count: Bytes): (r: Bytes)
    requires Disjoint(p, a, slot, b, row, free, count)
    ensures |r| == |p|
  {
    Put(Put(Put(Put(p, a, slot), b, row), 10, free), 8, count)
  }

  predicate Disjoint(p: Bytes, a: nat, slot: Bytes, b: nat, row: Bytes, free: Bytes, count: Bytes) {
    && |p| == PAGE_SIZE && |free| == |count| == 2
    && SLOTS <= a && a + |slot| <= PAYLOAD <= b && b + |row| <= PAGE_SIZE
  }

  /** read_row: no such slot, the row, or a read outside the page (on a page whose slots were
      not written by insert_row). */
  datatype ReadResult = NoSuchSlot | Row(bytes: Bytes) | OutsidePage

  function ReadBytes(p: Bytes, i: nat): ReadResult
    requires |p| == PAGE_SIZE
  {
    if i >= NumSlots(p) then NoSuchSlot
    else if SLOTS + 8 * i + 8 > PAGE_SIZE then OutsidePage
    else
      var start := PAYLOAD + U32(p, SLOTS + 8 * i);
      var length := U16(p, SLOTS + 8 * i + 4);
      if start + length > PAGE_SIZE then OutsidePage else Row(p[start..start + length])
  }

  function Flat(rows: seq<Bytes>): Bytes {
    if rows == [] then [] else Flat(rows[..|rows| - 1]) + rows[|rows| - 1]
  }

  /** The page holds the rows: slot i gives the place of row i, the payloads lie one after the
      other from the start of the payload area, and the header counts them. */
  ghost predicate Holds(p: Bytes, rows: seq<Bytes>) {
    && |p| == PAGE_SIZE && |rows| <= MAX_SLOTS && |Flat(rows)| <= PAYLOAD_SIZE
    && NumSlots(p) == |rows| && FreeOffset(p) == |Flat(rows)|
    && p[PAYLOAD..PAYLOAD + |Flat(rows)|] == Flat(rows)
    && forall i :: 0 <= i < |rows| ==> SlotHolds(p, rows, i)
  }

  ghost predicate SlotHolds(p: Bytes, rows: seq<Bytes>, i: nat)
    requires |p| == PAGE_SIZE && i < |rows| <= MAX_SLOTS
  {
    U32(p, SLOTS + 8 * i) == |Flat(rows[..i])| && U16(p, SLOTS + 8 * i + 4) == |rows[i]|
  }

  lemma {:induction false} FlatRow(rows: seq<Bytes>, i: nat)
    requires i < |rows|
    ensures |Flat(rows[..i])| + |rows[i]| <= |Flat(rows)|
    ensures Flat(rows)[|Flat(rows[..i])|..|Flat(rows[..i])| + |rows[i]|] == rows[i]
    decreases |rows|
  {
    var init := rows[..|rows| - 1];
    if i == |rows| - 1 {
      assert rows[..i] == init;
    } else {
      FlatRow(init, i);
      assert init[..i] == rows[..i];
      var at := |Flat(rows[..i])|;
      assert Flat(rows)[at..at + |rows[i]|] == Flat(init)[at..at + |rows[i]|];
    }
  }

  lemma SlotFields(p: Bytes, at: nat, offset: nat, length: nat)
    requires at + 8 <= |p| && p[at..at + 8] == Slot(offset, length)
    requires offset < 0x1_0000_0000 && length < 0x1_0000
    ensures U32(p, at) == offset && U16(p, at + 4) == length
  {
    var s := Slot(offset, length);
    SubRange(p, at, at + 8, 0, 4);
    SubRange(p, at, at + 8, 4, 6);
    assert s[0..4] == LittleEndian(offset, 4) && s[4..6] == LittleEndian(length, 2);
    IntegerWidths();
    LittleEndianRoundTrip(offset, 4);
    LittleEndianRoundTrip(length, 2);
  }

  /** Reading gives exactly the held rows. */
  lemma ReadsHeldRows(p: Bytes, rows: seq<Bytes>, i: nat)
    requires Holds(p, rows)
    ensures ReadBytes(p, i) == if i < |rows| then Row(rows[i]) else NoSuchSlot
  {
    if i < |rows| {
      assert SlotHolds(p, rows, i);
      FlatRow(rows, i);
      var offset, total := |Flat(rows[..i])|, |Flat(rows)|;
      SubRange(p, PAYLOAD, PAYLOAD + total, offset, offset + |rows[i]|);
    }
  }

  /** The writes do not overlap: each leaves its bytes, and what lies before the payload write
      and before the slot write in their areas stays. */
  lemma PutAllRanges(p: Bytes, a: nat, slot: Bytes, b: nat, row: Bytes, free: Bytes, count: Bytes)
    requires Disjoint(p, a, slot, b, row, free, count)
    ensures var q := PutAll(p, a, slot, b, row, free, count);
      && q[a..a + |slot|] == slot && q[b..b + |row|] == row && q[10..12] == free && q[8..10] == count
      && q[PAYLOAD..b] == p[PAYLOAD..b] && q[SLOTS..a] == p[SLOTS..a]
  {
    var p1 := Put(p, a, slot);
    var p2 := Put(p1, b, row);
    var p3 := Put(p2, 10, free);
    PutHere(p, a, slot);
    PutElsewhere(p1, b, row, a, a + |slot|);
    PutElsewhere(p2, 10, free, a, a + |slot|);
    PutElsewhere(p3, 8, count, a, a + |slot|);
    PutHere(p1, b, row);
    PutElsewhere(p2, 10, free, b, b + |row|);
    PutElsewhere(p3, 8, count, b, b + |row|);
    PutHere(p2, 10, free);
    PutElsewhere(p3, 8, count, 10, 12);
    PutHere(p3, 8, count);
    PutElsewhere(p, a, slot, PAYLOAD, b);
    PutElsewhere(p1, b, row, PAYLOAD, b);
    PutElsewhere(p2, 10, free, PAYLOAD, b);
    PutElsewhere(p3, 8, count, PAYLOAD, b);
    PutElsewhere(p, a, slot, SLOTS, a);
    PutElsewhere(p1, b, row, SLOTS, a);
    PutElsewhere(p2, 10, free, SLOTS, a);
    PutElsewhere(p3, 8, count, SLOTS, a);
  }

  /** Old slots stay, the new one is in place. */
  lemma SlotsAfterInsert(p: Bytes, q: Bytes, rows: seq<Bytes>, row: Bytes, i: nat)
    requires |p| == |q| == PAGE_SIZE && |rows| < MAX_SLOTS && i <= |rows|
    requires forall k :: 0 <= k < |rows| ==> SlotHolds(p, rows, k)
    requires q[SLOTS..SLOTS + 8 * |rows|] == p[SLOTS..SLOTS + 8 * |rows|]
    requires U32(q, SLOTS + 8 * |rows|) == |Flat(rows)| && U16(q, SLOTS + 8 * |rows| + 4) == |row|
    ensures SlotHolds(q, rows + [row], i)
  {
    if i < |rows| {
      assert SlotHolds(p, rows, i);
      assert (rows + [row])[..i] == rows[..i];
      var end := SLOTS + 8 * |rows|;
      SubRange(q, SLOTS, end, 8 * i, 8 * i + 4);
      SubRange(p, SLOTS, end, 8 * i, 8 * i + 4);
      SubRange(q, SLOTS, end, 8 * i + 4, 8 * i + 6);
      SubRange(p, SLOTS, end, 8 * i + 4, 8 * i + 6);
    } else {
      assert (rows + [row])[..i] == rows;
    }
  }

  lemma PayloadAfterInsert(p: Bytes, q: Bytes, rows: seq<Bytes>, row: Bytes)
    requires |p| == |q| == PAGE_SIZE && PAYLOAD + |Flat(rows)| + |row| <= PAGE_SIZE
    requires p[PAYLOAD..PAYLOAD + |Flat(rows)|] == Flat(rows) == q[PAYLOAD..PAYLOAD + |Flat(rows)|]
    requires q[PAYLOAD + |Flat(rows)|..PAYLOAD + |Flat(rows)| + |row|] == row
    ensures Flat(rows + [row]) == Flat(rows) + row
    ensures q[PAYLOAD..PAYLOAD + |Flat(rows + [row])|] == Flat(rows + [row])
  {
    var free := |Flat(rows)|;
    assert (rows + [row])[..|rows|] == rows;
    assert q[PAYLOAD..PAYLOAD + free + |row|] == q[PAYLOAD..PAYLOAD + free] + q[PAYLOAD + free..PAYLOAD + free + |row|];
  }

  /** An accepted insert appends the row to those the page holds. */
  lemma InsertAppends(p: Bytes, rows: seq<Bytes>, row: Bytes)
    requires Holds(p, rows) && |rows| < MAX_SLOTS && |Flat(rows)| + |row| <= PAYLOAD_SIZE
    ensures Fits(p, row) && Holds(InsertBytes(p, row), rows + [row])
  {
    var q, n, free := InsertBytes(p, row), |rows|, |Flat(rows)|;
    PutAllRanges(p, SLOTS + 8 * n, Slot(free, |row|), PAYLOAD + free, row,
                 LittleEndian(free + |row|, 2), LittleEndian(n + 1, 2));
    PayloadAfterInsert(p, q, rows, row);
    HeaderFields(q, n + 1, free + |row|);
    SlotFields(q, SLOTS + 8 * n, free, |row|);
    AllSlotsAfterInsert(p, q, rows, row);
  }

  lemma AllSlotsAfterInsert(p: Bytes, q: Bytes, rows: seq<Bytes>, row: Bytes)
    requires |p| == |q| == PAGE_SIZE && |rows| < MAX_SLOTS
    requires forall k :: 0 <= k < |rows| ==> SlotHolds(p, rows, k)
    requires q[SLOTS..SLOTS + 8 * |rows|] == p[SLOTS..SLOTS + 8 * |rows|]
    requires U32(q, SLOTS + 8 * |rows|) == |Flat(rows)| && U16(q, SLOTS + 8 * |rows| + 4) == |row|
    ensures forall i :: 0 <= i < |rows + [row]| ==> SlotHolds(q, rows + [row], i)
  {
    forall i | 0 <= i < |rows + [row]| ensures SlotHolds(q, rows + [row], i) {
      SlotsAfterInsert(p, q, rows, row, i);
    }
  }

  lemma HeaderFields(q: Bytes, count: nat, free: nat)
    requires |q| == PAGE_SIZE && count < 0x1_0000 && free < 0x1_0000
    requires q[8..10] == LittleEndian(count, 2) && q[10..12] == LittleEndian(free, 2)
    ensures NumSlots(q) == count && FreeOffset(q) == free
  {
    IntegerWidths();
    LittleEndianRoundTrip(count, 2);
    LittleEndianRoundTrip(free, 2);
  }

  // ----- The layout, byte by byte -----

  /** The number in two bytes of a page, and in four. */
  function Two(p: Bytes, at: nat): nat
    requires at + 2 <= |p|
  {
    p[at] as nat + 0x100 * p[at + 1] as nat
  }

  function Four(p: Bytes, at: nat): nat
    requires at + 4 <= |p|
  {
    Two(p, at) + 0x1_0000 * Two(p, at + 2)
  }

  lemma FieldsAt(p: Bytes, at: nat)
    requires at + 2 <= |p|
    ensures U16(p, at) == Two(p, at)
    ensures at + 4 <= |p| ==> U32(p, at) == Four(p, at)
  {
    assert p[at..at + 2] == [p[at], p[at + 1]];
    TwoBytes(p[at], p[at + 1]);
    if at + 4 <= |p| {
      assert p[at..at + 4] == [p[at], p[at + 1], p[at + 2], p[at + 3]];
      FourBytes(p[at], p[at + 1], p[at + 2], p[at + 3]);
    }
  }

  /** Where a page keeps its rows: counters at 8 and 10, slot i from 256 + 8 * i on with an offset
      of four bytes and a length of two, payloads from 2304 on; at most 256 rows, of 5888 bytes together. */
  lemma HoldsMeans(p: Bytes, rows: seq<Bytes>)
    requires |p| == 8192
    ensures Holds(p, rows) <==>
      && |rows| <= 256 && |Flat(rows)| <= 5888
      && Two(p, 8) == |rows| && Two(p, 10) == |Flat(rows)| && p[2304..2304 + |Flat(rows)|] == Flat(rows)
      && forall i :: 0 <= i < |rows| ==>
           Four(p, 256 + 8 * i) == |Flat(rows[..i])| && Two(p, 260 + 8 * i) == |rows[i]|
  {
    FieldsAt(p, 8);
    FieldsAt(p, 10);
    if |rows| <= 256 {
      forall i | 0 <= i < |rows|
        ensures SlotHolds(p, rows, i)
          <==> Four(p, 256 + 8 * i) == |Flat(rows[..i])| && Two(p, 260 + 8 * i) == |rows[i]|
      {
        FieldsAt(p, 256 + 8 * i);
        FieldsAt(p, 260 + 8 * i);
      }
    }
  }

  /** A row is accepted up to 256 rows and 5888 bytes. */
  lemma AcceptsIff(rows: seq<Bytes>, row: Bytes)
    ensures Accept(rows, row) == rows + [row] <==> |rows| < 256 && |Flat(rows)| + |row| <= 5888
    ensures Accept(rows, row) == rows + [row] || Accept(rows, row) == rows
  {
    assert |rows + [row]| != |rows|;
  }

  /** read_row on any page, byte by byte. */
  lemma ReadMeans(p: Bytes, i: nat)
    requires |p| == 8192
    ensures i >= Two(p, 8) ==> ReadBytes(p, i) == NoSuchSlot
    ensures i < Two(p, 8) && i >= 992 ==> ReadBytes(p, i) == OutsidePage
    ensures i < Two(p, 8) && i < 992 ==>
      var from, length := 2304 + Four(p, 256 + 8 * i), Two(p, 260 + 8 * i);
      ReadBytes(p, i) == if from + length > 8192 then OutsidePage else Row(p[from..from + length])
  {
    FieldsAt(p, 8);
    if i < 992 {
      FieldsAt(p, 256 + 8 * i);
      FieldsAt(p, 260 + 8 * i);
    }
  }

  lemma PutAllLeaves(p: Bytes, a: nat, slot: Bytes, b: nat, row: Bytes, free: Bytes, count: Bytes, k: nat)
    requires Disjoint(p, a, slot, b, row, free, count) && k < |p|
    requires !(8 <= k < 12 || a <= k < a + |slot| || b <= k < b + |row|)
    ensures PutAll(p, a, slot, b, row, free, count)[k] == p[k]
  {
    var p1 := Put(p, a, slot);
    var p2 := Put(p1, b, row);
    assert p1[k] == p[k] && p2[k] == p1[k];
    assert Put(p2, 10, free)[k] == p2[k];
  }

  /** An insert touches the two counters, the bytes of its slot and those of its payload; page
      number, page type, checksum field and everything else stay. */
  lemma InsertLeaves(p: Bytes, row: Bytes, k: nat)
    requires |p| == 8192 && Fits(p, row) && k < 8192
    requires !(8 <= k < 12 || 256 + 8 * Two(p, 8) <= k < 264 + 8 * Two(p, 8))
    requires !(2304 + Two(p, 10) <= k < 2304 + Two(p, 10) + |row|)
    ensures InsertBytes(p, row)[k] == p[k]
  {
    FieldsAt(p, 8);
    FieldsAt(p, 10);
    var n, free := NumSlots(p), FreeOffset(p);
    PutAllLeaves(p, SLOTS + 8 * n, Slot(free, |row|), PAYLOAD + free, row,
                 LittleEndian(free + |row|, 2), LittleEndian(n + 1, 2), k);
  }

  /** The last two bytes of a new slot are zero. */
  lemma ReservedIsZero(p: Bytes, row: Bytes)
    requires |p| == 8192 && Fits(p, row)
    ensures 8 * Two(p, 8) + 264 <= 8192 && InsertBytes(p, row)[8 * Two(p, 8) + 262..8 * Two(p, 8) + 264] == [0, 0]
  {
    FieldsAt(p, 8);
    var q, n, free := InsertBytes(p, row), NumSlots(p), FreeOffset(p);
    PutAllRanges(p, SLOTS + 8 * n, Slot(free, |row|), PAYLOAD + free, row,
                 LittleEndian(free + |row|, 2), LittleEndian(n + 1, 2));
    SubRange(q, SLOTS + 8 * n, SLOTS + 8 * n + 8, 6, 8);
    SlotTail(free, |row|);
  }

  lemma SlotTail(offset: nat, length: nat)
    ensures Slot(offset, length)[6..8] == [0, 0]
  {
    TwoBytes(0, 0);
  }

  // ----- Runs of inserts -----

  /** The append-only list that the page implements: a row is taken while there are fewer than
      256 and the payload bytes still fit. */
  function Accept(rows: seq<Bytes>, row: Bytes): seq<Bytes> {
    if |rows| < MAX_SLOTS && |Flat(rows)| + |row| <= PAYLOAD_SIZE then rows + [row] else rows
  }

  function AcceptAll(rows: seq<Bytes>, attempts: seq<Bytes>): seq<Bytes>
    decreases |attempts|
  {
    if attempts == [] then rows else AcceptAll(Accept(rows, attempts[0]), attempts[1..])
  }

  function TryInsert(p: Bytes, row: Bytes): (r: Bytes)
    requires |p| == PAGE_SIZE
    ensures |r| == PAGE_SIZE
  {
    if Fits(p, row) then InsertBytes(p, row) else p
  }

  function InsertAll(p: Bytes, attempts: seq<Bytes>): (r: Bytes)
    requires |p| == PAGE_SIZE
    ensures |r| == PAGE_SIZE
    decreases |attempts|
  {
    if attempts == [] then p else InsertAll(TryInsert(p, attempts[0]), attempts[1..])
  }

  lemma TryInsertRefines(p: Bytes, rows: seq<Bytes>, row: Bytes)
    requires Holds(p, rows)
    ensures Holds(TryInsert(p, row), Accept(rows, row))
  {
    if |rows| < MAX_SLOTS && |Flat(rows)| + |row| <= PAYLOAD_SIZE {
      InsertAppends(p, rows, row);
    }
  }

  /** Refinement: after any sequence of insert attempts the page holds, and read_row returns,
      exactly the accepted rows in order. */
  lemma {:induction false} PageRefinesList(p: Bytes, rows: seq<Bytes>, attempts: seq<Bytes>, i: nat)
    requires Holds(p, rows)
    ensures var all := AcceptAll(rows, attempts);
      && Holds(InsertAll(p, attempts), all)
      && ReadBytes(InsertAll(p, attempts), i) == if i < |all| then Row(all[i]) else NoSuchSlot
    decreases |attempts|
  {
    if attempts == [] {
      ReadsHeldRows(p, rows, i);
    } else {
      TryInsertRefines(p, rows, attempts[0]);
      PageRefinesList(TryInsert(p, attempts[0]), Accept(rows, attempts[0]), attempts[1..], i);
    }
  }
}
