/**
 The write-ahead log of src/recovery_wal.cpp: its byte codec, its append-only writer and
 its two-pass recovery.

 The log file is a byte sequence and a crash leaves an arbitrary prefix of it.  Integers
 are stored as the source's memcpy stores them on a little-endian machine.
 */
module Wal {
  import opened Words
  import opened LogScan
  import opened Folds

  const TWO32: nat := 0x1_0000_0000

  type Int32 = x: int | -0x8000_0000 <= x < 0x8000_0000

  /** entry_type: 1 = DATA, 2 = COMMIT, 3 = ABORT; a file may hold any other value. */
  datatype Entry = Entry(txn: Int32, kind: Int32, data: seq<Byte>)

  // ----- Integers in four bytes -----

  function FromLe32(b: seq<Byte>): (n: nat)
    requires |b| == 4
    ensures n < TWO32
  {
    LittleEndianBelow(b);
    IntegerWidths();
    FromLittleEndian(b)
  }

  lemma Le32RoundTrip(n: nat)
    requires n < TWO32
    ensures FromLe32(LittleEndian(n, 4)) == n
  {
    IntegerWidths();
    LittleEndianRoundTrip(n, 4);
  }

  function Unsigned(x: Int32): (n: nat)
    ensures n < TWO32
  {
    if x < 0 then x + TWO32 else x
  }

  function Signed(n: nat): Int32
    requires n < TWO32
  {
    if n < 0x8000_0000 then n else n - TWO32
  }

  // ----- The codec -----

  /** encode_entry; the length field is the payload length cut to 32 bits. */
  function Encode(e: Entry): (r: seq<Byte>)
    ensures |r| == 12 + |e.data|
  {
    LittleEndian(Unsigned(e.txn), 4) + LittleEndian(Unsigned(e.kind), 4) + LittleEndian(|e.data| % TWO32, 4) + e.data
  }

  /** decode_entry.  The sum 12 + len is taken in 32 bits, as in the source. */
  function Decode(buf: seq<Byte>): Decoded<Entry> {
    if |buf| < 12 then Short
    else
      var len := FromLe32(buf[8..12]);
      var sum := (12 + len) % TWO32;
      if |buf| < sum then Short
      else if |buf| < 12 + len then OutOfBounds
      else Whole(Entry(Signed(FromLe32(buf[0..4])), Signed(FromLe32(buf[4..8])), buf[12..12 + len]), sum)
  }

  /** Payloads short enough for the 32-bit sum. */
  predicate Loggable(e: Entry) {
    |e.data| < TWO32 - 12
  }

  /** The bytes of an entry: its transaction and its kind in two's complement and its length, four
      bytes each and lowest first, then the payload. */
  lemma EncodeMeans(e: Entry, t: (Byte, Byte, Byte, Byte), k: (Byte, Byte, Byte, Byte), n: (Byte, Byte, Byte, Byte))
    requires e.txn == InTwosComplement(t) && e.kind == InTwosComplement(k)
    requires |e.data| == InFourBytes(n)
    ensures Encode(e) == [t.0, t.1, t.2, t.3, k.0, k.1, k.2, k.3, n.0, n.1, n.2, n.3] + e.data
  {
    SignedBytes(e.txn, t);
    SignedBytes(e.kind, k);
    LengthBytes(|e.data|, n);
    assert [t.0, t.1, t.2, t.3] + [k.0, k.1, k.2, k.3] + [n.0, n.1, n.2, n.3]
        == [t.0, t.1, t.2, t.3, k.0, k.1, k.2, k.3, n.0, n.1, n.2, n.3];
  }

  lemma SignedBytes(x: Int32, b: (Byte, Byte, Byte, Byte))
    requires x == InTwosComplement(b)
    ensures LittleEndian(Unsigned(x), 4) == [b.0, b.1, b.2, b.3]
  {
    FourBytes(b.0, b.1, b.2, b.3);
  }

  lemma LengthBytes(length: nat, b: (Byte, Byte, Byte, Byte))
    requires length == InFourBytes(b)
    ensures LittleEndian(length % TWO32, 4) == [b.0, b.1, b.2, b.3]
  {
    NotCut(length);
    FourBytes(b.0, b.1, b.2, b.3);
  }

  lemma NotCut(length: nat)
    requires length < TWO32
    ensures length % TWO32 == length
  {
  }

  function InFourBytes(b: (Byte, Byte, Byte, Byte)): (n: nat)
    ensures n < TWO32
  {
    b.0 as nat + 0x100 * b.1 as nat + 0x1_0000 * b.2 as nat + 0x100_0000 * b.3 as nat
  }

  /** The top bit weighs -2^31. */
  function InTwosComplement(b: (Byte, Byte, Byte, Byte)): int {
    InFourBytes(b) - if b.3 >= 0x80 then 0x1_0000_0000 else 0
  }

  function FourAt(buf: seq<Byte>, at: nat): (Byte, Byte, Byte, Byte)
    requires at + 4 <= |buf|
  {
    (buf[at], buf[at + 1], buf[at + 2], buf[at + 3])
  }

  lemma FieldAt(buf: seq<Byte>, at: nat)
    requires at + 4 <= |buf|
    ensures FromLe32(buf[at..at + 4]) == InFourBytes(FourAt(buf, at))
    ensures Signed(FromLe32(buf[at..at + 4])) == InTwosComplement(FourAt(buf, at))
  {
    assert buf[at..at + 4] == [buf[at], buf[at + 1], buf[at + 2], buf[at + 3]];
    FourBytes(buf[at], buf[at + 1], buf[at + 2], buf[at + 3]);
  }

  /** What any bytes decode to.  A length of 2^32 - 12 or more passes the bounds check, because the
      sum wraps to a number below twelve: the payload is then read past the end of the buffer,
      unless the buffer really is that long, and the next entry is looked for inside the header. */
  lemma DecodeMeans(buf: seq<Byte>)
    ensures |buf| < 12 ==> Decode(buf) == Short
    ensures |buf| >= 12 ==>
      var length := InFourBytes(FourAt(buf, 8));
      var wraps := length >= 0xFFFF_FFF4;
      if |buf| < 12 + length then Decode(buf) == (if wraps then OutOfBounds else Short)
      else
        var e := Entry(InTwosComplement(FourAt(buf, 0)), InTwosComplement(FourAt(buf, 4)), buf[12..12 + length]);
        Decode(buf) == Whole(e, if wraps then length - 0xFFFF_FFF4 else 12 + length)
  {
    if |buf| >= 12 {
      FieldAt(buf, 0);
      FieldAt(buf, 4);
      FieldAt(buf, 8);
    }
  }

  /** Two whole entries: COMMIT of transaction 5, and DATA of transaction -2 with three bytes. */
  lemma EncodedEntries()
    ensures Encode(Entry(5, 2, [])) == [5, 0, 0, 0, 2, 0, 0, 0, 0, 0, 0, 0]
    ensures Encode(Entry(-2, 1, [7, 8, 9]))
         == [0xFE, 0xFF, 0xFF, 0xFF, 1, 0, 0, 0, 3, 0, 0, 0, 7, 8, 9]
  {
    EncodeMeans(Entry(5, 2, []), (5, 0, 0, 0), (2, 0, 0, 0), (0, 0, 0, 0));
    EncodeMeans(Entry(-2, 1, [7, 8, 9]), (0xFE, 0xFF, 0xFF, 0xFF), (1, 0, 0, 0), (3, 0, 0, 0));
  }

  lemma HeaderOf(e: Entry, rest: seq<Byte>)
    ensures var buf := Encode(e) + rest;
      && FromLe32(buf[0..4]) == Unsigned(e.txn)
      && FromLe32(buf[4..8]) == Unsigned(e.kind)
      && FromLe32(buf[8..12]) == |e.data| % TWO32
      && buf[12..] == e.data + rest
  {
    var buf := Encode(e) + rest;
    assert buf[0..4] == LittleEndian(Unsigned(e.txn), 4);
    assert buf[4..8] == LittleEndian(Unsigned(e.kind), 4);
    assert buf[8..12] == LittleEndian(|e.data| % TWO32, 4);
    Le32RoundTrip(Unsigned(e.txn));
    Le32RoundTrip(Unsigned(e.kind));
    Le32RoundTrip(|e.data| % TWO32);
  }

  lemma DecodeEncoded(e: Entry, rest: seq<Byte>)
    requires Loggable(e)
    ensures Decode(Encode(e) + rest) == Whole(e, |Encode(e)|)
  {
    HeaderOf(e, rest);
    var buf := Encode(e) + rest;
    assert buf[12..12 + |e.data|] == buf[12..][..|e.data|] == e.data;
  }

  /** Encoding then decoding gives the entry back, with all its bytes consumed, exactly for
      payloads below 2^32 - 12 bytes. */
  lemma RoundTripIff(e: Entry)
    ensures Decode(Encode(e)) == Whole(e, |Encode(e)|) <==> Loggable(e)
  {
    assert Encode(e) + [] == Encode(e);
    if Loggable(e) {
      DecodeEncoded(e, []);
    } else {
      HeaderOf(e, []);
    }
  }

  /** An entry cut anywhere is recognised as incomplete. */
  lemma DecodeTorn(e: Entry, k: nat)
    requires Loggable(e) && k < |Encode(e)|
    ensures Decode(Encode(e)[..k]) == Short
  {
    if k >= 12 {
      HeaderOf(e, []);
      var whole := Encode(e) + [];
      assert Encode(e)[..k][8..12] == whole[8..12];
    }
  }

  lemma DecodeIsBounded()
    ensures Bounded(Decode)
  {
  }

  /** The codec meets what the log theory asks of it. */
  lemma WalIsCodec()
    ensures IsCodec(Encode, Decode, Loggable)
  {
    DecodeIsBounded();
    forall e, rest | Loggable(e) ensures Decodes(Encode, Decode, e, rest) { DecodeEncoded(e, rest); }
    forall e, k: nat | Loggable(e) ensures Recognises(Encode, Decode, e, k) {
      if k < |Encode(e)| { DecodeTorn(e, k); }
    }
  }

  // ----- What recovery computes from the entries -----

  /** The effect of an entry on committed_txns. */
  function Mark(m: map<Int32, bool>, e: Entry): map<Int32, bool> {
    if e.kind == 2 then m[e.txn := true]
    else if e.kind == 3 then m[e.txn := false]
    else m
  }

  predicate Kept(m: map<Int32, bool>, e: Entry) {
    e.kind == 1 && e.txn in m && m[e.txn]
  }

  /** The effect of an entry on the recovered vector, in the second pass. */
  function Keep(m: map<Int32, bool>): (seq<Entry>, Entry) -> seq<Entry> {
    (acc: seq<Entry>, e: Entry) => if Kept(m, e) then acc + [e] else acc
  }

  function ScanLog(file: seq<Byte>): Scan<Entry> {
    DecodeIsBounded();
    ScanAll(Decode, file)
  }

  // ----- The log manager -----

  class WALManager {
    var file: seq<Byte>
    var committed: map<Int32, bool>
    ghost var log: seq<Entry>   // the entries written since the log was empty

    /** The file and the map are those of the entries written so far.  Every write keeps this;
        a crash, which cuts the file behind the manager's back, ends it. */
    ghost predicate Consistent()
      reads this
    {
      file == EncodeAll(Encode, log) && committed == Fold(Mark, map[], log)
    }

    /** A missing file reads like an empty one. */
    constructor ()
      ensures Consistent() && log == []
    {
      file, committed, log := [], map[], [];
    }

    /** The entry goes to the end of the file, and into the map. */
    method Append(e: Entry)
      modifies this
      ensures file == old(file) + Encode(e) && committed == Mark(old(committed), e) && log == old(log) + [e]
      ensures old(Consistent()) ==> Consistent()
    {
      EncodeAllSplit(Encode, log, [e]);
      FoldSplit(Mark, map[], log, [e]);
      assert EncodeAll(Encode, [e]) == Encode(e) + [] == Encode(e);
      FoldOne(Mark, Fold(Mark, map[], log), e);
      file, committed, log := file + Encode(e), Mark(committed, e), log + [e];
    }

    method WriteData(txn: Int32, data: seq<Byte>)
      modifies this
      ensures old(Consistent()) ==> Consistent()
      ensures log == old(log) + [Entry(txn, 1, data)] && file == old(file) + Encode(Entry(txn, 1, data))
      ensures committed == old(committed)
    {
      Append(Entry(txn, 1, data));
    }

    method WriteCommit(txn: Int32)
      modifies this
      ensures old(Consistent()) ==> Consistent()
      ensures log == old(log) + [Entry(txn, 2, [])] && file == old(file) + Encode(Entry(txn, 2, []))
      ensures committed == old(committed)[txn := true]
    {
      Append(Entry(txn, 2, []));
    }

    method WriteAbort(txn: Int32)
      modifies this
      ensures old(Consistent()) ==> Consistent()
      ensures log == old(log) + [Entry(txn, 3, [])] && file == old(file) + Encode(Entry(txn, 3, []))
      ensures committed == old(committed)[txn := false]
    {
      Append(Entry(txn, 3, []));
    }

    /** recover, on any file content whatever: find the markers, then collect the DATA of the
        committed transactions.  ending tells whether the source's loops finish without reading
        past the buffer; only then is there a result.  On the file of an undisturbed run the
        map comes out as the writer had it. */
    method Recover() returns (ending: Ending, recovered: seq<Entry>)
      modifies this`committed
      ensures ending == ScanLog(file).ending
      ensures ending == Done ==> recovered == Recovered(file)
      ensures ending == Done ==> committed == Fold(Mark, map[], ScanLog(file).entries)
      ensures old(Consistent()) && All(Loggable, log) ==>
                ending == Done && committed == old(committed) && recovered == CommittedData(log, log)
    {
      DecodeIsBounded();
      recovered := [];
      if Consistent() && All(Loggable, log) {
        FullRecovery(log);
      }
      ending, committed := Pass(Decode, Mark, map[], file);
      if ending == Done {
        ending, recovered := Pass(Decode, Keep(committed), [], file);
      }
    }
  }

  // ----- Crash safety -----

  predicate IsMarker(e: Entry, txn: Int32) {
    e.txn == txn && (e.kind == 2 || e.kind == 3)
  }

  /** The transaction's last marker in the log is a COMMIT. */
  ghost predicate LastMarkerIsCommit(log: seq<Entry>, txn: Int32) {
    exists j :: 0 <= j < |log| && IsMarker(log[j], txn) && log[j].kind == 2
      && forall i :: j < i < |log| ==> !IsMarker(log[i], txn)
  }

  /** The DATA entries of part, in order, whose transaction's last marker in all is COMMIT. */
  ghost function CommittedData(part: seq<Entry>, all: seq<Entry>): seq<Entry>
    decreases |part|
  {
    if part == [] then []
    else if part[0].kind == 1 && LastMarkerIsCommit(all, part[0].txn) then [part[0]] + CommittedData(part[1..], all)
    else CommittedData(part[1..], all)
  }

  lemma LastMarkerStep(init: seq<Entry>, e: Entry, txn: Int32)
    ensures LastMarkerIsCommit(init + [e], txn)
      <==> if IsMarker(e, txn) then e.kind == 2 else LastMarkerIsCommit(init, txn)
  {
    var log := init + [e];
    if IsMarker(e, txn) {
      if e.kind == 2 { assert IsMarker(log[|init|], txn); }
      assert log[|init|] == e;
    } else {
      if LastMarkerIsCommit(init, txn) {
        var j :| 0 <= j < |init| && IsMarker(init[j], txn) && init[j].kind == 2
          && forall i :: j < i < |init| ==> !IsMarker(init[i], txn);
        assert IsMarker(log[j], txn);
      }
      if LastMarkerIsCommit(log, txn) {
        var j :| 0 <= j < |log| && IsMarker(log[j], txn) && log[j].kind == 2
          && forall i :: j < i < |log| ==> !IsMarker(log[i], txn);
        forall i | j < i < |init| ensures !IsMarker(init[i], txn) { assert init[i] == log[i]; }
        assert IsMarker(init[j], txn);
      }
    }
  }

  /** The map built by the first pass says committed exactly for last-marker-COMMIT. */
  lemma {:induction false} MarksMean(log: seq<Entry>, txn: Int32)
    ensures var m := Fold(Mark, map[], log);
      (txn in m && m[txn]) <==> LastMarkerIsCommit(log, txn)
    decreases |log|
  {
    if log != [] {
      var init, e := log[..|log| - 1], log[|log| - 1];
      assert log == init + [e];
      FoldSplit(Mark, map[], init, [e]);
      FoldOne(Mark, Fold(Mark, map[], init), e);
      MarksMean(init, txn);
      LastMarkerStep(init, e, txn);
    }
  }

  lemma {:induction false} KeptIsCommittedData(acc: seq<Entry>, part: seq<Entry>, all: seq<Entry>)
    ensures Fold(Keep(Fold(Mark, map[], all)), acc, part) == acc + CommittedData(part, all)
    decreases |part|
  {
    var m := Fold(Mark, map[], all);
    if part != [] {
      MarksMean(all, part[0].txn);
      KeptIsCommittedData(Keep(m)(acc, part[0]), part[1..], all);
    }
  }

  /** What recover returns on a file: see WALManager.Recover. */
  function Recovered(file: seq<Byte>): seq<Entry> {
    var log := ScanLog(file).entries;
    Fold(Keep(Fold(Mark, map[], log)), [], log)
  }

  /** Crash safety.  However the writer's file is cut, recovery ends normally and returns, in
      log order, exactly the DATA entries wholly inside the prefix whose transaction's last
      whole marker there is COMMIT. */
  lemma CrashSafety(log: seq<Entry>, k: nat)
    requires All(Loggable, log) && k <= |EncodeAll(Encode, log)|
    ensures var whole := log[..WholeEntries(Encode, log, k)];
      && ScanLog(EncodeAll(Encode, log)[..k]) == Scan(whole, Done)
      && Recovered(EncodeAll(Encode, log)[..k]) == CommittedData(whole, whole)
  {
    WalIsCodec();
    var whole := log[..WholeEntries(Encode, log, k)];
    ScanCut(Encode, Decode, Loggable, log, k);
    KeptIsCommittedData([], whole, whole);
  }

  /** On the uncut file, recovery sees every entry; its first pass therefore folds Mark over
      the entries the writer itself folded it over, and rebuilds the writer's map. */
  lemma FullRecovery(log: seq<Entry>)
    requires All(Loggable, log)
    ensures ScanLog(EncodeAll(Encode, log)) == Scan(log, Done)
    ensures Recovered(EncodeAll(Encode, log)) == CommittedData(log, log)
  {
    var file := EncodeAll(Encode, log);
    WholeEntriesIsLargest(Encode, log, |file|, |log|);
    assert file[..|file|] == file && log[..|log|] == log;
    CrashSafety(log, |file|);
  }

  lemma {:induction false} CommittedDataContains(part: seq<Entry>, all: seq<Entry>, i: nat)
    requires i < |part| && part[i].kind == 1 && LastMarkerIsCommit(all, part[i].txn)
    ensures part[i] in CommittedData(part, all)
    decreases |part|
  {
    if i > 0 {
      CommittedDataContains(part[1..], all, i - 1);
    }
  }

  /** A COMMIT that no ABORT follows leaves its transaction committed. */
  lemma {:induction false} UnrevokedCommit(log: seq<Entry>, c: nat)
    requires c < |log| && log[c].kind == 2
    requires forall j :: c < j < |log| ==> !(log[j].kind == 3 && log[j].txn == log[c].txn)
    ensures LastMarkerIsCommit(log, log[c].txn)
    decreases |log|
  {
    var n := |log| - 1;
    assert log == log[..n] + [log[n]];
    LastMarkerStep(log[..n], log[n], log[c].txn);
    if c < n && !IsMarker(log[n], log[c].txn) { UnrevokedCommit(log[..n], c); }
  }

  /** Durability: once a COMMIT is whole in the file, every crash recovers each entry of its
      transaction that is whole in the file, before or after the COMMIT, as long as no ABORT of
      the transaction that is whole in the file follows the COMMIT. */
  lemma Durable(log: seq<Entry>, i: nat, c: nat, k: nat)
    requires All(Loggable, log) && k <= |EncodeAll(Encode, log)|
    requires i < WholeEntries(Encode, log, k) && c < WholeEntries(Encode, log, k)
    requires log[i].kind == 1 && log[c].kind == 2 && log[c].txn == log[i].txn
    requires forall j :: c < j < WholeEntries(Encode, log, k) ==> !(log[j].kind == 3 && log[j].txn == log[i].txn)
    ensures log[i] in Recovered(EncodeAll(Encode, log)[..k])
  {
    CrashSafety(log, k);
    var whole := log[..WholeEntries(Encode, log, k)];
    UnrevokedCommit(whole, c);
    CommittedDataContains(whole, whole, i);
  }

  // ----- Writing on after a crash -----

  /** The file a crash left is read back together with whatever is then appended to it. */
  ghost predicate ResumesWell(file: seq<Byte>, whole: seq<Entry>, more: seq<Entry>) {
    ScanLog(file + EncodeAll(Encode, more)) == Scan(whole + more, Done)
  }

  /** The writer appends to whatever the crash left.  What it appends is read back, for every
      possible continuation, exactly when the crash cut the file between two entries. */
  lemma ResumeSafeIff(log: seq<Entry>, k: nat)
    requires All(Loggable, log) && k <= |EncodeAll(Encode, log)|
    ensures var whole := log[..WholeEntries(Encode, log, k)];
      (forall more :: All(Loggable, more) ==> ResumesWell(EncodeAll(Encode, log)[..k], whole, more))
      <==> k == |EncodeAll(Encode, whole)|
  {
    var whole := log[..WholeEntries(Encode, log, k)];
    var file := EncodeAll(Encode, log)[..k];
    var torn := CutFile(Encode, log, k);
    if torn == [] {
      assert file == EncodeAll(Encode, whole);
      forall more | All(Loggable, more) ensures ResumesWell(file, whole, more) {
        EncodeAllSplit(Encode, whole, more);
        FullRecovery(whole + more);
      }
    } else {
      var more := LostContinuation(whole, torn);
      assert !ResumesWell(file, whole, more);
    }
  }

  /** A continuation that a torn tail swallows: its first byte is not the tail's. */
  lemma LostContinuation(whole: seq<Entry>, torn: seq<Byte>) returns (more: seq<Entry>)
    requires All(Loggable, whole) && torn != []
    ensures All(Loggable, more)
    ensures !ResumesWell(EncodeAll(Encode, whole) + torn, whole, more)
  {
    more := [Entry(if torn[0] == 0 then 1 else 0, 2, [])];
    FirstByteDecides(torn + EncodeAll(Encode, more));
    WalIsCodec();
    TornTailSwallows(Encode, Decode, Loggable, whole, torn, more);
  }

  /** An entry read from a buffer has the buffer's first byte as the low byte of its number. */
  lemma FirstByteDecides(buf: seq<Byte>)
    requires buf != []
    ensures Decode(buf).Whole? ==> Decode(buf).entry.txn != if buf[0] == 0 then 1 else 0
  {
    if Decode(buf).Whole? {
      var field := buf[0..4];
      assert FromLe32(field) == buf[0] as nat + 256 * FromLittleEndian(field[1..]);
      assert FromLe32(field) % 256 == buf[0] as nat;
    }
  }
}
