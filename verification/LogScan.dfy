/**
 Scanning an append-only log of self-delimiting entries.

 What recovery can see of a log that was cut at an arbitrary byte does not depend on how
 one entry is laid out, only on two facts about the codec: a whole entry at the front of a
 buffer is decoded as such, and a strict prefix of an entry is recognised as incomplete.
 The theory is stated for any such codec and applied to src/recovery_wal.cpp in module Wal.
 */
module LogScan {
  import opened Words
  import opened Folds

  /** What a decoder says of a buffer: it is too short, or starts with a whole entry, or made
      the decoder read past its end. */
  datatype Decoded<E> = Short | Whole(entry: E, consumed: nat) | OutOfBounds

  /** How the scan of a file ends: at its end or at an incomplete entry; with a read past
      the buffer; or never, because an entry that consumes nothing is met again and again. */
  datatype Ending = Done | Overrun | Diverges

  datatype Scan<E> = Scan(entries: seq<E>, ending: Ending)

  /** The decoder consumes no more than it was given. */
  ghost predicate Bounded<E>(dec: seq<Byte> -> Decoded<E>) {
    forall buf :: dec(buf).Whole? ==> dec(buf).consumed <= |buf|
  }

  /** The entry at the front of a buffer is decoded. */
  ghost predicate Decodes<E>(enc: E -> seq<Byte>, dec: seq<Byte> -> Decoded<E>, e: E, rest: seq<Byte>) {
    enc(e) != [] && dec(enc(e) + rest) == Whole(e, |enc(e)|)
  }

  /** A strict prefix of an entry is found too short. */
  ghost predicate Recognises<E>(enc: E -> seq<Byte>, dec: seq<Byte> -> Decoded<E>, e: E, k: nat) {
    k < |enc(e)| ==> dec(enc(e)[..k]) == Short
  }

  /** ok entries survive encoding followed by anything, and are recognised when cut. */
  ghost predicate IsCodec<E(!new)>(enc: E -> seq<Byte>, dec: seq<Byte> -> Decoded<E>, ok: E -> bool) {
    && Bounded(dec)
    && (forall e, rest {:trigger Decodes(enc, dec, e, rest)} :: ok(e) ==> Decodes(enc, dec, e, rest))
    && (forall e, k {:trigger Recognises(enc, dec, e, k)} :: ok(e) ==> Recognises(enc, dec, e, k))
  }

  /** The entries read from the front of the buffer until none can be read. */
  function ScanAll<E>(dec: seq<Byte> -> Decoded<E>, buf: seq<Byte>): Scan<E>
    requires Bounded(dec)
    decreases |buf|
  {
    if buf == [] then Scan([], Done)
    else match dec(buf)
      case Short => Scan([], Done)
      case OutOfBounds => Scan([], Overrun)
      case Whole(e, consumed) =>
        if consumed == 0 then Scan([], Diverges)
        else
          var rest := ScanAll(dec, buf[consumed..]);
          Scan([e] + rest.entries, rest.ending)
  }

  /** One pass over a buffer: decode at pos, take the entry into account, move on. */
  method Pass<M, E>(dec: seq<Byte> -> Decoded<E>, step: (M, E) -> M, init: M, buffer: seq<Byte>)
    returns (ending: Ending, m: M)
    requires Bounded(dec)
    ensures ending == ScanAll(dec, buffer).ending
    ensures ending == Done ==> m == Fold(step, init, ScanAll(dec, buffer).entries)
  {
    m := init;
    ghost var scan := ScanAll(dec, buffer);
    var pos := 0;
    while pos < |buffer|
      invariant pos <= |buffer|
      invariant ScanAll(dec, buffer[pos..]).ending == scan.ending
      invariant Fold(step, m, ScanAll(dec, buffer[pos..]).entries) == Fold(step, init, scan.entries)
    {
      var d := dec(buffer[pos..]);
      if d.Short? { break; }
      if d.OutOfBounds? { return Overrun, m; }
      if d.consumed == 0 { return Diverges, m; }
      m := step(m, d.entry);
      assert buffer[pos..][d.consumed..] == buffer[pos + d.consumed..];
      pos := pos + d.consumed;
    }
    ending := Done;
  }

  // ----- Written files -----

  function EncodeAll<E>(enc: E -> seq<Byte>, log: seq<E>): seq<Byte> {
    if log == [] then [] else enc(log[0]) + EncodeAll(enc, log[1..])
  }

  predicate All<E>(ok: E -> bool, log: seq<E>) {
    forall i :: 0 <= i < |log| ==> ok(log[i])
  }

  lemma {:induction false} EncodeAllSplit<E>(enc: E -> seq<Byte>, a: seq<E>, b: seq<E>)
    ensures EncodeAll(enc, a + b) == EncodeAll(enc, a) + EncodeAll(enc, b)
    decreases |a|
  {
    if a == [] {
      assert a + b == b;
    } else {
      assert (a + b)[1..] == a[1..] + b;
      EncodeAllSplit(enc, a[1..], b);
    }
  }

  /** How many entries lie wholly inside the first k bytes. */
  function WholeEntries<E>(enc: E -> seq<Byte>, log: seq<E>, k: nat): (n: nat)
    ensures n <= |log|
    decreases |log|
  {
    if log == [] || k < |enc(log[0])| then 0
    else 1 + WholeEntries(enc, log[1..], k - |enc(log[0])|)
  }

  /** WholeEntries is the largest such number. */
  lemma {:induction false} WholeEntriesIsLargest<E>(enc: E -> seq<Byte>, log: seq<E>, k: nat, n: nat)
    requires n <= |log|
    ensures n <= WholeEntries(enc, log, k) <==> |EncodeAll(enc, log[..n])| <= k
    decreases |log|
  {
    if n > 0 {
      assert log[..n][1..] == log[1..][..n - 1];
      if k >= |enc(log[0])| {
        WholeEntriesIsLargest(enc, log[1..], k - |enc(log[0])|, n - 1);
      }
    }
  }

  lemma ScanFirst<E(!new)>(enc: E -> seq<Byte>, dec: seq<Byte> -> Decoded<E>, ok: E -> bool, e: E, tail: seq<Byte>)
    requires IsCodec(enc, dec, ok) && ok(e)
    ensures var after := ScanAll(dec, tail);
      ScanAll(dec, enc(e) + tail) == Scan([e] + after.entries, after.ending)
  {
    assert Decodes(enc, dec, e, tail);
    assert (enc(e) + tail)[|enc(e)|..] == tail;
  }

  lemma EncodeAllFirst<E>(enc: E -> seq<Byte>, log: seq<E>, rest: seq<Byte>)
    requires log != []
    ensures EncodeAll(enc, log) + rest == enc(log[0]) + (EncodeAll(enc, log[1..]) + rest)
  {
  }

  lemma FirstThenOthers<E>(log: seq<E>, more: seq<E>)
    requires log != []
    ensures [log[0]] + (log[1..] + more) == log + more
  {
  }

  /** Scanning a file sees exactly the written entries, then whatever follows them. */
  lemma {:induction false} ScanWritten<E(!new)>(enc: E -> seq<Byte>, dec: seq<Byte> -> Decoded<E>, ok: E -> bool,
                                                log: seq<E>, rest: seq<Byte>)
    requires IsCodec(enc, dec, ok) && All(ok, log)
    ensures var after := ScanAll(dec, rest);
      ScanAll(dec, EncodeAll(enc, log) + rest) == Scan(log + after.entries, after.ending)
    decreases |log|
  {
    if log == [] {
      assert EncodeAll(enc, log) + rest == rest;
      assert log + ScanAll(dec, rest).entries == ScanAll(dec, rest).entries;
    } else {
      EncodeAllFirst(enc, log, rest);
      ScanFirst(enc, dec, ok, log[0], EncodeAll(enc, log[1..]) + rest);
      ScanWritten(enc, dec, ok, log[1..], rest);
      FirstThenOthers(log, ScanAll(dec, rest).entries);
    }
  }

  /** A cut file is its whole entries followed by a strict prefix of the next one, or nothing. */
  lemma {:induction false} CutFile<E>(enc: E -> seq<Byte>, log: seq<E>, k: nat) returns (torn: seq<Byte>)
    requires k <= |EncodeAll(enc, log)|
    ensures var n := WholeEntries(enc, log, k);
      && EncodeAll(enc, log)[..k] == EncodeAll(enc, log[..n]) + torn
      && (torn != [] ==> n < |log| && |torn| < |enc(log[n])| && torn == enc(log[n])[..|torn|])
    decreases |log|
  {
    if log == [] || k < |enc(log[0])| {
      torn := EncodeAll(enc, log)[..k];
    } else {
      var first := enc(log[0]);
      torn := CutFile(enc, log[1..], k - |first|);
      var n := WholeEntries(enc, log, k);
      assert log[..n][1..] == log[1..][..n - 1];
      assert EncodeAll(enc, log)[..k] == first + EncodeAll(enc, log[1..])[..k - |first|];
    }
  }

  /** However a written file is cut, the scan ends normally with exactly the whole entries. */
  lemma ScanCut<E(!new)>(enc: E -> seq<Byte>, dec: seq<Byte> -> Decoded<E>, ok: E -> bool, log: seq<E>, k: nat)
    requires IsCodec(enc, dec, ok) && All(ok, log) && k <= |EncodeAll(enc, log)|
    ensures ScanAll(dec, EncodeAll(enc, log)[..k]) == Scan(log[..WholeEntries(enc, log, k)], Done)
  {
    var n := WholeEntries(enc, log, k);
    var torn := CutFile(enc, log, k);
    ScanWritten(enc, dec, ok, log[..n], torn);
    if torn != [] {
      assert Recognises(enc, dec, log[n], |torn|);
    }
    assert log[..n] + [] == log[..n];
  }

  /** A continuation is lost when its first entry cannot be read at the front of the torn tail. */
  lemma TornTailSwallows<E(!new)>(enc: E -> seq<Byte>, dec: seq<Byte> -> Decoded<E>, ok: E -> bool,
                                  whole: seq<E>, torn: seq<Byte>, more: seq<E>)
    requires IsCodec(enc, dec, ok) && All(ok, whole) && more != [] && torn != []
    requires dec(torn + EncodeAll(enc, more)).Whole? ==> dec(torn + EncodeAll(enc, more)).entry != more[0]
    ensures ScanAll(dec, EncodeAll(enc, whole) + torn + EncodeAll(enc, more)).entries != whole + more
  {
    var rest := torn + EncodeAll(enc, more);
    assert EncodeAll(enc, whole) + torn + EncodeAll(enc, more) == EncodeAll(enc, whole) + rest;
    ScanWritten(enc, dec, ok, whole, rest);
    var got := ScanAll(dec, rest).entries;
    assert got == (whole + got)[|whole|..] && more == (whole + more)[|whole|..];
  }
}
