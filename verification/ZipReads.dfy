/** What the reader of ZIP archives takes from any bytes, whoever wrote them. */
module ZipReads {
  import opened Bytes
  import opened Zip

  /** What lies between two places, as far as the bytes go. */
  ghost predicate IsClipped(part: Bytes, buffer: Bytes, from: nat, to: nat) {
    && |part| == (if to <= |buffer| then to - from else if from <= |buffer| then |buffer| - from else 0)
    && PartAt(if from <= |buffer| then buffer else part, if from <= |buffer| then from else 0, part)
  }

  lemma SliceIsClipped(buffer: Bytes, from: nat, to: nat, part: Bytes)
    requires from <= to
    ensures Slice(buffer, from, to) == part <==> IsClipped(part, buffer, from, to)
  {
  }

  ghost predicate Holds16(buffer: Bytes, at: nat, n: nat) { n < 0x1_0000 && PartAt(buffer, at, U16(n)) }

  ghost predicate Holds32(buffer: Bytes, at: nat, n: nat) { n < 0x1_0000_0000 && PartAt(buffer, at, U32(n)) }

  lemma Sixteen(buffer: Bytes, at: nat, n: nat)
    requires at + 2 <= |buffer|
    ensures ReadU16(buffer, at) == n <==> Holds16(buffer, at, n)
  {
    if Holds16(buffer, at, n) { U16ReadsBack(buffer, at, n); }
  }

  lemma ThirtyTwo(buffer: Bytes, at: nat, n: nat)
    requires at + 4 <= |buffer|
    ensures ReadU32(buffer, at) == n <==> Holds32(buffer, at, n)
  {
    if Holds32(buffer, at, n) { U32ReadsBack(buffer, at, n); }
    if ReadU32(buffer, at) == n {
      var low, high := ReadU16(buffer, at), ReadU16(buffer, at + 2);
      Sixteen(buffer, at, low);
      Sixteen(buffer, at + 2, high);
      assert n % 0x1_0000 == low && n / 0x1_0000 == high;
      forall k | 0 <= k < 4 ensures buffer[at + k] == U32(n)[k] {
        if k < 2 { assert buffer[at + k] == U16(low)[k]; } else { assert buffer[at + 2 + (k - 2)] == U16(high)[k - 2]; }
      }
    }
  }

  const LOCAL: Bytes := ['P' as int, 'K' as int, 3, 4]
  const CENTRAL: Bytes := ['P' as int, 'K' as int, 1, 2]
  const END: Bytes := ['P' as int, 'K' as int, 5, 6]

  /** The signatures, as bytes. */
  lemma SignaturesAre(buffer: Bytes, at: nat)
    requires at + 4 <= |buffer|
    ensures ReadU32(buffer, at) == LOCAL_SIGNATURE <==> PartAt(buffer, at, LOCAL)
    ensures ReadU32(buffer, at) == CENTRAL_SIGNATURE <==> PartAt(buffer, at, CENTRAL)
    ensures ReadU32(buffer, at) == END_SIGNATURE <==> PartAt(buffer, at, END)
  {
    hide PartAt;
    ThirtyTwo(buffer, at, LOCAL_SIGNATURE);
    ThirtyTwo(buffer, at, CENTRAL_SIGNATURE);
    ThirtyTwo(buffer, at, END_SIGNATURE);
    assert U32(LOCAL_SIGNATURE) == LOCAL && U32(CENTRAL_SIGNATURE) == CENTRAL && U32(END_SIGNATURE) == END;
  }

  /** A record of the central directory: its fields, its name as far as the bytes go, and where the next one is. */
  ghost predicate IsRecordOf(buffer: Bytes, at: nat, e: Entry, next: nat, name: nat, extra: nat, comment: nat) {
    && at + 46 <= |buffer| && PartAt(buffer, at, CENTRAL)
    && Holds16(buffer, at + 10, e.compression) && Holds32(buffer, at + 20, e.compressedSize)
    && Holds32(buffer, at + 24, e.uncompressedSize) && Holds32(buffer, at + 42, e.localHeader)
    && Holds16(buffer, at + 28, name) && Holds16(buffer, at + 30, extra) && Holds16(buffer, at + 32, comment)
    && IsClipped(e.name, buffer, at + 46, at + 46 + name) && next == at + 46 + name + extra + comment
  }

  lemma RecordIs(buffer: Bytes, at: nat, e: Entry, next: nat, name: nat, extra: nat, comment: nat)
    requires at + 46 <= |buffer|
    requires ReadU16(buffer, at + 28) == name && ReadU16(buffer, at + 30) == extra && ReadU16(buffer, at + 32) == comment
    ensures Record(buffer, at) == Ok((e, next)) <==> IsRecordOf(buffer, at, e, next, name, extra, comment)
  {
    hide Holds16, Holds32, PartAt, IsClipped, ReadU16, ReadU32, Slice;
    SignaturesAre(buffer, at);
    Sixteen(buffer, at + 10, e.compression);
    ThirtyTwo(buffer, at + 20, e.compressedSize);
    ThirtyTwo(buffer, at + 24, e.uncompressedSize);
    ThirtyTwo(buffer, at + 42, e.localHeader);
    Sixteen(buffer, at + 28, name);
    Sixteen(buffer, at + 30, extra);
    Sixteen(buffer, at + 32, comment);
    SliceIsClipped(buffer, at + 46, at + 46 + name, e.name);
  }

  lemma RecordsAre(buffer: Bytes, at: nat, e: Entry, next: nat)
    ensures Record(buffer, at) == Ok((e, next)) <==>
              exists name, extra, comment :: IsRecordOf(buffer, at, e, next, name, extra, comment)
  {
    hide Holds16, Holds32, PartAt, IsClipped, ReadU16, ReadU32, Slice;
    if at + 46 <= |buffer| {
      RecordIs(buffer, at, e, next, ReadU16(buffer, at + 28), ReadU16(buffer, at + 30), ReadU16(buffer, at + 32));
      forall name, extra, comment | IsRecordOf(buffer, at, e, next, name, extra, comment) ensures Record(buffer, at) == Ok((e, next)) {
        Sixteen(buffer, at + 28, name);
        Sixteen(buffer, at + 30, extra);
        Sixteen(buffer, at + 32, comment);
        RecordIs(buffer, at, e, next, name, extra, comment);
      }
    }
  }

  /** The data of an entry: behind its local header, as they are, or inflated. */
  ghost predicate IsDataOf(buffer: Bytes, e: Entry, inflate: Bytes -> Option<Bytes>, data: Bytes, name: nat, extra: nat, part: Bytes) {
    && e.localHeader + 30 <= |buffer| && PartAt(buffer, e.localHeader, LOCAL)
    && Holds16(buffer, e.localHeader + 26, name) && Holds16(buffer, e.localHeader + 28, extra)
    && IsClipped(part, buffer, e.localHeader + 30 + name + extra, e.localHeader + 30 + name + extra + e.compressedSize)
    && ((e.compression == 0 && data == part) || (e.compression == 8 && inflate(part) == Some(data)))
  }

  lemma DataIs(buffer: Bytes, e: Entry, inflate: Bytes -> Option<Bytes>, data: Bytes, name: nat, extra: nat, part: Bytes)
    requires var at := e.localHeader; at + 30 <= |buffer| && ReadU16(buffer, at + 26) == name && ReadU16(buffer, at + 28) == extra
    requires var start := e.localHeader + 30 + name + extra; Slice(buffer, start, start + e.compressedSize) == part
    ensures ReadEntry(buffer, e, inflate) == Ok(data) <==> IsDataOf(buffer, e, inflate, data, name, extra, part)
  {
    hide Holds16, PartAt, IsClipped, ReadU16, ReadU32, Slice;
    var at := e.localHeader;
    SignaturesAre(buffer, at);
    Sixteen(buffer, at + 26, name);
    Sixteen(buffer, at + 28, extra);
    SliceIsClipped(buffer, at + 30 + name + extra, at + 30 + name + extra + e.compressedSize, part);
  }

  /** An entry is read exactly when it is stored or can be inflated, behind a local header. */
  lemma DataAre(buffer: Bytes, e: Entry, inflate: Bytes -> Option<Bytes>, data: Bytes)
    ensures ReadEntry(buffer, e, inflate) == Ok(data) <==>
              exists name, extra, part :: IsDataOf(buffer, e, inflate, data, name, extra, part)
  {
    hide Holds16, PartAt, IsClipped, ReadU16, ReadU32, Slice;
    var at := e.localHeader;
    if at + 30 <= |buffer| {
      var n, m := ReadU16(buffer, at + 26), ReadU16(buffer, at + 28);
      DataIs(buffer, e, inflate, data, n, m, Slice(buffer, at + 30 + n + m, at + 30 + n + m + e.compressedSize));
      forall name, extra, part | IsDataOf(buffer, e, inflate, data, name, extra, part) ensures ReadEntry(buffer, e, inflate) == Ok(data) {
        Sixteen(buffer, at + 26, name);
        Sixteen(buffer, at + 28, extra);
        SliceIsClipped(buffer, at + 30 + name + extra, at + 30 + name + extra + e.compressedSize, part);
        DataIs(buffer, e, inflate, data, name, extra, part);
      }
    }
  }

  /** No other method is known. */
  lemma OtherMethodsAreRefused(buffer: Bytes, e: Entry, inflate: Bytes -> Option<Bytes>)
    requires e.localHeader + 30 <= |buffer| && PartAt(buffer, e.localHeader, LOCAL)
    ensures ReadEntry(buffer, e, inflate) == Err(UnsupportedMethod) <==> e.compression != 0 && e.compression != 8
  {
    hide PartAt, ReadU16, ReadU32, Slice;
    SignaturesAre(buffer, e.localHeader);
  }

  /** A record without its signature is corrupt, and one without its 46 bytes out of range. */
  lemma RecordFailuresAre(buffer: Bytes, at: nat)
    ensures Record(buffer, at) == Err(CorruptCentral) <==> at + 4 <= |buffer| && !PartAt(buffer, at, CENTRAL)
    ensures Record(buffer, at) == Err(OutOfRange)
            <==> at + 4 > |buffer| || (PartAt(buffer, at, CENTRAL) && at + 46 > |buffer|)
    ensures Record(buffer, at).Err? ==> Record(buffer, at).failure in {CorruptCentral, OutOfRange}
  {
    hide PartAt, ReadU16, ReadU32, Slice;
    if at + 4 <= |buffer| { SignaturesAre(buffer, at); }
  }

  /** So it is for local headers, of 30 bytes. */
  lemma HeaderFailuresAre(buffer: Bytes, e: Entry, inflate: Bytes -> Option<Bytes>)
    ensures ReadEntry(buffer, e, inflate) == Err(NoLocalHeader)
            <==> e.localHeader + 4 <= |buffer| && !PartAt(buffer, e.localHeader, LOCAL)
    ensures ReadEntry(buffer, e, inflate) == Err(OutOfRange)
            <==> e.localHeader + 4 > |buffer| || (PartAt(buffer, e.localHeader, LOCAL) && e.localHeader + 30 > |buffer|)
  {
    hide PartAt, ReadU16, ReadU32, Slice;
    if e.localHeader + 4 <= |buffer| { SignaturesAre(buffer, e.localHeader); }
  }
}
