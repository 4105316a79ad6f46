/**
 The ZIP archives of the fixture writer, whose entries are all stored, and the
 repository's own reader of ZIP archives. Names are the bytes of their UTF-8 text.
 */
module Zip {
  import opened Bytes
  import Crc32

  type File = (Bytes, Bytes)

  const LOCAL_SIGNATURE := 0x04034b50
  const CENTRAL_SIGNATURE := 0x02014b50
  const END_SIGNATURE := 0x06054b50
  const SLASH: byte := 0x2f

  // ---- The archive that the writer lays out ------------------------------------

  ghost function CrcField(data: Bytes): nat {
    Crc32.Number(Crc32.Crc(data))
  }

  /** The three fields that both headers have: checksum, compressed size and size. */
  ghost function Sizes(data: Bytes): Bytes {
    U32(CrcField(data)) + U32(|data|) + U32(|data|)
  }

  ghost function LocalVersions(): Bytes {
    U32(LOCAL_SIGNATURE) + U16(20) + U16(0) + U16(0) + U16(0) + U16(1)
  }

  ghost function LocalHeader(name: Bytes, data: Bytes): (header: Bytes)
    ensures |header| == 30 + |name|
  {
    LocalVersions() + Sizes(data) + (U16(|name|) + U16(0)) + name
  }

  ghost function CentralVersions(): Bytes {
    U32(CENTRAL_SIGNATURE) + U16(20) + U16(20) + U16(0) + U16(0) + U16(0) + U16(1)
  }

  ghost function CentralRest(nameLength: nat, offset: nat): Bytes {
    U16(nameLength) + U16(0) + U16(0) + U16(0) + U16(0) + U32(0) + U32(offset)
  }

  ghost function CentralHeader(name: Bytes, data: Bytes, offset: nat): (header: Bytes)
    ensures |header| == 46 + |name|
  {
    CentralVersions() + Sizes(data) + CentralRest(|name|, offset) + name
  }

  ghost function EndRecord(count: nat, size: nat, offset: nat): (end: Bytes)
    ensures |end| == 22
  {
    U32(END_SIGNATURE) + U16(0) + U16(0) + U16(count) + U16(count) + U32(size) + U32(offset) + U16(0)
  }

  /** Chunks end to end, as `Buffer.concat` puts them. */
  ghost function Glue(chunks: seq<Bytes>): Bytes {
    if chunks == [] then [] else Glue(chunks[..|chunks| - 1]) + chunks[|chunks| - 1]
  }

  ghost function LocalChunk(file: File): Bytes {
    LocalHeader(file.0, file.1) + file.1
  }

  ghost function LocalChunks(files: seq<File>): seq<Bytes> {
    seq(|files|, k requires 0 <= k < |files| => LocalChunk(files[k]))
  }

  ghost function Locals(files: seq<File>): Bytes {
    Glue(LocalChunks(files))
  }

  /** The bytes before the local header of entry `k`. */
  ghost function OffsetOf(files: seq<File>, k: nat): nat
    requires k <= |files|
  {
    |Locals(files[..k])|
  }

  ghost function CentralChunk(files: seq<File>, k: nat): Bytes
    requires k < |files|
  {
    CentralHeader(files[k].0, files[k].1, OffsetOf(files, k))
  }

  ghost function CentralChunks(files: seq<File>): seq<Bytes> {
    seq(|files|, k requires 0 <= k < |files| => CentralChunk(files, k))
  }

  ghost function Centrals(files: seq<File>): Bytes {
    Glue(CentralChunks(files))
  }

  ghost function Archive(files: seq<File>): Bytes {
    Locals(files) + Centrals(files) + EndRecord(|files|, |Centrals(files)|, |Locals(files)|)
  }

  /** Every number that the writer stores has room in its field. */
  ghost predicate Fits(files: seq<File>) {
    && |files| < LIMIT16
    && |Centrals(files)| < LIMIT32
    && |Locals(files)| < LIMIT32
    && NamesFit(files, |files|)
  }

  ghost predicate NamesFit(files: seq<File>, count: nat)
    requires count <= |files|
  {
    forall k | 0 <= k < count :: |files[k].0| < LIMIT16
  }

  // ---- The writer ---------------------------------------------------------------

  const LIMIT16 := 0x1_0000
  const LIMIT32 := 0x1_0000_0000

  /** `copy`, and what the integer writes below do. */
  method Put(buffer: array<byte>, bytes: Bytes, at: nat)
    requires at + |bytes| <= buffer.Length
    modifies buffer
    ensures buffer[at..at + |bytes|] == bytes
    ensures forall k | 0 <= k < buffer.Length && !(at <= k < at + |bytes|) :: buffer[k] == old(buffer[k])
  {
    forall k | 0 <= k < |bytes| {
      buffer[at + k] := bytes[k];
    }
  }

  /** `writeUInt16LE`, right after the bytes `before`. */
  method Put16(buffer: array<byte>, value: nat, at: nat, ghost before: Bytes)
    requires value < LIMIT16 && |before| <= at <= at + 2 <= buffer.Length
    requires buffer[at - |before|..at] == before
    modifies buffer
    ensures buffer[at - |before|..at + 2] == before + U16(value)
    ensures forall k | 0 <= k < buffer.Length && !(at <= k < at + 2) :: buffer[k] == old(buffer[k])
  {
    Put(buffer, U16(value), at);
    assert buffer[at - |before|..at] == before;
    assert buffer[at - |before|..at + 2] == buffer[at - |before|..at] + buffer[at..at + 2];
  }

  /** `writeUInt32LE`, right after the bytes `before`. */
  method Put32(buffer: array<byte>, value: nat, at: nat, ghost before: Bytes)
    requires value < LIMIT32 && |before| <= at <= at + 4 <= buffer.Length
    requires buffer[at - |before|..at] == before
    modifies buffer
    ensures buffer[at - |before|..at + 4] == before + U32(value)
    ensures forall k | 0 <= k < buffer.Length && !(at <= k < at + 4) :: buffer[k] == old(buffer[k])
  {
    Put(buffer, U32(value), at);
    assert buffer[at - |before|..at] == before;
    assert buffer[at - |before|..at + 4] == buffer[at - |before|..at] + buffer[at..at + 4];
  }

  method PutSizes(buffer: array<byte>, data: Bytes, checksum: nat, at: nat)
    requires at + 12 <= buffer.Length && checksum == CrcField(data) < LIMIT32 && |data| < LIMIT32
    modifies buffer
    ensures buffer[at..at + 12] == Sizes(data)
    ensures forall k | 0 <= k < buffer.Length && !(at <= k < at + 12) :: buffer[k] == old(buffer[k])
  {
    Put(buffer, U32(checksum), at);
    Put32(buffer, |data|, at + 4, U32(checksum));
    Put32(buffer, |data|, at + 8, U32(checksum) + U32(|data|));
  }

  method PutLocalVersions(local: array<byte>)
    requires local.Length >= 14
    modifies local
    ensures local[..14] == LocalVersions()
  {
    var signature := U32(LOCAL_SIGNATURE);
    Put(local, signature, 0);
    Put16(local, 20, 4, signature);
    Put16(local, 0, 6, signature + U16(20));
    Put16(local, 0, 8, signature + U16(20) + U16(0));
    Put16(local, 0, 10, signature + U16(20) + U16(0) + U16(0));
    Put16(local, 1, 12, signature + U16(20) + U16(0) + U16(0) + U16(0));
  }

  lemma FourBlocks(h: Bytes, i: nat, j: nat, k: nat, a: Bytes, b: Bytes, c: Bytes, d: Bytes)
    requires i <= j <= k <= |h| && h[..i] == a && h[i..j] == b && h[j..k] == c && h[k..] == d
    ensures h == a + b + c + d
  {
  }

  method WriteLocalHeader(name: Bytes, data: Bytes, checksum: nat) returns (local: array<byte>)
    requires checksum == CrcField(data) < LIMIT32 && |data| < LIMIT32 && |name| < LIMIT16
    ensures fresh(local) && local[..] == LocalHeader(name, data)
  {
    local := new byte[30 + |name|](_ => 0);
    PutLocalVersions(local);
    PutSizes(local, data, checksum, 14);
    Put(local, U16(|name|), 26);
    Put16(local, 0, 28, U16(|name|));
    Put(local, name, 30);
    FourBlocks(local[..], 14, 26, 30, LocalVersions(), Sizes(data), U16(|name|) + U16(0), name);
  }

  method PutCentralVersions(central: array<byte>)
    requires central.Length >= 16
    modifies central
    ensures central[..16] == CentralVersions()
  {
    var signature := U32(CENTRAL_SIGNATURE);
    Put(central, signature, 0);
    Put16(central, 20, 4, signature);
    Put16(central, 20, 6, signature + U16(20));
    Put16(central, 0, 8, signature + U16(20) + U16(20));
    Put16(central, 0, 10, signature + U16(20) + U16(20) + U16(0));
    Put16(central, 0, 12, signature + U16(20) + U16(20) + U16(0) + U16(0));
    Put16(central, 1, 14, signature + U16(20) + U16(20) + U16(0) + U16(0) + U16(0));
  }

  method PutCentralRest(central: array<byte>, nameLength: nat, offset: nat)
    requires central.Length >= 46 && nameLength < LIMIT16 && offset < LIMIT32
    modifies central
    ensures central[28..46] == CentralRest(nameLength, offset)
    ensures forall k | 0 <= k < 28 :: central[k] == old(central[k])
  {
    var length := U16(nameLength);
    Put(central, length, 28);
    Put16(central, 0, 30, length);
    Put16(central, 0, 32, length + U16(0));
    Put16(central, 0, 34, length + U16(0) + U16(0));
    Put16(central, 0, 36, length + U16(0) + U16(0) + U16(0));
    Put32(central, 0, 38, length + U16(0) + U16(0) + U16(0) + U16(0));
    Put32(central, offset, 42, length + U16(0) + U16(0) + U16(0) + U16(0) + U32(0));
  }

  method WriteCentralHeader(name: Bytes, data: Bytes, checksum: nat, offset: nat) returns (central: array<byte>)
    requires checksum == CrcField(data) < LIMIT32 && |data| < LIMIT32 && |name| < LIMIT16 && offset < LIMIT32
    ensures fresh(central) && central[..] == CentralHeader(name, data, offset)
  {
    central := new byte[46 + |name|](_ => 0);
    PutCentralVersions(central);
    PutSizes(central, data, checksum, 16);
    PutCentralRest(central, |name|, offset);
    Put(central, name, 46);
    FourBlocks(central[..], 16, 28, 46, CentralVersions(), Sizes(data), CentralRest(|name|, offset), name);
  }

  method WriteEnd(count: nat, size: nat, offset: nat) returns (end: array<byte>)
    requires count < LIMIT16 && size < LIMIT32 && offset < LIMIT32
    ensures fresh(end) && end[..] == EndRecord(count, size, offset)
  {
    end := new byte[22](_ => 0);
    var signature := U32(END_SIGNATURE);
    Put(end, signature, 0);
    Put16(end, 0, 4, signature);
    Put16(end, 0, 6, signature + U16(0));
    Put16(end, count, 8, signature + U16(0) + U16(0));
    Put16(end, count, 10, signature + U16(0) + U16(0) + U16(count));
    Put32(end, size, 12, signature + U16(0) + U16(0) + U16(count) + U16(count));
    Put32(end, offset, 16, signature + U16(0) + U16(0) + U16(count) + U16(count) + U32(size));
    Put16(end, 0, 20, signature + U16(0) + U16(0) + U16(count) + U16(count) + U32(size) + U32(offset));
    assert end[..] == end[0..22];
  }

  /** The body of the writer's loop. Node's buffer writes throw when a number does not fit. */
  method WriteFile(table: array<Crc32.Word>, name: Bytes, data: Bytes, offset: nat)
    returns (parts: Option<(Bytes, Bytes)>)
    requires Crc32.IsTable(table)
    ensures parts == if |data| < LIMIT32 && |name| < LIMIT16 && offset < LIMIT32
                     then Some((LocalHeader(name, data) + data, CentralHeader(name, data, offset)))
                     else None
  {
    if |data| >= LIMIT32 || |name| >= LIMIT16 { return None; }
    var crc := Crc32.Checksum(table, data);
    Crc32.NumberBound(crc);
    Crc32.WordLimit();
    var local := WriteLocalHeader(name, data, Crc32.Number(crc));
    if offset >= LIMIT32 { return None; }
    var central := WriteCentralHeader(name, data, Crc32.Number(crc), offset);
    return Some((local[..] + data, central[..]));
  }

  method BuildStored(files: seq<File>) returns (archive: Option<Bytes>)
    ensures archive == if Fits(files) then Some(Archive(files)) else None
  {
    var table := Crc32.BuildTable();
    var locals, centrals, offset := [], [], 0;
    for k := 0 to |files|
      invariant Crc32.IsTable(table)
      invariant locals == Locals(files[..k]) && offset == |locals| && centrals == Centrals(files[..k])
      invariant NamesFit(files, k)
    {
      var (name, data) := files[k];
      OneMore(files, k);
      var parts := WriteFile(table, name, data, offset);
      if parts.None? {
        if Fits(files) { RoomForEach(files, k); }
        return None;
      }
      assert NamesFit(files, k + 1);
      locals := locals + parts.value.0;
      centrals := centrals + parts.value.1;
      offset := offset + |parts.value.0|;
    }
    assert files[..|files|] == files;
    if |files| >= LIMIT16 || |centrals| >= LIMIT32 || offset >= LIMIT32 { return None; }
    assert Fits(files);
    var end := WriteEnd(|files|, |centrals|, offset);
    archive := Some(locals + centrals + end[..]);
  }

  lemma OneMore(files: seq<File>, k: nat)
    requires k < |files|
    ensures Locals(files[..k + 1]) == Locals(files[..k]) + LocalChunk(files[k])
    ensures Centrals(files[..k + 1]) == Centrals(files[..k]) + CentralChunk(files, k)
  {
    assert LocalChunks(files[..k + 1])[..k] == LocalChunks(files[..k]);
    OneMoreCentral(files, k);
  }

  lemma OneMoreCentral(files: seq<File>, k: nat)
    requires k < |files|
    ensures CentralChunks(files[..k + 1]) == CentralChunks(files[..k]) + [CentralChunk(files, k)]
  {
    var more := files[..k + 1];
    assert more[..k] == files[..k];
    forall m | 0 <= m <= k
      ensures CentralChunk(more, m) == CentralChunk(files, m)
    {
      assert more[..m] == files[..m];
    }
    forall m | 0 <= m < k
      ensures CentralChunk(files[..k], m) == CentralChunk(files, m)
    {
      assert files[..k][..m] == files[..m];
    }
  }

  lemma RoomForEach(files: seq<File>, k: nat)
    requires Fits(files) && k < |files|
    ensures |files[k].1| < LIMIT32 && |files[k].0| < LIMIT16 && OffsetOf(files, k) < LIMIT32
  {
    ChunkStands(LocalChunks(files), k);
    assert LocalChunks(files)[..k] == LocalChunks(files[..k]);
  }

  /** Each chunk is found behind those before it. */
  lemma {:induction false} ChunkStands(chunks: seq<Bytes>, k: nat)
    requires k < |chunks|
    ensures PartAt(Glue(chunks), |Glue(chunks[..k])|, chunks[k])
    decreases |chunks|
  {
    var n := |chunks| - 1;
    var before, last := Glue(chunks[..n]), chunks[n];
    assert Glue(chunks) == before + last;
    if k < n {
      ChunkStands(chunks[..n], k);
      assert chunks[..n][..k] == chunks[..k];
      PrefixKeepsPart(before, last, |Glue(chunks[..k])|, chunks[k]);
    } else {
      assert PartAt(before + last, |before|, last);
    }
  }

  // ---- The reader ---------------------------------------------------------------

  datatype Entry = Entry(name: Bytes, compression: nat, compressedSize: nat, uncompressedSize: nat, localHeader: nat)

  datatype Failure = NoEnd | CorruptCentral | NoLocalHeader | UnsupportedMethod | NotInflatable | OutOfRange
  datatype Result<+T> = Ok(value: T) | Err(failure: Failure)

  /** Whether `readUInt16LE` or `readUInt32LE` finds its bytes; otherwise it throws. */
  predicate Has(buffer: Bytes, at: nat, width: nat) {
    at + width <= |buffer|
  }

  /** `Buffer.slice` stops at the end of the buffer. */
  function Slice(buffer: Bytes, from: nat, to: nat): Bytes
    requires from <= to
  {
    if to <= |buffer| then buffer[from..to] else if from <= |buffer| then buffer[from..] else []
  }

  predicate EndAt(buffer: Bytes, at: nat)
    requires at + 22 <= |buffer|
  {
    ReadU32(buffer, at) == END_SIGNATURE
  }

  /** The last end-of-central-directory signature, if it is within reach of the longest comment. */
  ghost predicate IsLastEnd(buffer: Bytes, end: nat) {
    && |buffer| - 65557 <= end <= |buffer| - 22 && EndAt(buffer, end)
    && forall k: nat | end < k <= |buffer| - 22 :: !EndAt(buffer, k)
  }

  ghost function LastEnd(buffer: Bytes): (end: Option<nat>)
    ensures end.Some? ==> IsLastEnd(buffer, end.value)
  {
    if exists end: nat :: IsLastEnd(buffer, end) then
      var end: nat :| IsLastEnd(buffer, end);
      Some(end)
    else
      None
  }

  method FindEnd(buffer: Bytes) returns (end: Option<nat>)
    ensures end == LastEnd(buffer)
  {
    var min := if |buffer| <= 65557 then 0 else |buffer| - 65557;
    var i := |buffer| - 22;
    while i >= min
      invariant i <= |buffer| - 22
      invariant forall k: nat | i < k <= |buffer| - 22 :: !EndAt(buffer, k)
    {
      if EndAt(buffer, i) {
        LastEndIs(buffer, i);
        return Some(i);
      }
      i := i - 1;
    }
    assert forall k: nat :: !IsLastEnd(buffer, k);
    return None;
  }

  lemma LastEndIs(buffer: Bytes, end: nat)
    requires IsLastEnd(buffer, end)
    ensures LastEnd(buffer) == Some(end)
  {
    assert forall other: nat | IsLastEnd(buffer, other) :: other == end;
  }

  predicate IsEmptyOrDirectory(name: Bytes) {
    name == [] || name[|name| - 1] == SLASH
  }

  /** A record of the central directory, and where the next one starts. */
  function Record(buffer: Bytes, offset: nat): Result<(Entry, nat)> {
    if !Has(buffer, offset, 4) then Err(OutOfRange)
    else if ReadU32(buffer, offset) != CENTRAL_SIGNATURE then Err(CorruptCentral)
    else if !Has(buffer, offset, 46) then Err(OutOfRange)
    else
      var nameLength := ReadU16(buffer, offset + 28);
      var name := Slice(buffer, offset + 46, offset + 46 + nameLength);
      var entry := Entry(name, ReadU16(buffer, offset + 10), ReadU32(buffer, offset + 20),
                         ReadU32(buffer, offset + 24), ReadU32(buffer, offset + 42));
      Ok((entry, offset + 46 + nameLength + ReadU16(buffer, offset + 30) + ReadU16(buffer, offset + 32)))
  }

  function Listed(found: map<Bytes, Entry>, entry: Entry): map<Bytes, Entry> {
    if IsEmptyOrDirectory(entry.name) then found else found[entry.name := entry]
  }

  type Reader = nat -> Result<(Entry, nat)>

  function RecordReader(buffer: Bytes): Reader {
    (offset: nat) => Record(buffer, offset)
  }

  /** `count` records from `offset` on, the later of equal names winning. */
  ghost function Scan(read: Reader, offset: nat, count: nat, found: map<Bytes, Entry>): Result<map<Bytes, Entry>>
    decreases count
  {
    if count == 0 then Ok(found)
    else
      match read(offset)
      case Err(failure) => Err(failure)
      case Ok((entry, next)) => Scan(read, next, count - 1, Listed(found, entry))
  }

  ghost function Entries(buffer: Bytes): Result<map<Bytes, Entry>> {
    match LastEnd(buffer)
    case None => Err(NoEnd)
    case Some(end) =>
      Scan(RecordReader(buffer), ReadU32(buffer, end + 16), ReadU16(buffer, end + 10), map[])
  }

  method ParseEntries(buffer: Bytes) returns (entries: Result<map<Bytes, Entry>>)
    ensures entries == Entries(buffer)
  {
    var end := FindEnd(buffer);
    if end.None? { return Err(NoEnd); }
    entries := ParseCentral(RecordReader(buffer), ReadU32(buffer, end.value + 16), ReadU16(buffer, end.value + 10));
  }

  /** The loop of the parser. */
  method ParseCentral(read: Reader, centralOffset: nat, totalEntries: nat) returns (entries: Result<map<Bytes, Entry>>)
    ensures entries == Scan(read, centralOffset, totalEntries, map[])
  {
    var offset := centralOffset;
    var found: map<Bytes, Entry> := map[];
    for i := 0 to totalEntries
      invariant Scan(read, offset, totalEntries - i, found) == Scan(read, centralOffset, totalEntries, map[])
    {
      var record := read(offset);
      if record.Err? { return Err(record.failure); }
      found := Listed(found, record.value.0);
      offset := record.value.1;
    }
    return Ok(found);
  }

  /** `inflate` stands for zlib's raw inflation, which may throw. */
  function ReadEntry(buffer: Bytes, entry: Entry, inflate: Bytes -> Option<Bytes>): Result<Bytes> {
    var offset := entry.localHeader;
    if !Has(buffer, offset, 4) then Err(OutOfRange)
    else if ReadU32(buffer, offset) != LOCAL_SIGNATURE then Err(NoLocalHeader)
    else if !Has(buffer, offset, 30) then Err(OutOfRange)
    else
      var start := offset + 30 + ReadU16(buffer, offset + 26) + ReadU16(buffer, offset + 28);
      var compressed := Slice(buffer, start, start + entry.compressedSize);
      if entry.compression == 0 then Ok(compressed)
      else if entry.compression != 8 then Err(UnsupportedMethod)
      else
        match inflate(compressed)
        case Some(data) => Ok(data)
        case None => Err(NotInflatable)
  }

  // ---- Reading what was written -------------------------------------------------

  /** What the reader finds in a central record. */
  ghost predicate IsCentralRecord(h: Bytes, name: Bytes, size: nat, offset: nat) {
    && |h| == 46 + |name|
    && PartAt(h, 0, U32(CENTRAL_SIGNATURE))
    && PartAt(h, 10, U16(0))
    && PartAt(h, 20, U32(size))
    && PartAt(h, 24, U32(size))
    && PartAt(h, 28, U16(|name|))
    && PartAt(h, 30, U16(0))
    && PartAt(h, 32, U16(0))
    && PartAt(h, 42, U32(offset))
    && PartAt(h, 46, name)
  }

  lemma RecordOfFields(buffer: Bytes, at: nat, h: Bytes, name: Bytes, size: nat, offset: nat)
    requires PartAt(buffer, at, h) && IsCentralRecord(h, name, size, offset)
    requires |name| < LIMIT16 && size < LIMIT32 && offset < LIMIT32
    ensures Record(buffer, at) == Ok((Entry(name, 0, size, size, offset), at + 46 + |name|))
  {
    Read32(buffer, at, h, 0, CENTRAL_SIGNATURE);
    Read16(buffer, at, h, 10, 0);
    Read32(buffer, at, h, 20, size);
    Read32(buffer, at, h, 24, size);
    Read16(buffer, at, h, 28, |name|);
    Read16(buffer, at, h, 30, 0);
    Read16(buffer, at, h, 32, 0);
    Read32(buffer, at, h, 42, offset);
    PartOfPart(buffer, at, h, 46, name);
    PartIsSlice(buffer, at + 46, name);
  }

  lemma Read32(buffer: Bytes, at: nat, h: Bytes, from: nat, value: nat)
    requires PartAt(buffer, at, h) && PartAt(h, from, U32(value)) && value < LIMIT32
    ensures Has(buffer, at + from, 4) && ReadU32(buffer, at + from) == value
  {
    PartOfPart(buffer, at, h, from, U32(value));
    U32ReadsBack(buffer, at + from, value);
  }

  lemma Read16(buffer: Bytes, at: nat, h: Bytes, from: nat, value: nat)
    requires PartAt(buffer, at, h) && PartAt(h, from, U16(value)) && value < LIMIT16
    ensures Has(buffer, at + from, 2) && ReadU16(buffer, at + from) == value
  {
    PartOfPart(buffer, at, h, from, U16(value));
    U16ReadsBack(buffer, at + from, value);
  }

  lemma CentralVersionsFields()
    ensures var v := CentralVersions();
            |v| == 16 && PartAt(v, 0, U32(CENTRAL_SIGNATURE)) && PartAt(v, 10, U16(0))
  {
  }

  lemma SizesFields(data: Bytes)
    ensures var s := Sizes(data);
            |s| == 12 && PartAt(s, 4, U32(|data|)) && PartAt(s, 8, U32(|data|))
  {
  }

  lemma CentralRestFields(nameLength: nat, offset: nat)
    ensures var r := CentralRest(nameLength, offset);
            && |r| == 18 && PartAt(r, 0, U16(nameLength)) && PartAt(r, 2, U16(0)) && PartAt(r, 4, U16(0))
            && PartAt(r, 14, U32(offset))
  {
  }

  lemma FourParts(a: Bytes, b: Bytes, c: Bytes, d: Bytes)
    ensures var h := a + b + c + d;
            PartAt(h, 0, a) && PartAt(h, |a|, b) && PartAt(h, |a + b|, c) && PartAt(h, |a + b + c|, d)
  {
  }

  lemma CentralFields(name: Bytes, data: Bytes, offset: nat)
    ensures IsCentralRecord(CentralHeader(name, data, offset), name, |data|, offset)
  {
    CentralVersionsFields();
    SizesFields(data);
    CentralRestFields(|name|, offset);
    FourParts(CentralVersions(), Sizes(data), CentralRest(|name|, offset), name);
    FieldsOfParts(CentralHeader(name, data, offset), CentralVersions(), Sizes(data), CentralRest(|name|, offset),
                  name, |data|, offset);
  }

  lemma FieldsOfParts(h: Bytes, versions: Bytes, sizes: Bytes, rest: Bytes, name: Bytes, size: nat, offset: nat)
    requires PartAt(h, 0, versions) && PartAt(h, 16, sizes) && PartAt(h, 28, rest) && PartAt(h, 46, name)
    requires |h| == 46 + |name|
    requires PartAt(versions, 0, U32(CENTRAL_SIGNATURE)) && PartAt(versions, 10, U16(0))
    requires PartAt(sizes, 4, U32(size)) && PartAt(sizes, 8, U32(size))
    requires PartAt(rest, 0, U16(|name|)) && PartAt(rest, 2, U16(0)) && PartAt(rest, 4, U16(0))
    requires PartAt(rest, 14, U32(offset))
    ensures IsCentralRecord(h, name, size, offset)
  {
    PartOfPart(h, 0, versions, 0, U32(CENTRAL_SIGNATURE));
    PartOfPart(h, 0, versions, 10, U16(0));
    PartOfPart(h, 16, sizes, 4, U32(size));
    PartOfPart(h, 16, sizes, 8, U32(size));
    PartOfPart(h, 28, rest, 0, U16(|name|));
    PartOfPart(h, 28, rest, 2, U16(0));
    PartOfPart(h, 28, rest, 4, U16(0));
    PartOfPart(h, 28, rest, 14, U32(offset));
  }

  lemma LocalReadsBack(buffer: Bytes, entry: Entry, data: Bytes, inflate: Bytes -> Option<Bytes>)
    requires |entry.name| < LIMIT16 && |data| < LIMIT32
    requires entry.compression == 0 && entry.compressedSize == |data|
    requires PartAt(buffer, entry.localHeader, LocalHeader(entry.name, data) + data)
    ensures ReadEntry(buffer, entry, inflate) == Ok(data)
  {
    var at, name := entry.localHeader, entry.name;
    var h := LocalHeader(name, data);
    LocalParts(buffer, at, h, data);
    LocalLengths(buffer, at, name, data);
    PartIsSlice(buffer, at + 30 + |name|, data);
    StoredRead(buffer, entry, at + 30 + |name|, inflate);
  }

  lemma LocalLengths(buffer: Bytes, at: nat, name: Bytes, data: Bytes)
    requires PartAt(buffer, at, LocalHeader(name, data)) && |name| < LIMIT16
    ensures Has(buffer, at, 30) && ReadU32(buffer, at) == LOCAL_SIGNATURE
    ensures ReadU16(buffer, at + 26) == |name| && ReadU16(buffer, at + 28) == 0
  {
    var h := LocalHeader(name, data);
    LocalFields(name, data);
    Read32(buffer, at, h, 0, LOCAL_SIGNATURE);
    Read16(buffer, at, h, 26, |name|);
    Read16(buffer, at, h, 28, 0);
  }

  lemma LocalParts(buffer: Bytes, at: nat, h: Bytes, data: Bytes)
    requires PartAt(buffer, at, h + data)
    ensures PartAt(buffer, at, h) && PartAt(buffer, at + |h|, data)
  {
    PartOfPart(buffer, at, h + data, 0, h);
    PartOfPart(buffer, at, h + data, |h|, data);
  }

  lemma StoredRead(buffer: Bytes, entry: Entry, start: nat, inflate: Bytes -> Option<Bytes>)
    requires entry.compression == 0 && start + entry.compressedSize <= |buffer|
    requires Has(buffer, entry.localHeader, 30) && ReadU32(buffer, entry.localHeader) == LOCAL_SIGNATURE
    requires start == entry.localHeader + 30 + ReadU16(buffer, entry.localHeader + 26)
                      + ReadU16(buffer, entry.localHeader + 28)
    ensures ReadEntry(buffer, entry, inflate) == Ok(buffer[start..start + entry.compressedSize])
  {
  }

  lemma LocalFields(name: Bytes, data: Bytes)
    ensures var h := LocalHeader(name, data);
            PartAt(h, 0, U32(LOCAL_SIGNATURE)) && PartAt(h, 26, U16(|name|)) && PartAt(h, 28, U16(0))
  {
    var h, versions, lengths := LocalHeader(name, data), LocalVersions(), U16(|name|) + U16(0);
    assert PartAt(h, 0, versions) && PartAt(h, 26, lengths);
    PartOfPart(h, 0, versions, 0, U32(LOCAL_SIGNATURE));
    PartOfPart(h, 26, lengths, 0, U16(|name|));
    PartOfPart(h, 26, lengths, 2, U16(0));
  }

  // ---- Whole archives -----------------------------------------------------------

  /** What a reader may expect: the last content under each name, but no directories and no empty name. */
  ghost function Contents(files: seq<File>): map<Bytes, Bytes> {
    if files == [] then map[]
    else
      var (name, data) := files[|files| - 1];
      var before := Contents(files[..|files| - 1]);
      if IsEmptyOrDirectory(name) then before else before[name := data]
  }

  /** The directory that the reader builds from the first `k` records. */
  ghost function Index(entries: seq<Entry>, k: nat): map<Bytes, Entry>
    requires k <= |entries|
  {
    if k == 0 then map[] else Listed(Index(entries, k - 1), entries[k - 1])
  }

  ghost function EntriesOf(files: seq<File>): seq<Entry> {
    seq(|files|, k requires 0 <= k < |files| => EntryOf(files, k))
  }

  ghost function EntryOf(files: seq<File>, k: nat): Entry
    requires k < |files|
  {
    Entry(files[k].0, 0, |files[k].1|, |files[k].1|, OffsetOf(files, k))
  }

  lemma PrefixKeepsPart(whole: Bytes, more: Bytes, at: nat, part: Bytes)
    requires PartAt(whole, at, part)
    ensures PartAt(whole + more, at, part)
  {
  }

  /** An archive has the local parts at its start and the central directory right behind them. */
  ghost predicate Holds(archive: Bytes, files: seq<File>) {
    PartAt(archive, 0, Locals(files)) && PartAt(archive, |Locals(files)|, Centrals(files))
  }

  lemma ArchiveHolds(locals: Bytes, centrals: Bytes, end: Bytes)
    ensures PartAt(locals + centrals + end, 0, locals) && PartAt(locals + centrals + end, |locals|, centrals)
  {
  }

  ghost function RecordStart(files: seq<File>, k: nat): nat
    requires k <= |files|
  {
    |Locals(files)| + |Glue(CentralChunks(files)[..k])|
  }

  lemma ChunkInPart(archive: Bytes, at: nat, chunks: seq<Bytes>, k: nat)
    requires k < |chunks| && PartAt(archive, at, Glue(chunks))
    ensures PartAt(archive, at + |Glue(chunks[..k])|, chunks[k])
  {
    ChunkStands(chunks, k);
    PartOfPart(archive, at, Glue(chunks), |Glue(chunks[..k])|, chunks[k]);
  }

  lemma NextRecord(files: seq<File>, k: nat)
    requires k < |files|
    ensures RecordStart(files, k + 1) == RecordStart(files, k) + 46 + |files[k].0|
  {
    var chunks := CentralChunks(files);
    assert chunks[..k + 1][..k] == chunks[..k];
    assert |chunks[k]| == 46 + |files[k].0|;
  }

  lemma RecordFound(buffer: Bytes, at: nat, data: Bytes, entry: Entry, next: nat)
    requires PartAt(buffer, at, CentralHeader(entry.name, data, entry.localHeader))
    requires |entry.name| < LIMIT16 && |data| < LIMIT32 && entry.localHeader < LIMIT32
    requires entry.compression == 0 && entry.compressedSize == entry.uncompressedSize == |data|
    requires next == at + 46 + |entry.name|
    ensures Record(buffer, at) == Ok((entry, next))
  {
    CentralFields(entry.name, data, entry.localHeader);
    RecordOfFields(buffer, at, CentralHeader(entry.name, data, entry.localHeader), entry.name, |data|, entry.localHeader);
  }

  lemma RecordInArchive(archive: Bytes, files: seq<File>, k: nat)
    requires Fits(files) && k < |files| && Holds(archive, files)
    ensures Record(archive, RecordStart(files, k)) == Ok((EntryOf(files, k), RecordStart(files, k + 1)))
  {
    RoomForEach(files, k);
    ChunkInPart(archive, |Locals(files)|, CentralChunks(files), k);
    NextRecord(files, k);
    RecordFound(archive, RecordStart(files, k), files[k].1, EntryOf(files, k), RecordStart(files, k + 1));
  }

  /** A chain of records, each naming the start of the next, is scanned to its end. */
  lemma {:induction false} ScanChain(read: Reader, entries: seq<Entry>, starts: seq<nat>, k: nat)
    requires |starts| == |entries| + 1 && k <= |entries|
    requires forall m {:trigger entries[m]} | 0 <= m < |entries| :: read(starts[m]) == Ok((entries[m], starts[m + 1]))
    ensures Scan(read, starts[k], |entries| - k, Index(entries, k)) == Ok(Index(entries, |entries|))
    decreases |entries| - k
  {
    if k < |entries| {
      assert read(starts[k]) == Ok((entries[k], starts[k + 1]));
      ScanChain(read, entries, starts, k + 1);
    }
  }

  ghost function RecordStarts(files: seq<File>): seq<nat> {
    seq(|files| + 1, k requires 0 <= k <= |files| => RecordStart(files, k))
  }

  lemma ScanReadsBack(archive: Bytes, files: seq<File>)
    requires Fits(files) && Holds(archive, files)
    ensures Scan(RecordReader(archive), |Locals(files)|, |files|, map[]) == Ok(Index(EntriesOf(files), |files|))
  {
    var entries, starts := EntriesOf(files), RecordStarts(files);
    forall m | 0 <= m < |entries|
      ensures RecordReader(archive)(starts[m]) == Ok((entries[m], starts[m + 1]))
    {
      RecordInArchive(archive, files, m);
    }
    assert starts[0] == |Locals(files)|;
    ScanChain(RecordReader(archive), entries, starts, 0);
  }

  lemma EndFields(pre: Bytes, count: nat, size: nat, offset: nat)
    requires count < LIMIT16 && offset < LIMIT32
    ensures var archive := pre + EndRecord(count, size, offset);
            && IsLastEnd(archive, |pre|)
            && ReadU16(archive, |pre| + 10) == count
            && ReadU32(archive, |pre| + 16) == offset
  {
    var end := EndRecord(count, size, offset);
    var archive := pre + end;
    assert PartAt(archive, |pre|, end);
    assert PartAt(end, 0, U32(END_SIGNATURE)) && PartAt(end, 10, U16(count)) && PartAt(end, 16, U32(offset));
    Read32(archive, |pre|, end, 0, END_SIGNATURE);
    Read16(archive, |pre|, end, 10, count);
    Read32(archive, |pre|, end, 16, offset);
  }

  /** The entry under a name is the last of that name, and the contents agree with it. */
  lemma {:induction false} IndexIsLast(files: seq<File>, entries: seq<Entry>, k: nat, name: Bytes)
    requires k <= |files| == |entries|
    requires forall m | 0 <= m < |files| :: entries[m].name == files[m].0
    ensures name in Index(entries, k) <==> name in Contents(files[..k])
    ensures name in Index(entries, k) ==>
              exists m: nat :: m < k && Index(entries, k)[name] == entries[m]
                               && files[m] == (name, Contents(files[..k])[name])
  {
    if k > 0 {
      IndexIsLast(files, entries, k - 1, name);
      assert files[..k][..k - 1] == files[..k - 1];
      if files[k - 1].0 == name && !IsEmptyOrDirectory(name) {
        assert Index(entries, k)[name] == entries[k - 1];
      }
    }
  }

  lemma FileReadsBack(archive: Bytes, files: seq<File>, k: nat, inflate: Bytes -> Option<Bytes>)
    requires Fits(files) && k < |files| && Holds(archive, files)
    ensures ReadEntry(archive, EntryOf(files, k), inflate) == Ok(files[k].1)
  {
    RoomForEach(files, k);
    ChunkInPart(archive, 0, LocalChunks(files), k);
    assert LocalChunks(files)[..k] == LocalChunks(files[..k]);
    LocalReadsBack(archive, EntryOf(files, k), files[k].1, inflate);
  }

  lemma IndexReadsBack(archive: Bytes, files: seq<File>, index: map<Bytes, Entry>, name: Bytes,
                       inflate: Bytes -> Option<Bytes>)
    requires Fits(files) && Holds(archive, files) && index == Index(EntriesOf(files), |files|)
    ensures name in index <==> name in Contents(files)
    ensures name in index ==> ReadEntry(archive, index[name], inflate) == Ok(Contents(files)[name])
  {
    assert files[..|files|] == files;
    IndexIsLast(files, EntriesOf(files), |files|, name);
    if name in Contents(files) {
      ContentReadsBack(archive, files, EntriesOf(files), index, Contents(files), name, inflate);
    }
  }

  lemma ContentReadsBack(archive: Bytes, files: seq<File>, entries: seq<Entry>, index: map<Bytes, Entry>,
                         contents: map<Bytes, Bytes>, name: Bytes, inflate: Bytes -> Option<Bytes>)
    requires Fits(files) && Holds(archive, files) && entries == EntriesOf(files)
    requires name in index && name in contents
    requires exists m: nat :: m < |files| && index[name] == entries[m] && files[m] == (name, contents[name])
    ensures ReadEntry(archive, index[name], inflate) == Ok(contents[name])
  {
    var m: nat :| m < |files| && index[name] == entries[m] && files[m] == (name, contents[name]);
    FileReadsBack(archive, files, m, inflate);
  }

  /** A reader that lists `index` finds `contents`. */
  ghost predicate IndexReadsAs(archive: Bytes, index: map<Bytes, Entry>, contents: map<Bytes, Bytes>,
                               inflate: Bytes -> Option<Bytes>) {
    && index.Keys == contents.Keys
    && forall name | name in index :: ReadEntry(archive, index[name], inflate) == Ok(contents[name])
  }

  ghost predicate ReadsAs(archive: Bytes, contents: map<Bytes, Bytes>, inflate: Bytes -> Option<Bytes>) {
    Entries(archive).Ok? && IndexReadsAs(archive, Entries(archive).value, contents, inflate)
  }

  lemma ArchiveReadsAs(archive: Bytes, files: seq<File>, inflate: Bytes -> Option<Bytes>)
    requires Fits(files) && Holds(archive, files)
    ensures IndexReadsAs(archive, Index(EntriesOf(files), |files|), Contents(files), inflate)
  {
    var index := Index(EntriesOf(files), |files|);
    forall name
      ensures name in index <==> name in Contents(files)
      ensures name in index ==> ReadEntry(archive, index[name], inflate) == Ok(Contents(files)[name])
    {
      IndexReadsBack(archive, files, index, name, inflate);
    }
  }

  lemma EntriesAre(archive: Bytes, end: nat, index: map<Bytes, Entry>)
    requires IsLastEnd(archive, end)
    requires Scan(RecordReader(archive), ReadU32(archive, end + 16), ReadU16(archive, end + 10), map[]) == Ok(index)
    ensures Entries(archive) == Ok(index)
  {
    LastEndIs(archive, end);
    assert LastEnd(archive) == Some(end);
  }

  /**
   Whatever the writer writes, the reader lists: its directory has the written names, less empty names
   and directories, and each entry reads back as the last content written under its name.
   */
  lemma ReaderRecoversArchive(files: seq<File>, inflate: Bytes -> Option<Bytes>)
    requires Fits(files)
    ensures ReadsAs(Archive(files), Contents(files), inflate)
  {
    var locals, centrals := Locals(files), Centrals(files);
    var archive := locals + centrals + EndRecord(|files|, |centrals|, |locals|);
    assert Holds(archive, files) by {
      ArchiveHolds(locals, centrals, EndRecord(|files|, |centrals|, |locals|));
    }
    EndFields(locals + centrals, |files|, |centrals|, |locals|);
    ReadsWhole(archive, files, |locals + centrals|, inflate);
  }

  lemma ReadsWhole(archive: Bytes, files: seq<File>, end: nat, inflate: Bytes -> Option<Bytes>)
    requires Fits(files) && Holds(archive, files) && IsLastEnd(archive, end)
    requires ReadU16(archive, end + 10) == |files| && ReadU32(archive, end + 16) == |Locals(files)|
    ensures ReadsAs(archive, Contents(files), inflate)
  {
    ScanReadsBack(archive, files);
    EntriesAre(archive, end, Index(EntriesOf(files), |files|));
    ArchiveReadsAs(archive, files, inflate);
  }

  /** For distinct names that are neither empty nor directories, the contents are just the files. */
  lemma {:induction false} ContentsAreFiles(files: seq<File>)
    requires forall k | 0 <= k < |files| :: !IsEmptyOrDirectory(files[k].0)
    requires forall k, m | 0 <= k < m < |files| :: files[k].0 != files[m].0
    ensures Contents(files).Keys == set k | 0 <= k < |files| :: files[k].0
    ensures forall k | 0 <= k < |files| :: Contents(files)[files[k].0] == files[k].1
  {
    if files != [] {
      var n := |files| - 1;
      ContentsAreFiles(files[..n]);
      assert forall k | 0 <= k < n :: files[..n][k] == files[k];
    }
  }
}
