/**
 Writing ustar archives with PAX path records, and reading them back. A header is any
 block whose fields are as the format has them; the fields that are not read are free.
 */
module TarWriter {
  import opened Bytes
  import opened JsonValues
  import opened Tar

  // ---- Numbers ---------------------------------------------------------------------------

  function OctalDigits(n: nat, width: nat): (s: Bytes)
    ensures |s| == width && IsOctal(s)
  {
    if width == 0 then [] else OctalDigits(n / 8, width - 1) + [0x30 + n % 8]
  }

  function Pow8(n: nat): nat { if n == 0 then 1 else 8 * Pow8(n - 1) }

  lemma {:induction false} OctalDigitsAreRead(n: nat, width: nat)
    requires n < Pow8(width)
    ensures OctalValue(OctalDigits(n, width)) == n
  {
    if width > 0 {
      var s := OctalDigits(n, width);
      assert s[..|s| - 1] == OctalDigits(n / 8, width - 1);
      OctalDigitsAreRead(n / 8, width - 1);
    }
  }

  lemma {:induction false} DigitsAreCut(s: Bytes, tail: Bytes)
    requires IsOctal(s) && tail != [] && tail[0] == 0 && forall k | 0 <= k < |tail| :: !IsLineEnd(tail[k])
    ensures Cut(s + tail) == s
  {
    if s == [] {
      assert s + tail == tail;
    } else {
      assert (s + tail)[1..] == s[1..] + tail;
      DigitsAreCut(s[1..], tail);
    }
  }

  /** Zero-padded octal digits, a NUL, and perhaps a space. */
  lemma OctalFieldIsRead(b: Bytes, n: nat, width: nat, tail: Bytes)
    requires n < Pow8(width) && width > 0 && (tail == [0] || tail == [0, SPACE]) && b == OctalDigits(n, width) + tail
    ensures ReadNumber(b) == Some(n)
  {
    hide OctalDigits, Pow8;
    var s := OctalDigits(n, width);
    assert b[0] == s[0];
    assert Tar.Ascii(b) == b;
    DigitsAreCut(s, tail);
    OctalDigitsAreRead(n, width);
  }

  // ---- Headers ------------------------------------------------------------------------------

  function Zeros(n: nat): (z: Bytes)
    ensures |z| == n && AllZero(z)
  {
    seq(n, _ => 0)
  }

  function Padded(text: Bytes, width: nat): (s: Bytes)
    requires |text| <= width
    ensures |s| == width
  {
    text + Zeros(width - |text|)
  }

  predicate HasNul(s: Bytes) { exists k | 0 <= k < |s| :: s[k] == 0 }

  /** Text that fits a field and is UTF-8 without a byte order mark. */
  ghost predicate FieldText(host: Host, text: Bytes, width: nat) {
    |text| <= width && !HasNul(text) && host.utf8(text) && !(BYTE_ORDER_MARK <= text)
  }

  /** The fields of a header, as the format has them. */
  ghost predicate Written(host: Host, h: Bytes, name: Bytes, prefix: Bytes, mode: nat, size: nat, kind: byte) {
    && |h| == BLOCK && FieldText(host, name, 100) && FieldText(host, prefix, 155)
    && h[..100] == Padded(name, 100)
    && mode < Pow8(7) && h[100..108] == OctalDigits(mode, 7) + [0]
    && size < Pow8(11) && h[124..136] == OctalDigits(size, 11) + [0]
    && Sum(h, BLOCK) < Pow8(6) && h[148..156] == OctalDigits(Sum(h, BLOCK), 6) + [0, SPACE]
    && h[156] == kind && h[345..500] == Padded(prefix, 155)
  }

  function HeaderPath(name: Bytes, prefix: Bytes): Bytes { if prefix == [] then name else prefix + [Tar.SLASH] + name }

  lemma {:induction false} FirstNul(s: Bytes, i: nat, j: nat)
    requires i <= j <= |s| && (forall k | i <= k < j :: s[k] != 0) && (j < |s| ==> s[j] == 0)
    ensures IndexOf(s, i, 0) == j
  {
  }

  lemma PaddedTextIsRead(host: Host, text: Bytes, width: nat)
    requires FieldText(host, text, width)
    ensures HeaderText(host, Padded(text, width)) == Some(text)
  {
    var s := Padded(text, width);
    FirstNul(s, 0, |text|);
    assert s[|text|..] == Zeros(width - |text|);
    assert s[..|text|] == text;
  }

  lemma HeaderIsRead(host: Host, h: Bytes, name: Bytes, prefix: Bytes, mode: nat, size: nat, kind: byte)
    requires Written(host, h, name, prefix, mode, size, kind) && kind != 0 && size <= MAX_FILE_BYTES
    ensures ReadHeader(host, h) == Some(Header(size, mode, kind, HeaderPath(name, prefix)))
    ensures !AllZero(h)
  {
    hide ReadNumber, HeaderText, Sum, OctalDigits, FieldText;
    OctalFieldIsRead(h[100..108], mode, 7, [0]);
    OctalFieldIsRead(h[124..136], size, 11, [0]);
    OctalFieldIsRead(h[148..156], Sum(h, BLOCK), 6, [0, SPACE]);
    PaddedTextIsRead(host, name, 100);
    PaddedTextIsRead(host, prefix, 155);
  }

  // ---- PAX records that count themselves ---------------------------------------------------------

  lemma NumeralSize(n: nat)
    ensures |NatText(n)| == if n < 10 then 1 else |NatText(n / 10)| + 1
  {
  }

  lemma {:induction false} NextNumeral(n: nat)
    ensures |NatText(n)| <= |NatText(n + 1)| <= |NatText(n)| + 1
    ensures |NatText(n + 1)| > |NatText(n)| ==> (n + 1) % 10 == 0
    decreases n
  {
    hide NatText;
    NumeralSize(n);
    NumeralSize(n + 1);
    NumeralSize((n + 1) / 10);
    if n >= 10 {
      NextNumeral(n / 10);
      assert (n + 1) / 10 == if (n + 1) % 10 == 0 then n / 10 + 1 else n / 10;
    }
  }

  /** A number that is larger by `rest` than the number of its own digits. */
  function SelfLength(rest: nat): (n: nat)
    ensures n == |NatText(n)| + rest && n <= 2 * rest + 1
  {
    if rest == 0 then 1
    else
      var n := SelfLength(rest - 1);
      NextNumeral(n);
      NextNumeral(n + 1);
      if |NatText(n + 1)| == |NatText(n)| then n + 1 else n + 2
  }

  function Numeral(n: nat): (s: Bytes)
    ensures AllDigits(s) && DigitsValue(s) == n && |s| == |NatText(n)| > 0 && (n > 0 ==> s[0] != 0x30)
  {
    var t := NatText(n);
    assert forall k | 0 <= k < |t| :: IsDigit(t[k]);
    var s: Bytes := t;
    s
  }

  /** `LENGTH KEY=VALUE` and a newline; the length is of the whole. */
  function PaxLine(key: Bytes, value: Bytes): Bytes {
    var n := SelfLength(|key| + |value| + 3);
    Numeral(n) + [SPACE] + key + [EQUALS] + value + [NEWLINE]
  }

  lemma FirstIs(b: Bytes, before: Bytes, c: byte, after: Bytes)
    requires b == before + [c] + after && c !in before
    ensures IndexOf(b, 0, c) == |before|
  {
    var j := IndexOf(b, 0, c);
    assert b[|before|] == c;
    assert forall k | 0 <= k < |before| :: b[k] == before[k];
  }

  lemma PaxLineIsRead(host: Host, key: Bytes, value: Bytes)
    requires key != [] && EQUALS !in key && !(BYTE_ORDER_MARK <= key + [EQUALS] + value) && host.utf8(key + [EQUALS] + value)
    ensures var line := PaxLine(key, value); ReadPaxRecord(host, line, 0) == Some(PaxRecord(key, value, |line|))
  {
    hide NatText, SelfLength, Numeral, ReadPaxRecord, DigitsValue;
    var n := SelfLength(|key| + |value| + 3);
    CountedLineIsRead(host, Numeral(n), key, value, PaxLine(key, value));
  }

  lemma CountedLineIsRead(host: Host, numeral: Bytes, key: Bytes, value: Bytes, line: Bytes)
    requires IsNumeral(numeral) && line == numeral + [SPACE] + key + [EQUALS] + value + [NEWLINE]
    requires DigitsValue(numeral) == |line|
    requires key != [] && EQUALS !in key && !(BYTE_ORDER_MARK <= key + [EQUALS] + value) && host.utf8(key + [EQUALS] + value)
    ensures ReadPaxRecord(host, line, 0) == Some(PaxRecord(key, value, |line|))
  {
    hide DigitsValue;
    var record := key + [EQUALS] + value;
    assert line == numeral + [SPACE] + (record + [NEWLINE]);
    FirstIs(line, numeral, SPACE, record + [NEWLINE]);
    FirstIs(record, key, EQUALS, value);
    assert line[0..|numeral|] == numeral && Tar.Ascii(numeral) == numeral;
    assert line[|numeral| + 1..|line| - 1] == record;
    assert record[..|key|] == key && record[|key| + 1..] == value;
    assert line[|line| - 1] == NEWLINE;
  }

  /** A record is kept under its key, but for one key, which a plain object swallows. */
  lemma RecordIsKept(host: Host, key: Bytes, value: Bytes)
    requires key != [] && EQUALS !in key && !(BYTE_ORDER_MARK <= key + [EQUALS] + value) && host.utf8(key + [EQUALS] + value)
    ensures ReadPax(host, PaxLine(key, value), 0, map[]) == Some(if key == PROTO then map[] else map[key := value])
  {
    hide PaxLine, ReadPaxRecord;
    var line := PaxLine(key, value);
    PaxLineIsRead(host, key, value);
    NoMorePax(host, line, Assigned(map[], key, value));
  }

  lemma NoMorePax(host: Host, b: Bytes, values: Values)
    ensures ReadPax(host, b, |b|, values) == Some(values)
  {
  }

  // ---- Archives ---------------------------------------------------------------------------------

  datatype Piece = Piece(header: Bytes, data: Bytes)

  function PieceBytes(p: Piece): Bytes { p.header + p.data + Zeros(Padding(|p.data|)) }

  /** What fills the last block. */
  function Padding(size: nat): nat { (BLOCK - size % BLOCK) % BLOCK }

  lemma PieceFillsBlocks(at: nat, p: Piece)
    requires |p.header| == BLOCK
    ensures NextHeader(at, |p.data|) == at + |PieceBytes(p)|
  {
    var size: nat := |p.data|;
    assert size == size / BLOCK * BLOCK + size % BLOCK;
    if size % BLOCK == 0 {
      assert (size + BLOCK - 1) / BLOCK == size / BLOCK;
    } else {
      assert (size + BLOCK - 1) / BLOCK == size / BLOCK + 1;
    }
  }

  /** A file as it is archived: the piece that has its path, if there is one, and its own. */
  datatype Parcel = Parcel(file: File, extended: Option<Piece>, piece: Piece)

  function PathOf(f: File): Bytes { PACKAGE + f.path }

  ghost predicate WrittenPiece(host: Host, p: Piece, name: Bytes, prefix: Bytes, mode: nat, kind: byte) {
    |p.data| <= MAX_FILE_BYTES && Written(host, p.header, name, prefix, mode, |p.data|, kind)
  }

  /** A PAX record of this path. */
  ghost predicate IsPathRecord(host: Host, x: Piece, path: Bytes) {
    && (exists name, prefix, mode :: WrittenPiece(host, x, name, prefix, mode, TYPE_EXTENDED))
    && x.data == PaxLine(PATH, path) && host.utf8(PATH + [EQUALS] + path)
  }

  /** A GNU long name, with any number of NULs behind it. */
  ghost predicate IsLongName(host: Host, x: Piece, path: Bytes) {
    && (exists name, prefix, mode :: WrittenPiece(host, x, name, prefix, mode, TYPE_LONG_NAME))
    && FieldText(host, path, |x.data|) && x.data == Padded(path, |x.data|)
  }

  /** The parcel carries its file, under its own path or the path of the record before it. */
  ghost predicate Carries(host: Host, p: Parcel) {
    && GoodFile(host, p.file) && p.piece.data == p.file.data
    && match p.extended
       case None =>
         exists name, prefix ::
           WrittenPiece(host, p.piece, name, prefix, p.file.mode, TYPE_FILE) && HeaderPath(name, prefix) == PathOf(p.file)
       case Some(x) =>
         && (exists name, prefix :: WrittenPiece(host, p.piece, name, prefix, p.file.mode, TYPE_FILE))
         && (IsPathRecord(host, x, PathOf(p.file)) || IsLongName(host, x, PathOf(p.file)))
  }

  ghost predicate GoodFile(host: Host, f: File) {
    GoodPath(host, f.path) && |f.data| <= MAX_FILE_BYTES && (f.mode == 0x1a4 || f.mode == 0x1ed)
  }

  function ParcelBytes(p: Parcel): Bytes {
    (if p.extended.Some? then PieceBytes(p.extended.value) else []) + PieceBytes(p.piece)
  }

  function AllBytes(parcels: seq<Parcel>): Bytes {
    if parcels == [] then [] else ParcelBytes(parcels[0]) + AllBytes(parcels[1..])
  }

  function FilesOf(parcels: seq<Parcel>): seq<File> { seq(|parcels|, k requires 0 <= k < |parcels| => parcels[k].file) }

  /** The parcels, two zero blocks, and zeros. */
  function Archive(parcels: seq<Parcel>, blocks: nat): Bytes { AllBytes(parcels) + Zeros(2 * BLOCK + blocks) }

  // ---- Reading them back ---------------------------------------------------------------------------

  /** From `at` on, the archive is this. */
  ghost predicate Rest(a: Bytes, at: nat, rest: Bytes) { at <= |a| && a[at..] == rest }

  lemma RestOf(a: Bytes, at: nat, first: Bytes, rest: Bytes)
    requires Rest(a, at, first + rest)
    ensures at + |first| <= |a| && a[at..at + |first|] == first && Rest(a, at + |first|, rest)
  {
    assert a[at..][..|first|] == first && a[at..][|first|..] == rest;
    assert a[at..at + |first|] == a[at..][..|first|];
  }

  lemma PieceStands(a: Bytes, at: nat, p: Piece, rest: Bytes)
    requires |p.header| == BLOCK && Rest(a, at, PieceBytes(p) + rest)
    ensures at + BLOCK + |p.data| <= |a| && a[at..at + BLOCK] == p.header
    ensures a[at + BLOCK..at + BLOCK + |p.data|] == p.data && Rest(a, NextHeader(at, |p.data|), rest)
  {
    hide NextHeader, Padding, Zeros, Rest;
    var tail := Zeros(Padding(|p.data|)) + rest;
    PieceFillsBlocks(at, p);
    RestOf(a, at, PieceBytes(p), rest);
    assert PieceBytes(p) + rest == p.header + (p.data + tail);
    RestOf(a, at, p.header, p.data + tail);
    RestOf(a, at + BLOCK, p.data, tail);
  }

  /** A piece is read as the record that it is. */
  lemma PieceIsFound(host: Host, a: Bytes, at: nat, p: Piece, rest: Bytes, name: Bytes, prefix: Bytes, mode: nat, kind: byte)
    requires WrittenPiece(host, p, name, prefix, mode, kind) && kind != 0 && Rest(a, at, PieceBytes(p) + rest)
    ensures at + BLOCK + |p.data| <= |a| && !IsZeroBlock(a, at)
    ensures ReadHeader(host, a[at..at + BLOCK]) == Some(Header(|p.data|, mode, kind, HeaderPath(name, prefix)))
    ensures a[at + BLOCK..at + BLOCK + |p.data|] == p.data
    ensures Rest(a, NextHeader(at, |p.data|), rest)
  {
    hide Written, ReadHeader, NextHeader, Padding, HeaderPath, PieceBytes, Rest;
    WrittenIsABlock(host, p, name, prefix, mode, kind);
    HeaderIsRead(host, p.header, name, prefix, mode, |p.data|, kind);
    PieceStands(a, at, p, rest);
  }

  lemma WrittenIsABlock(host: Host, p: Piece, name: Bytes, prefix: Bytes, mode: nat, kind: byte)
    requires WrittenPiece(host, p, name, prefix, mode, kind)
    ensures |p.header| == BLOCK
  {
  }

  lemma PathIsRead(host: Host, f: File)
    requires GoodFile(host, f)
    ensures PackagePath(host, PathOf(f)) == Some(f.path) && PathOf(f) != []
  {
    assert PathOf(f)[|PACKAGE|..] == f.path && PACKAGE <= PathOf(f);
  }

  lemma PathRecordIsRead(host: Host, path: Bytes)
    requires host.utf8(PATH + [EQUALS] + path)
    ensures ReadPax(host, PaxLine(PATH, path), 0, map[]) == Some(map[PATH := path])
    ensures ReadMetadata(host, TYPE_EXTENDED, PaxLine(PATH, path)) == Some(Metadata(map[PATH := path], None))
  {
    hide PaxLine, ReadPax;
    var record := PATH + [EQUALS] + path;
    assert record[0] == 0x70 && PATH != PROTO by { assert |PATH| == 4 && |PROTO| == 9; }
    assert !(BYTE_ORDER_MARK <= record);
    RecordIsKept(host, PATH, path);
  }

  /** A file is read at its place, under the path that waits for it or its own. */
  lemma FileIsRead(host: Host, a: Bytes, p: Progress, f: File, piece: Piece, name: Bytes, prefix: Bytes, rest: Bytes)
    requires GoodFile(host, f) && piece.data == f.data && WrittenPiece(host, piece, name, prefix, f.mode, TYPE_FILE)
    requires Rest(a, p.offset, PieceBytes(piece) + rest) && p.zeroBlocks == 0
    requires SIZE !in p.metadata.pax && FullPath(p.metadata, HeaderPath(name, prefix)) == PathOf(f)
    requires !HasPath(p.files, f.path) && |p.files| < MAX_FILES && p.total + |f.data| <= MAX_TOTAL_BYTES
    ensures p.offset + BLOCK <= |a| && !IsZeroBlock(a, p.offset)
    ensures var next := NextHeader(p.offset, |f.data|);
            && ReadRecord(host, a, p) == Some(Progress(next, 0, NO_METADATA, p.files + [f], p.total + |f.data|))
            && Rest(a, next, rest)
  {
    hide Written, ReadHeader, NextHeader, FullPath, PackagePath, GoodPath, PieceBytes, HeaderPath, PathOf;
    PieceIsFound(host, a, p.offset, piece, rest, name, prefix, f.mode, TYPE_FILE);
    PathIsRead(host, f);
  }

  /** This path waits for the next file. */
  ghost predicate Awaits(m: Metadata, path: Bytes) { SIZE !in m.pax && forall header :: FullPath(m, header) == path }

  lemma LongNameIsRead(host: Host, data: Bytes, path: Bytes)
    requires path != [] && FieldText(host, path, |data|) && data == Padded(path, |data|)
    ensures ReadMetadata(host, TYPE_LONG_NAME, data) == Some(Metadata(map[], Some(path)))
    ensures Awaits(Metadata(map[], Some(path)), path)
  {
    hide FieldText, HeaderText;
    PaddedTextIsRead(host, path, |data|);
  }

  /** A piece that has a path leaves it waiting. */
  lemma PathPieceIsFound(host: Host, a: Bytes, p: Progress, path: Bytes, x: Piece, rest: Bytes) returns (m: Metadata)
    requires path != [] && (IsPathRecord(host, x, path) || IsLongName(host, x, path))
    requires Rest(a, p.offset, PieceBytes(x) + rest) && p.zeroBlocks == 0 && p.metadata == NO_METADATA
    ensures p.offset + BLOCK <= |a| && !IsZeroBlock(a, p.offset) && Awaits(m, path)
    ensures var next := NextHeader(p.offset, |x.data|);
            ReadRecord(host, a, p) == Some(p.(offset := next, metadata := m)) && Rest(a, next, rest)
  {
    hide WrittenPiece, ReadHeader, NextHeader, PaxLine, ReadMetadata, PieceBytes, HeaderPath, ReadPax, Rest, FieldText, Padded;
    if IsPathRecord(host, x, path) {
      var name, prefix, mode :| WrittenPiece(host, x, name, prefix, mode, TYPE_EXTENDED);
      PieceIsFound(host, a, p.offset, x, rest, name, prefix, mode, TYPE_EXTENDED);
      PathRecordIsRead(host, path);
      PathBehindSize();
      m := Metadata(map[PATH := path], None);
    } else {
      var name, prefix, mode :| WrittenPiece(host, x, name, prefix, mode, TYPE_LONG_NAME);
      PieceIsFound(host, a, p.offset, x, rest, name, prefix, mode, TYPE_LONG_NAME);
      LongNameIsRead(host, x.data, path);
      m := Metadata(map[], Some(path));
    }
  }

  lemma NothingAwaits(header: Bytes)
    ensures FullPath(NO_METADATA, header) == header && SIZE !in NO_METADATA.pax
  {
  }

  /** The loop goes past a parcel, with its file. */
  lemma ParcelIsRead(host: Host, a: Bytes, at: nat, files: seq<File>, total: nat, parcel: Parcel, rest: Bytes)
    returns (next: nat)
    requires Carries(host, parcel) && Rest(a, at, ParcelBytes(parcel) + rest)
    requires !HasPath(files, parcel.file.path) && |files| < MAX_FILES && total + |parcel.file.data| <= MAX_TOTAL_BYTES
    ensures Rest(a, next, rest)
    ensures Walk(host, a, Progress(at, 0, NO_METADATA, files, total))
         == Walk(host, a, Progress(next, 0, NO_METADATA, files + [parcel.file], total + |parcel.file.data|))
  {
    hide WrittenPiece, ReadRecord, NextHeader, PieceBytes, GoodFile, IsPathRecord, IsLongName, Rest, PathOf, HeaderPath, FullPath;
    var f, p := parcel.file, Progress(at, 0, NO_METADATA, files, total);
    match parcel.extended
    case None =>
      var name, prefix :|
        WrittenPiece(host, parcel.piece, name, prefix, f.mode, TYPE_FILE) && HeaderPath(name, prefix) == PathOf(f);
      assert ParcelBytes(parcel) + rest == PieceBytes(parcel.piece) + rest;
      NothingAwaits(PathOf(f));
      FileIsRead(host, a, p, f, parcel.piece, name, prefix, rest);
      next := NextHeader(at, |f.data|);
    case Some(x) =>
      var name, prefix :| WrittenPiece(host, parcel.piece, name, prefix, f.mode, TYPE_FILE);
      assert ParcelBytes(parcel) + rest == PieceBytes(x) + (PieceBytes(parcel.piece) + rest);
      PathIsRead(host, f);
      var m := PathPieceIsFound(host, a, p, PathOf(f), x, PieceBytes(parcel.piece) + rest);
      var q := ReadRecord(host, a, p).value;
      FileIsRead(host, a, q, f, parcel.piece, name, prefix, rest);
      next := NextHeader(q.offset, |f.data|);
  }

  lemma PathBehindSize()
    ensures SIZE != PATH
  {
    assert SIZE[0] != PATH[0];
  }

  lemma {:induction false} ParcelsAreRead(host: Host, a: Bytes, at: nat, done: seq<File>, parcels: seq<Parcel>, blocks: nat)
    requires (forall k | 0 <= k < |parcels| :: Carries(host, parcels[k])) && Rest(a, at, Archive(parcels, blocks))
    requires WithinLimits(host, done + FilesOf(parcels))
    ensures var end := Walk(host, a, Progress(at, 0, NO_METADATA, done, TotalSize(done)));
            && end.Some? && end.value.zeroBlocks == 2 && end.value.metadata == NO_METADATA && end.value.offset <= |a|
            && AllZero(a[end.value.offset..]) && end.value.files == done + FilesOf(parcels)
    decreases |parcels|
  {
    hide Carries, ReadRecord, Walk, WithinLimits;
    var all := done + FilesOf(parcels);
    if parcels == [] {
      assert all == done;
      ZerosEndTheWalk(host, a, Progress(at, 0, NO_METADATA, done, TotalSize(done)), blocks);
    } else {
      var parcel, rest := parcels[0], parcels[1..];
      assert Archive(parcels, blocks) == ParcelBytes(parcel) + Archive(rest, blocks);
      NextFile(host, done, parcels);
      var next := ParcelIsRead(host, a, at, done, TotalSize(done), parcel, Archive(rest, blocks));
      ParcelsAreRead(host, a, next, done + [parcel.file], rest, blocks);
    }
  }

  /** The next file can still be taken. */
  lemma NextFile(host: Host, done: seq<File>, parcels: seq<Parcel>)
    requires parcels != [] && WithinLimits(host, done + FilesOf(parcels))
    ensures var f := parcels[0].file;
            && done + FilesOf(parcels) == (done + [f]) + FilesOf(parcels[1..])
            && !HasPath(done, f.path) && |done| < MAX_FILES
            && TotalSize(done + [f]) == TotalSize(done) + |f.data| <= MAX_TOTAL_BYTES
  {
    hide WithinLimits, TotalSize, HasPath, DistinctPaths, FilesOf;
    var f, rest := parcels[0].file, FilesOf(parcels[1..]);
    FilesInOrder(parcels);
    assert done + ([f] + rest) == (done + [f]) + rest;
    FileCanBeTaken(host, done, f, rest);
  }

  lemma FilesInOrder(parcels: seq<Parcel>)
    requires parcels != []
    ensures FilesOf(parcels) == [parcels[0].file] + FilesOf(parcels[1..])
  {
  }

  lemma FileCanBeTaken(host: Host, done: seq<File>, f: File, rest: seq<File>)
    requires WithinLimits(host, done + [f] + rest)
    ensures !HasPath(done, f.path) && |done| < MAX_FILES
    ensures TotalSize(done + [f]) == TotalSize(done) + |f.data| <= MAX_TOTAL_BYTES
  {
    hide WithinLimits, TotalSize, HasPath, DistinctPaths;
    PrefixWithinLimits(host, done + [f], rest);
    PathsDiffer(host, done + [f] + rest);
    NewPath(done + [f] + rest, |done|);
    assert (done + [f] + rest)[..|done|] == done;
    OneMoreFile(done, f);
  }

  lemma PathsDiffer(host: Host, files: seq<File>)
    requires WithinLimits(host, files)
    ensures DistinctPaths(files)
  {
  }

  lemma OneMoreFile(files: seq<File>, f: File)
    ensures TotalSize(files + [f]) == TotalSize(files) + |f.data|
  {
    assert (files + [f])[..|files|] == files;
  }

  lemma NewPath(files: seq<File>, n: nat)
    requires DistinctPaths(files) && n < |files|
    ensures !HasPath(files[..n], files[n].path)
  {
  }

  lemma {:induction false} PrefixWithinLimits(host: Host, files: seq<File>, more: seq<File>)
    requires WithinLimits(host, files + more)
    ensures |files| <= MAX_FILES && TotalSize(files) <= MAX_TOTAL_BYTES
    decreases |more|
  {
    if more == [] {
      assert files + more == files;
    } else {
      assert files + more == files + [more[0]] + more[1..];
      PrefixWithinLimits(host, files + [more[0]], more[1..]);
      assert (files + [more[0]])[..|files|] == files;
    }
  }

  lemma ZerosEndTheWalk(host: Host, a: Bytes, p: Progress, blocks: nat)
    requires p.zeroBlocks == 0 && Rest(a, p.offset, Archive([], blocks))
    ensures Walk(host, a, p) == Some(p.(offset := p.offset + 2 * BLOCK, zeroBlocks := 2))
    ensures p.offset + 2 * BLOCK <= |a| && AllZero(a[p.offset + 2 * BLOCK..])
  {
    hide Walk, Rest, Archive;
    ZerosAreLeft(a, p.offset, blocks);
    ZerosEnd(host, a, p);
  }

  lemma ZerosAreLeft(a: Bytes, at: nat, blocks: nat)
    requires Rest(a, at, Archive([], blocks))
    ensures at + 2 * BLOCK <= |a| && AllZero(a[at..at + 2 * BLOCK]) && AllZero(a[at + 2 * BLOCK..])
  {
    var zeros := Zeros(2 * BLOCK + blocks);
    assert Archive([], blocks) == zeros;
    assert a[at..at + 2 * BLOCK] == zeros[..2 * BLOCK] && a[at + 2 * BLOCK..] == zeros[2 * BLOCK..];
  }

  /** An archive is read back as the files that it was written for. */
  lemma ArchiveIsReadBack(host: Host, parcels: seq<Parcel>, blocks: nat)
    requires (forall k | 0 <= k < |parcels| :: Carries(host, parcels[k])) && WithinLimits(host, FilesOf(parcels))
    ensures Files(host, Archive(parcels, blocks)) == Some(FilesOf(parcels))
  {
    hide Carries, Walk, WithinLimits;
    var a := Archive(parcels, blocks);
    assert a[0..] == a && [] + FilesOf(parcels) == FilesOf(parcels);
    ParcelsAreRead(host, a, 0, [], parcels, blocks);
  }

  // ---- One writer -------------------------------------------------------------------------------

  const MAGIC: Bytes := [0x75, 0x73, 0x74, 0x61, 0x72, 0, 0x30, 0x30]

  /** A header of user and group 0 and of time 0, with this checksum field. */
  function HeaderWith(name: Bytes, mode: nat, size: nat, kind: byte, checksum: Bytes): (h: Bytes)
    requires |name| <= 100 && |checksum| == 8
    ensures |h| == BLOCK
  {
    Padded(name, 100) + (OctalDigits(mode, 7) + [0]) + Zeros(16) + (OctalDigits(size, 11) + [0]) + Zeros(12) + checksum
    + ([kind] + Zeros(100) + MAGIC + Zeros(80)) + Zeros(167)
  }

  function MakeHeader(name: Bytes, mode: nat, size: nat, kind: byte): Bytes
    requires |name| <= 100
  {
    HeaderWith(name, mode, size, kind, OctalDigits(Sum(HeaderWith(name, mode, size, kind, Zeros(8)), BLOCK), 6) + [0, SPACE])
  }

  lemma {:induction false} SumSkipsChecksum(g: Bytes, h: Bytes, n: nat)
    requires n <= |g| == |h| == BLOCK && forall k | 0 <= k < BLOCK && !(148 <= k < 156) :: g[k] == h[k]
    ensures Sum(g, n) == Sum(h, n) <= 255 * n
  {
    if n > 0 { SumSkipsChecksum(g, h, n - 1); }
  }

  lemma HeaderParts(name: Bytes, mode: nat, size: nat, kind: byte, checksum: Bytes)
    requires |name| <= 100 && |checksum| == 8
    ensures var h := HeaderWith(name, mode, size, kind, checksum);
            && h[..100] == Padded(name, 100) && h[100..108] == OctalDigits(mode, 7) + [0]
            && h[124..136] == OctalDigits(size, 11) + [0] && h[148..156] == checksum
            && h[156] == kind && h[345..500] == Zeros(155)
  {
    var h := HeaderWith(name, mode, size, kind, checksum);
    var rest := ([kind] + Zeros(100) + MAGIC + Zeros(80)) + Zeros(167);
    assert h[148..156] == checksum;
    assert h[156..] == rest;
    assert h[156] == rest[0] && h[345..500] == rest[189..344];
  }

  lemma MadeHeaderIsWritten(host: Host, name: Bytes, mode: nat, size: nat, kind: byte)
    requires |name| <= 100 && FieldText(host, name, 100) && host.utf8([]) && mode < Pow8(7) && size <= MAX_FILE_BYTES
    ensures Written(host, MakeHeader(name, mode, size, kind), name, [], mode, size, kind)
  {
    hide HeaderWith, Padded, OctalDigits, FieldText, Sum;
    var blank := HeaderWith(name, mode, size, kind, Zeros(8));
    var h := MakeHeader(name, mode, size, kind);
    var checksum := OctalDigits(Sum(blank, BLOCK), 6) + [0, SPACE];
    HeaderParts(name, mode, size, kind, checksum);
    OutsideChecksum(name, mode, size, kind, Zeros(8), checksum);
    SumSkipsChecksum(blank, h, BLOCK);
    Powers();
    NoText(host);
  }

  lemma OutsideChecksum(name: Bytes, mode: nat, size: nat, kind: byte, a: Bytes, b: Bytes)
    requires |name| <= 100 && |a| == |b| == 8
    ensures var g, h := HeaderWith(name, mode, size, kind, a), HeaderWith(name, mode, size, kind, b);
            forall k | 0 <= k < BLOCK && !(148 <= k < 156) :: g[k] == h[k]
  {
  }

  lemma Powers()
    ensures Pow8(6) == 262144 && Pow8(7) == 2097152 && Pow8(11) == 8589934592
  {
    assert Pow8(3) == 512 && Pow8(6) == 512 * Pow8(3) && Pow8(9) == 512 * Pow8(6);
  }

  lemma NoText(host: Host)
    requires host.utf8([])
    ensures FieldText(host, [], 155) && Padded([], 155) == Zeros(155)
  {
  }

  /** What the writer needs of UTF-8: ASCII text may stand before other text. */
  ghost predicate AcceptsAscii(host: Host) {
    && host.utf8([])
    && forall a, b | (forall k | 0 <= k < |a| :: a[k] < 128) && host.utf8(b) :: host.utf8(a + b)
  }

  /** There is such a host. */
  lemma AsciiHost() returns (host: Host)
    ensures AcceptsAscii(host)
  {
    host := Host(_ => true, _ => true);
  }

  /** A file under its own path if that fits the header, and under a path record otherwise. */
  function Wrapped(f: File): Parcel {
    if |PathOf(f)| <= 100 then Parcel(f, None, Piece(MakeHeader(PathOf(f), f.mode, |f.data|, TYPE_FILE), f.data))
    else
      var line := PaxLine(PATH, PathOf(f));
      assert |PATH| == 4 && |PACKAGE| == 8;
      Parcel(f, Some(Piece(MakeHeader(PATH, f.mode, |line|, TYPE_EXTENDED), line)),
             Piece(MakeHeader(PACKAGE, f.mode, |f.data|, TYPE_FILE), f.data))
  }

  /** The same file with a GNU long name instead. */
  function WrappedInLongName(f: File): Parcel {
    assert |PATH| == 4 && |PACKAGE| == 8;
    var data := PathOf(f) + [0];
    Parcel(f, Some(Piece(MakeHeader(PATH, f.mode, |data|, TYPE_LONG_NAME), data)),
           Piece(MakeHeader(PACKAGE, f.mode, |f.data|, TYPE_FILE), f.data))
  }

  function Packed(files: seq<File>): Bytes {
    Archive(seq(|files|, k requires 0 <= k < |files| => Wrapped(files[k])), 0)
  }

  lemma AsciiText(host: Host, text: Bytes, more: Bytes)
    requires AcceptsAscii(host) && (forall k | 0 <= k < |text| :: text[k] < 128) && host.utf8(more)
    ensures host.utf8(text + more) && host.utf8(text)
  {
    assert text + [] == text;
  }

  lemma GoodPathText(host: Host, path: Bytes)
    requires GoodPath(host, path)
    ensures host.utf8(path) && !HasNul(path) && |path| <= MAX_PATH_BYTES
  {
    var value := Decode(host, path).value;
    forall k | 0 <= k < |path| ensures path[k] != 0 {
      if value == path {
        assert !IsControl(value[k]);
      } else if k >= |BYTE_ORDER_MARK| {
        assert path[k] == value[k - |BYTE_ORDER_MARK|];
      } else {
        assert path[k] == BYTE_ORDER_MARK[k];
      }
    }
  }

  lemma OwnPathFits(host: Host, f: File)
    requires AcceptsAscii(host) && GoodFile(host, f) && |PathOf(f)| <= 100
    ensures FieldText(host, PathOf(f), 100)
  {
    GoodPathText(host, f.path);
    AsciiText(host, PACKAGE, f.path);
    assert PathOf(f)[0] == 0x70;
    forall k | 0 <= k < |PathOf(f)| ensures PathOf(f)[k] != 0 {
      if k >= |PACKAGE| { assert PathOf(f)[k] == f.path[k - |PACKAGE|]; }
    }
  }

  lemma NamesFit(host: Host)
    requires AcceptsAscii(host)
    ensures FieldText(host, PATH, 100) && FieldText(host, PACKAGE, 100)
  {
    AsciiText(host, PATH, []);
    AsciiText(host, PACKAGE, []);
    assert PATH[0] == 0x70 && PACKAGE[0] == 0x70;
  }

  lemma PathLineFits(host: Host, f: File)
    requires AcceptsAscii(host) && GoodFile(host, f)
    ensures |PaxLine(PATH, PathOf(f))| <= MAX_FILE_BYTES && host.utf8(PATH + [EQUALS] + PathOf(f))
  {
    hide SelfLength, NatText;
    GoodPathText(host, f.path);
    var start := PATH + [EQUALS] + PACKAGE;
    AsciiText(host, start, f.path);
    assert PATH + [EQUALS] + PathOf(f) == start + f.path;
    assert |PaxLine(PATH, PathOf(f))| == SelfLength(|PATH| + |PathOf(f)| + 3);
  }

  lemma WrappedCarries(host: Host, f: File)
    requires AcceptsAscii(host) && GoodFile(host, f)
    ensures Carries(host, Wrapped(f)) && Wrapped(f).file == f
  {
    hide Written, MakeHeader, PaxLine, FieldText, AcceptsAscii, GoodPath;
    var p := Wrapped(f);
    EmptyText(host);
    Powers();
    if |PathOf(f)| <= 100 {
      OwnPathFits(host, f);
      MadeHeaderIsWritten(host, PathOf(f), f.mode, |f.data|, TYPE_FILE);
      assert WrittenPiece(host, p.piece, PathOf(f), [], f.mode, TYPE_FILE);
    } else {
      NamesFit(host);
      PathLineFits(host, f);
      var line := PaxLine(PATH, PathOf(f));
      MadeHeaderIsWritten(host, PATH, f.mode, |line|, TYPE_EXTENDED);
      MadeHeaderIsWritten(host, PACKAGE, f.mode, |f.data|, TYPE_FILE);
      assert WrittenPiece(host, p.piece, PACKAGE, [], f.mode, TYPE_FILE);
      assert WrittenPiece(host, p.extended.value, PATH, [], f.mode, TYPE_EXTENDED);
    }
  }

  lemma EmptyText(host: Host)
    requires AcceptsAscii(host)
    ensures host.utf8([])
  {
  }

  /** Any list of files within the limits is read back from what this writer makes of it. */
  lemma PackedFilesAreReadBack(host: Host, files: seq<File>)
    requires AcceptsAscii(host) && WithinLimits(host, files)
    ensures Files(host, Packed(files)) == Some(files)
  {
    hide Carries, Wrapped, Archive, AcceptsAscii;
    var parcels := seq(|files|, k requires 0 <= k < |files| => Wrapped(files[k]));
    forall k | 0 <= k < |files| ensures Carries(host, parcels[k]) && parcels[k].file == files[k] {
      assert files[k] in files;
      WrappedCarries(host, files[k]);
    }
    assert FilesOf(parcels) == files;
    ArchiveIsReadBack(host, parcels, 0);
  }

  lemma LongNameCarries(host: Host, f: File)
    requires AcceptsAscii(host) && GoodFile(host, f)
    ensures Carries(host, WrappedInLongName(f)) && WrappedInLongName(f).file == f
  {
    hide Written, MakeHeader, AcceptsAscii, GoodPath;
    var p, path := WrappedInLongName(f), PathOf(f);
    var data := path + [0];
    EmptyText(host);
    Powers();
    NamesFit(host);
    LongPathFits(host, f);
    MadeHeaderIsWritten(host, PATH, f.mode, |data|, TYPE_LONG_NAME);
    MadeHeaderIsWritten(host, PACKAGE, f.mode, |f.data|, TYPE_FILE);
    assert WrittenPiece(host, p.piece, PACKAGE, [], f.mode, TYPE_FILE);
    assert WrittenPiece(host, p.extended.value, PATH, [], f.mode, TYPE_LONG_NAME);
    assert Padded(path, |data|) == data;
  }

  lemma LongPathFits(host: Host, f: File)
    requires AcceptsAscii(host) && GoodFile(host, f)
    ensures FieldText(host, PathOf(f), |PathOf(f)| + 1) && |PathOf(f)| + 1 <= MAX_FILE_BYTES
  {
    GoodPathText(host, f.path);
    AsciiText(host, PACKAGE, f.path);
    assert PathOf(f)[0] == 0x70;
    forall k | 0 <= k < |PathOf(f)| ensures PathOf(f)[k] != 0 {
      if k >= |PACKAGE| { assert PathOf(f)[k] == f.path[k - |PACKAGE|]; }
    }
  }

  /** So it is with GNU long names. */
  lemma LongNamesAreReadBack(host: Host, files: seq<File>)
    requires AcceptsAscii(host) && WithinLimits(host, files)
    ensures Files(host, Archive(seq(|files|, k requires 0 <= k < |files| => WrappedInLongName(files[k])), 0)) == Some(files)
  {
    hide Carries, WrappedInLongName, Archive, AcceptsAscii;
    var parcels := seq(|files|, k requires 0 <= k < |files| => WrappedInLongName(files[k]));
    forall k | 0 <= k < |files| ensures Carries(host, parcels[k]) && parcels[k].file == files[k] {
      assert files[k] in files;
      LongNameCarries(host, files[k]);
    }
    assert FilesOf(parcels) == files;
    ArchiveIsReadBack(host, parcels, 0);
  }
}
