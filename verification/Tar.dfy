/**
 The tar archives of npm packages: the bounded reader of the release scripts, with PAX
 path records and GNU long names. Text is kept as its UTF-8 bytes.
 */
module Tar {
  import opened Bytes
  import opened JsonValues

  /** The host's text rules: which bytes are UTF-8, and which text is in normal form C. */
  datatype Host = Host(utf8: Bytes -> bool, nfc: Bytes -> bool)

  datatype File = File(path: Bytes, mode: nat, data: Bytes)

  const BLOCK := 512
  const MAX_FILES := 10000
  const MAX_FILE_BYTES := 0x400_0000
  const MAX_TOTAL_BYTES := 0x1000_0000
  const MAX_PATH_BYTES := 1024
  const MAX_SEGMENT_BYTES := 255

  const SPACE: byte := 0x20
  const EQUALS: byte := 0x3d
  const NEWLINE: byte := 0x0a
  const SLASH: byte := 0x2f
  const TYPE_FILE: byte := 0x30
  const TYPE_EXTENDED: byte := 0x78
  const TYPE_LONG_NAME: byte := 0x4c

  const PACKAGE: Bytes := [0x70, 0x61, 0x63, 0x6b, 0x61, 0x67, 0x65, 0x2f]
  const PATH: Bytes := [0x70, 0x61, 0x74, 0x68]
  const SIZE: Bytes := [0x73, 0x69, 0x7a, 0x65]
  const PROTO: Bytes := [0x5f, 0x5f, 0x70, 0x72, 0x6f, 0x74, 0x6f, 0x5f, 0x5f]

  predicate AllZero(b: Bytes) { forall k | 0 <= k < |b| :: b[k] == 0 }

  // ---- Numbers in headers -----------------------------------------------------------------

  function BigEndian(b: Bytes): nat {
    if b == [] then 0 else 256 * BigEndian(b[..|b| - 1]) + b[|b| - 1]
  }

  /** `toString('ascii')`, which drops the high bit. */
  function Ascii(b: Bytes): (s: Bytes)
    ensures |s| == |b| && forall k | 0 <= k < |s| :: s[k] == b[k] % 128
  {
    seq(|b|, k requires 0 <= k < |b| => b[k] % 128)
  }

  predicate IsLineEnd(c: byte) { c == 0x0a || c == 0x0d }

  predicate IsTrimmed(c: byte) { 9 <= c <= 13 || c == SPACE }

  /** Without the first NUL that has no line end behind it, and all that follows it. */
  function Cut(s: Bytes): Bytes {
    if s == [] then []
    else if s[0] == 0 && forall k | 0 <= k < |s| :: !IsLineEnd(s[k]) then []
    else [s[0]] + Cut(s[1..])
  }

  function TrimLeft(s: Bytes): Bytes { if s != [] && IsTrimmed(s[0]) then TrimLeft(s[1..]) else s }

  function TrimRight(s: Bytes): Bytes {
    if s != [] && IsTrimmed(s[|s| - 1]) then TrimRight(s[..|s| - 1]) else s
  }

  predicate IsOctal(s: Bytes) { forall k | 0 <= k < |s| :: 0x30 <= s[k] <= 0x37 }

  function OctalValue(s: Bytes): nat
    requires IsOctal(s)
  {
    if s == [] then 0 else 8 * OctalValue(s[..|s| - 1]) + (s[|s| - 1] - 0x30)
  }

  function ReadNumber(b: Bytes): Option<nat>
    requires b != []
  {
    if b[0] >= 128 then
      var value := BigEndian(b[0 := b[0] - 128]);
      if value <= MAX_SAFE_INTEGER then Some(value) else None
    else
      var source := TrimRight(TrimLeft(Cut(Ascii(b))));
      if IsOctal(source) then Some(OctalValue(source)) else None
  }

  // ---- Which numbers are read ----------------------------------------------------------------

  /** Tab, line feed, vertical tab, form feed, carriage return or space. */
  predicate AllTrimmed(s: Bytes) { forall k | 0 <= k < |s| :: s[k] in {9, 10, 11, 12, 13, 32} }

  /** Nothing, or a NUL and what is behind it, with no line end. */
  predicate IsCutOff(s: Bytes) {
    s == [] || (s[0] == 0 && forall k | 0 <= k < |s| :: s[k] != '\n' as int && s[k] != '\r' as int)
  }

  /** Octal digits in white space, and what a NUL cuts off. */
  ghost predicate SpellsOctal(s: Bytes, lead: Bytes, digits: Bytes, trail: Bytes, cut: Bytes) {
    && s == lead + digits + trail + cut && AllTrimmed(lead) && AllTrimmed(trail) && IsCutOff(cut)
    && forall k | 0 <= k < |digits| :: '0' as int <= digits[k] <= '7' as int
  }

  lemma {:induction false} CutOff(s: Bytes) returns (cut: Bytes)
    ensures s == Cut(s) + cut && IsCutOff(cut)
  {
    if s == [] {
      cut := [];
    } else if s[0] == 0 && forall k | 0 <= k < |s| :: !IsLineEnd(s[k]) {
      cut := s;
    } else {
      cut := CutOff(s[1..]);
      assert s == [s[0]] + s[1..];
    }
  }

  lemma {:induction false} NothingElseIsCut(s: Bytes, cut: Bytes)
    requires 0 !in s && IsCutOff(cut)
    ensures Cut(s + cut) == s
  {
    if s == [] {
      assert s + cut == cut;
    } else {
      assert (s + cut)[1..] == s[1..] + cut;
      NothingElseIsCut(s[1..], cut);
    }
  }

  lemma {:induction false} LeftIsTrimmed(s: Bytes) returns (lead: Bytes)
    ensures s == lead + TrimLeft(s) && AllTrimmed(lead)
  {
    lead := [];
    if s != [] && IsTrimmed(s[0]) {
      var rest := LeftIsTrimmed(s[1..]);
      lead := [s[0]] + rest;
      assert s == [s[0]] + s[1..];
    }
  }

  lemma {:induction false} RightIsTrimmed(s: Bytes) returns (trail: Bytes)
    ensures s == TrimRight(s) + trail && AllTrimmed(trail)
    decreases |s|
  {
    trail := [];
    if s != [] && IsTrimmed(s[|s| - 1]) {
      var rest := RightIsTrimmed(s[..|s| - 1]);
      trail := rest + [s[|s| - 1]];
      assert s == s[..|s| - 1] + [s[|s| - 1]];
    }
  }

  lemma {:induction false} LeadIsTrimmed(lead: Bytes, s: Bytes)
    requires AllTrimmed(lead)
    ensures TrimLeft(lead + s) == TrimLeft(s)
  {
    if lead == [] {
      assert lead + s == s;
    } else {
      assert (lead + s)[1..] == lead[1..] + s;
      LeadIsTrimmed(lead[1..], s);
    }
  }

  lemma {:induction false} TrailIsTrimmed(s: Bytes, trail: Bytes)
    requires AllTrimmed(trail)
    ensures TrimRight(s + trail) == TrimRight(s)
    decreases |trail|
  {
    if trail == [] {
      assert s + trail == s;
    } else {
      assert (s + trail)[..|s + trail| - 1] == s + trail[..|trail| - 1];
      TrailIsTrimmed(s, trail[..|trail| - 1]);
    }
  }

  lemma OctalIsTrimmed(lead: Bytes, digits: Bytes, trail: Bytes)
    requires AllTrimmed(lead) && IsOctal(digits) && AllTrimmed(trail)
    ensures TrimRight(TrimLeft(lead + digits + trail)) == digits
  {
    assert lead + digits + trail == lead + (digits + trail);
    LeadIsTrimmed(lead, digits + trail);
    if digits == [] {
      assert digits + trail == trail && trail + [] == trail;
      LeadIsTrimmed(trail, []);
    } else {
      assert (digits + trail)[0] == digits[0];
      TrailIsTrimmed(digits, trail);
    }
  }

  /**
   A number without the high bit is read exactly when its low seven bits spell it in octal, in
   white space and up to a NUL behind which there is no line end.
   */
  lemma OctalNumbersAre(b: Bytes, n: nat)
    requires b != [] && b[0] < 128
    ensures ReadNumber(b) == Some(n) <==>
              exists lead, digits, trail, cut :: SpellsOctal(Ascii(b), lead, digits, trail, cut) && OctalValue(digits) == n
  {
    hide Cut, TrimLeft, TrimRight, OctalValue;
    var s := Ascii(b);
    if ReadNumber(b) == Some(n) {
      var cut := CutOff(s);
      var lead := LeftIsTrimmed(Cut(s));
      var trail := RightIsTrimmed(TrimLeft(Cut(s)));
      var digits := TrimRight(TrimLeft(Cut(s)));
      assert lead + (digits + trail) + cut == lead + digits + trail + cut;
      assert SpellsOctal(s, lead, digits, trail, cut);
    }
    forall lead, digits, trail, cut | SpellsOctal(s, lead, digits, trail, cut) && OctalValue(digits) == n
      ensures ReadNumber(b) == Some(n)
    {
      NothingElseIsCut(lead + digits + trail, cut);
      OctalIsTrimmed(lead, digits, trail);
    }
  }

  /** With the high bit it is read exactly when it is a safe integer, as the rest of its bits. */
  lemma BinaryNumbersAre(b: Bytes, n: nat)
    requires b != [] && b[0] >= 128
    ensures ReadNumber(b) == Some(n) <==> n == BigEndian(b[0 := b[0] - 128]) <= MAX_SAFE_INTEGER
  {
  }

  /** In a mode field, the byte 0xb1 is read as the digit 1. */
  lemma HighBitIsLost()
    ensures ReadNumber([0x30, 0x30, 0x30, 0x30, 0x30, 0x30, 0xb1, 0x00]) == Some(1)
  {
    hide ReadNumber;
    var b: Bytes := [0x30, 0x30, 0x30, 0x30, 0x30, 0x30, 0xb1, 0x00];
    OneIsRead(b, [0x30, 0x30, 0x30, 0x30, 0x30, 0x30], [0]);
  }

  /** In a mode field, a NUL with a line end behind it is not cut off. */
  lemma LineEndKeepsNul(n: nat)
    ensures ReadNumber([0x30, 0x30, 0x30, 0x30, 0x30, 0x31, 0x00, 0x20]) == Some(1)
    ensures ReadNumber([0x30, 0x30, 0x30, 0x30, 0x30, 0x31, 0x00, 0x0a]) != Some(n)
  {
    hide ReadNumber, OctalValue, AllTrimmed, IsOctal;
    var a: Bytes := [0x30, 0x30, 0x30, 0x30, 0x30, 0x31, 0x00, 0x20];
    var b: Bytes := [0x30, 0x30, 0x30, 0x30, 0x30, 0x31, 0x00, 0x0a];
    assert Ascii(b) == b;
    OneIsRead(a, [0x30, 0x30, 0x30, 0x30, 0x30], [0, 0x20]);
    OctalNumbersAre(b, n);
    forall lead, digits, trail, cut | SpellsOctal(Ascii(b), lead, digits, trail, cut) ensures false {
      NulIsCutOff(b, lead, digits, trail, cut);
    }
  }

  predicate AllNoughts(s: Bytes) { forall k | 0 <= k < |s| :: s[k] == 0x30 }

  lemma {:induction false} NoughtsHaveNoValue(s: Bytes)
    requires AllNoughts(s)
    ensures IsOctal(s) && OctalValue(s) == 0
  {
    if s != [] { NoughtsHaveNoValue(s[..|s| - 1]); }
  }

  lemma OneIsRead(b: Bytes, noughts: Bytes, cut: Bytes)
    requires b != [] && b[0] < 128 && Ascii(b) == noughts + [0x31] + cut && AllNoughts(noughts) && IsCutOff(cut)
    ensures ReadNumber(b) == Some(1)
  {
    hide ReadNumber;
    var digits := noughts + [0x31];
    NoughtsHaveNoValue(noughts);
    assert digits[..|digits| - 1] == noughts;
    assert SpellsOctal(Ascii(b), [], digits, [], cut);
    OctalNumbersAre(b, 1);
  }

  lemma NulIsCutOff(s: Bytes, lead: Bytes, digits: Bytes, trail: Bytes, cut: Bytes)
    requires SpellsOctal(s, lead, digits, trail, cut) && 0 in s
    ensures !IsLineEnd(s[|s| - 1])
  {
    assert 0 !in lead + digits + trail;
    assert cut == [] ==> s == lead + digits + trail;
    assert cut[|cut| - 1] == s[|s| - 1];
  }

  // ---- Text ---------------------------------------------------------------------------------

  const BYTE_ORDER_MARK: Bytes := [0xef, 0xbb, 0xbf]

  /** A fatal decoder, which takes a byte order mark away. */
  function Decode(host: Host, b: Bytes): Option<Bytes> {
    if !host.utf8(b) then None
    else if BYTE_ORDER_MARK <= b then Some(b[|BYTE_ORDER_MARK|..])
    else Some(b)
  }

  /** The first place of a byte from `i` on; the length if there is none. */
  function IndexOf(b: Bytes, i: nat, c: byte): (j: nat)
    requires i <= |b|
    ensures i <= j <= |b| && (j < |b| ==> b[j] == c) && forall k | i <= k < j :: b[k] != c
    decreases |b| - i
  {
    if i == |b| || b[i] == c then i else IndexOf(b, i + 1, c)
  }

  /** Up to the first NUL, behind which there must be nothing else. */
  function HeaderText(host: Host, b: Bytes): Option<Bytes> {
    var nul := IndexOf(b, 0, 0);
    if !AllZero(b[nul..]) then None else Decode(host, b[..nul])
  }

  predicate IsControl(c: byte) { c < 0x20 || c == 0x7f }

  function Lower(c: byte): byte { if 0x41 <= c <= 0x5a then c + 0x20 else c }

  predicate IsGit(s: Bytes) {
    |s| == 4 && s[0] == 0x2e && Lower(s[1]) == 0x67 && Lower(s[2]) == 0x69 && Lower(s[3]) == 0x74
  }

  predicate GoodSegment(s: Bytes) {
    s != [] && s != [0x2e] && s != [0x2e, 0x2e] && |s| <= MAX_SEGMENT_BYTES && !IsGit(s)
  }

  /** Every part between slashes is a good one. */
  predicate GoodSegments(s: Bytes)
    decreases |s|
  {
    var slash := IndexOf(s, 0, SLASH);
    GoodSegment(s[..slash]) && (slash < |s| ==> GoodSegments(s[slash + 1..]))
  }

  /** `decodePath` */
  predicate GoodPath(host: Host, b: Bytes) {
    && 0 < |b| <= MAX_PATH_BYTES
    && Decode(host, b).Some?
    && var value := Decode(host, b).value;
       && (forall k | 0 <= k < |value| :: value[k] != 0x5c && !IsControl(value[k]))
       && host.nfc(value) && GoodSegments(value)
  }

  /** The path inside the package. */
  function PackagePath(host: Host, value: Bytes): Option<Bytes> {
    if |value| == 0 || |value| > MAX_PATH_BYTES + |PACKAGE| || !(PACKAGE <= value) then None
    else if !GoodPath(host, value[|PACKAGE|..]) then None
    else Some(value[|PACKAGE|..])
  }

  // ---- PAX records ------------------------------------------------------------------------------

  predicate IsNumeral(s: Bytes) { s != [] && AllDigits(s) && s[0] != 0x30 }

  datatype PaxRecord = PaxRecord(key: Bytes, value: Bytes, next: nat)

  /** The record at `i`. */
  function ReadPaxRecord(host: Host, b: Bytes, i: nat): (r: Option<PaxRecord>)
    requires i < |b|
    ensures r.Some? ==> i < r.value.next <= |b|
  {
    var space := IndexOf(b, i, SPACE);
    var numeral := Ascii(b[i..space]);
    if space == |b| || !IsNumeral(numeral) then None
    else
      var end := i + DigitsValue(numeral);
      if end > |b| || end <= space + 1 || b[end - 1] != NEWLINE then None
      else
        var record := Decode(host, b[space + 1..end - 1]);
        if record.None? then None
        else
          var equals := IndexOf(record.value, 0, EQUALS);
          if equals == |record.value| || equals == 0 then None
          else Some(PaxRecord(record.value[..equals], record.value[equals + 1..], end))
  }

  type Values = map<Bytes, Bytes>

  /** Setting a member of a plain object: this one name is its prototype, and a string there is ignored. */
  function Assigned(values: Values, key: Bytes, value: Bytes): Values {
    if key == PROTO then values else values[key := value]
  }

  function ReadPax(host: Host, b: Bytes, i: nat, values: Values): Option<Values>
    requires i <= |b|
    decreases |b| - i
  {
    if i == |b| then Some(values)
    else
      var r := ReadPaxRecord(host, b, i);
      if r.None? || r.value.key in values then None
      else ReadPax(host, b, r.value.next, Assigned(values, r.value.key, r.value.value))
  }

  method ParsePax(host: Host, bytes: Bytes) returns (values: Option<Values>)
    ensures values == ReadPax(host, bytes, 0, map[])
  {
    var offset, found: Values := 0, map[];
    while offset < |bytes|
      invariant offset <= |bytes| && ReadPax(host, bytes, offset, found) == ReadPax(host, bytes, 0, map[])
    {
      var record := ReadPaxRecord(host, bytes, offset);
      if record.None? || record.value.key in found { return None; }
      found := Assigned(found, record.value.key, record.value.value);
      offset := record.value.next;
    }
    return Some(found);
  }

  // ---- Headers -----------------------------------------------------------------------------------

  datatype Header = Header(size: nat, mode: nat, kind: byte, path: Bytes)

  /** The bytes of a header, with spaces for the checksum itself. */
  function Sum(h: Bytes, n: nat): nat
    requires n <= |h| == BLOCK
  {
    if n == 0 then 0 else Sum(h, n - 1) + if 148 <= n - 1 < 156 then 0x20 else h[n - 1]
  }

  function ReadHeader(host: Host, h: Bytes): Option<Header>
    requires |h| == BLOCK
  {
    var checksum, size, mode := ReadNumber(h[148..156]), ReadNumber(h[124..136]), ReadNumber(h[100..108]);
    if checksum.None? || checksum.value != Sum(h, BLOCK) || size.None? || size.value > MAX_FILE_BYTES || mode.None? then None
    else
      var name, prefix := HeaderText(host, h[..100]), HeaderText(host, h[345..500]);
      if name.None? || prefix.None? then None
      else
        Some(Header(
          size.value, mode.value, if h[156] == 0 then TYPE_FILE else h[156],
          if prefix.value == [] then name.value else prefix.value + [SLASH] + name.value))
  }

  // ---- Archives ------------------------------------------------------------------------------------

  /** Path metadata that waits for its file. */
  datatype Metadata = Metadata(pax: Values, longPath: Option<Bytes>) {
    predicate IsEmpty() { pax == map[] && longPath.None? }
  }

  const NO_METADATA := Metadata(map[], None)

  /** The variables of the loop. */
  datatype Progress = Progress(offset: nat, zeroBlocks: nat, metadata: Metadata, files: seq<File>, total: nat)

  const START := Progress(0, 0, NO_METADATA, [], 0)

  /** Where the next header stands. */
  function NextHeader(at: nat, size: nat): nat { at + BLOCK + (size + BLOCK - 1) / BLOCK * BLOCK }

  function Or(a: Bytes, b: Bytes): Bytes { if a != [] then a else b }

  function FullPath(m: Metadata, header: Bytes): Bytes {
    Or(if PATH in m.pax then m.pax[PATH] else [], Or(if m.longPath.Some? then m.longPath.value else [], header))
  }

  predicate SizeAgrees(m: Metadata, size: nat) {
    SIZE in m.pax ==> m.pax[SIZE] != [] && AllDigits(m.pax[SIZE]) && DigitsValue(m.pax[SIZE]) == size
  }

  predicate HasPath(files: seq<File>, path: Bytes) { exists f | f in files :: f.path == path }

  /** What a record of metadata leaves to wait. */
  function ReadMetadata(host: Host, kind: byte, data: Bytes): Option<Metadata> {
    if kind == TYPE_EXTENDED then
      var pax := ReadPax(host, data, 0, map[]);
      if pax.None? || exists key | key in pax.value :: key != PATH && key != SIZE then None
      else Some(Metadata(pax.value, None))
    else
      var name := HeaderText(host, data);
      if name.None? then None else Some(Metadata(map[], name))
  }

  function ReadFile(host: Host, h: Header, m: Metadata, data: Bytes): Option<File> {
    var path := PackagePath(host, FullPath(m, h.path));
    if h.kind != TYPE_FILE || !SizeAgrees(m, h.size) || path.None? || (h.mode != 0x1a4 && h.mode != 0x1ed) then None
    else Some(File(path.value, h.mode, data))
  }

  /** One record; nothing when the archive is rejected. */
  function ReadRecord(host: Host, a: Bytes, p: Progress): (q: Option<Progress>)
    requires p.offset + BLOCK <= |a|
    ensures q.Some? ==> q.value.offset > p.offset
  {
    var header := ReadHeader(host, a[p.offset..p.offset + BLOCK]);
    if p.zeroBlocks != 0 || header.None? || p.offset + BLOCK + header.value.size > |a| then None
    else
      var h := header.value;
      var data := a[p.offset + BLOCK..p.offset + BLOCK + h.size];
      var next := NextHeader(p.offset, h.size);
      if h.kind == TYPE_EXTENDED || h.kind == TYPE_LONG_NAME then
        var m := ReadMetadata(host, h.kind, data);
        if !p.metadata.IsEmpty() || m.None? then None else Some(p.(offset := next, metadata := m.value))
      else
        var file := ReadFile(host, h, p.metadata, data);
        if file.None? || HasPath(p.files, file.value.path) || p.total + h.size > MAX_TOTAL_BYTES || |p.files| >= MAX_FILES
        then None
        else Some(Progress(next, 0, NO_METADATA, p.files + [file.value], p.total + h.size))
  }

  function IsZeroBlock(a: Bytes, at: nat): bool
    requires at + BLOCK <= |a|
  {
    AllZero(a[at..at + BLOCK])
  }

  /** The loop, from here on. */
  function Walk(host: Host, a: Bytes, p: Progress): Option<Progress>
    decreases |a| - p.offset
  {
    if p.offset + BLOCK > |a| || p.zeroBlocks == 2 then Some(p)
    else if IsZeroBlock(a, p.offset) then Walk(host, a, p.(offset := p.offset + BLOCK, zeroBlocks := p.zeroBlocks + 1))
    else
      var q := ReadRecord(host, a, p);
      if q.None? then None else Walk(host, a, q.value)
  }

  /** Two zero blocks end the loop. */
  lemma ZerosEnd(host: Host, a: Bytes, p: Progress)
    requires p.zeroBlocks == 0 && p.offset + 2 * BLOCK <= |a| && AllZero(a[p.offset..p.offset + 2 * BLOCK])
    ensures Walk(host, a, p) == Some(p.(offset := p.offset + 2 * BLOCK, zeroBlocks := 2))
  {
    hide ReadRecord, AllZero;
    var q := p.(offset := p.offset + BLOCK, zeroBlocks := 1);
    ZeroBlocks(a, p.offset);
    assert Walk(host, a, p) == Walk(host, a, q);
    assert Walk(host, a, q) == Walk(host, a, q.(offset := q.offset + BLOCK, zeroBlocks := 2));
  }

  lemma ZeroBlocks(a: Bytes, at: nat)
    requires at + 2 * BLOCK <= |a| && AllZero(a[at..at + 2 * BLOCK])
    ensures IsZeroBlock(a, at) && IsZeroBlock(a, at + BLOCK)
  {
    assert forall k | at <= k < at + 2 * BLOCK :: a[k] == a[at..at + 2 * BLOCK][k - at];
  }

  /** The files of an archive, in its order; nothing when it is rejected. */
  function Files(host: Host, a: Bytes): Option<seq<File>> {
    var end := Walk(host, a, START);
    if end.None? || end.value.zeroBlocks != 2 || !AllZero(a[Least(end.value.offset, |a|)..]) || !end.value.metadata.IsEmpty()
    then None else Some(end.value.files)
  }

  function Least(a: nat, b: nat): (c: nat)
    ensures c <= a && c <= b
  {
    if a <= b then a else b
  }

  method ParseTarFiles(host: Host, archive: Bytes) returns (result: Option<seq<File>>)
    ensures result == Files(host, archive)
  {
    hide ReadHeader, ReadFile, ReadMetadata, NextHeader;
    var offset: nat, zeroBlocks: nat, totalBytes: nat, metadata := 0, 0, 0, NO_METADATA;
    var files: seq<File>, paths: set<Bytes> := [], {};
    while offset + BLOCK <= |archive|
      invariant zeroBlocks < 2 && (forall path :: path in paths <==> HasPath(files, path))
      invariant Walk(host, archive, Progress(offset, zeroBlocks, metadata, files, totalBytes)) == Walk(host, archive, START)
      decreases |archive| - offset
    {
      var block := archive[offset..offset + BLOCK];
      if AllZero(block) {
        zeroBlocks := zeroBlocks + 1;
        offset := offset + BLOCK;
        if zeroBlocks == 2 { break; }
        continue;
      }
      if zeroBlocks != 0 { return None; }
      var header := ReadHeader(host, block);
      if header.None? { return None; }
      var h, dataStart := header.value, offset + BLOCK;
      var dataEnd := dataStart + h.size;
      if dataEnd > |archive| { return None; }
      var data := archive[dataStart..dataEnd];
      if h.kind == TYPE_EXTENDED || h.kind == TYPE_LONG_NAME {
        if !metadata.IsEmpty() { return None; }
        var m := ReadMetadata(host, h.kind, data);
        if m.None? { return None; }
        metadata := m.value;
      } else {
        var file := ReadFile(host, h, metadata, data);
        if file.None? || file.value.path in paths { return None; }
        paths := paths + {file.value.path};
        totalBytes := totalBytes + h.size;
        if totalBytes > MAX_TOTAL_BYTES { return None; }
        files := files + [file.value];
        if |files| > MAX_FILES { return None; }
        metadata := NO_METADATA;
      }
      offset := NextHeader(offset, h.size);
    }
    if zeroBlocks != 2 || !AllZero(archive[Least(offset, |archive|)..]) || !metadata.IsEmpty() { return None; }
    return Some(files);
  }

  // ---- An accepted archive is tiled by its records ---------------------------------------------------

  datatype Record = Record(at: nat, header: Header)

  /** A record stands whole in the archive. */
  ghost predicate Stands(host: Host, a: Bytes, r: Record) {
    && r.at + BLOCK + r.header.size <= |a| && r.header.size <= MAX_FILE_BYTES
    && !AllZero(a[r.at..r.at + BLOCK]) && ReadHeader(host, a[r.at..r.at + BLOCK]) == Some(r.header)
    && (IsFile(r) || r.header.kind == TYPE_EXTENDED || r.header.kind == TYPE_LONG_NAME)
  }

  predicate IsFile(r: Record) { r.header.kind == TYPE_FILE }

  /** Where the record behind the `k`-th one stands. */
  function Behind(rs: seq<Record>, k: nat): nat
    requires k < |rs|
  {
    NextHeader(rs[k].at, rs[k].header.size)
  }

  /** Records follow each other from the start of the archive to `end`, each at the next block. */
  ghost predicate Tiles(host: Host, a: Bytes, rs: seq<Record>, end: nat) {
    && (if rs == [] then end else rs[0].at) == 0
    && forall k | 0 <= k < |rs| :: Stands(host, a, rs[k]) && Adjoins(rs, k, end)
  }

  /** The next record, or the end, is right behind the `k`-th record. */
  ghost predicate Adjoins(rs: seq<Record>, k: nat, end: nat)
    requires k < |rs|
  {
    Behind(rs, k) == if k + 1 < |rs| then rs[k + 1].at else end
  }

  function Data(a: Bytes, r: Record): Bytes {
    if r.at + BLOCK + r.header.size <= |a| then a[r.at + BLOCK..r.at + BLOCK + r.header.size] else []
  }

  /** The path metadata that waits behind these records. */
  function Waiting(host: Host, a: Bytes, rs: seq<Record>): Metadata {
    if rs == [] || IsFile(rs[|rs| - 1]) then NO_METADATA
    else
      var last := rs[|rs| - 1];
      var m := ReadMetadata(host, last.header.kind, Data(a, last));
      if m.None? then NO_METADATA else m.value
  }

  /** The file of a record, which has the path that waits for it or the one in its header. */
  predicate IsFileOf(host: Host, a: Bytes, before: seq<Record>, r: Record, f: File) {
    && f.data == Data(a, r) && f.mode == r.header.mode
    && PackagePath(host, FullPath(Waiting(host, a, before), r.header.path)) == Some(f.path)
    && SizeAgrees(Waiting(host, a, before), r.header.size)
  }

  /** These are the files of these records, in order. */
  ghost predicate FilesAre(host: Host, a: Bytes, rs: seq<Record>, files: seq<File>) {
    if rs == [] then files == []
    else
      var before, last := rs[..|rs| - 1], rs[|rs| - 1];
      if !IsFile(last) then FilesAre(host, a, before, files)
      else
        && files != [] && FilesAre(host, a, before, files[..|files| - 1])
        && IsFileOf(host, a, before, last, files[|files| - 1])
  }

  function TotalSize(files: seq<File>): nat {
    if files == [] then 0 else TotalSize(files[..|files| - 1]) + |files[|files| - 1].data|
  }

  ghost predicate DistinctPaths(files: seq<File>) {
    forall j, k | 0 <= j < k < |files| :: files[j].path != files[k].path
  }

  ghost predicate WithinLimits(host: Host, files: seq<File>) {
    && |files| <= 10_000 && TotalSize(files) <= 256 * 1024 * 1024 && DistinctPaths(files)
    && forall f | f in files :: GoodPath(host, f.path) && |f.data| <= 64 * 1024 * 1024 && (f.mode == 0x1a4 || f.mode == 0x1ed)
  }

  /** A record of metadata can be read, and comes where no other metadata waits. */
  ghost predicate UsesMetadata(host: Host, a: Bytes, rs: seq<Record>) {
    forall k | 0 <= k < |rs| && !IsFile(rs[k]) ::
      ReadMetadata(host, rs[k].header.kind, Data(a, rs[k])).Some? && Waiting(host, a, rs[..k]) == Metadata(map[], None)
  }

  /** What the loop knows before it meets a zero block. */
  ghost predicate Reached(host: Host, a: Bytes, p: Progress, rs: seq<Record>) {
    && Tiles(host, a, rs, p.offset) && FilesAre(host, a, rs, p.files) && WithinLimits(host, p.files)
    && UsesMetadata(host, a, rs)
    && p.total == TotalSize(p.files) && p.metadata == Waiting(host, a, rs)
  }

  /** What reading a record tells of it, and of what comes next. */
  lemma RecordRead(host: Host, a: Bytes, p: Progress) returns (r: Record)
    requires p.offset + BLOCK <= |a| && !IsZeroBlock(a, p.offset) && ReadRecord(host, a, p).Some?
    ensures r.at == p.offset && Stands(host, a, r)
    ensures var q := ReadRecord(host, a, p).value;
            && q.offset == NextHeader(r.at, r.header.size) && q.zeroBlocks == p.zeroBlocks == 0
            && if !IsFile(r) then
                 && q.files == p.files && q.total == p.total && p.metadata.IsEmpty()
                 && ReadMetadata(host, r.header.kind, Data(a, r)) == Some(q.metadata)
               else
                 && |q.files| == |p.files| + 1 && q.files[..|p.files|] == p.files && q.total == p.total + r.header.size
                 && q.metadata == NO_METADATA && SizeAgrees(p.metadata, r.header.size)
                 && PackagePath(host, FullPath(p.metadata, r.header.path)) == Some(q.files[|p.files|].path)
                 && |p.files| < MAX_FILES && q.total <= MAX_TOTAL_BYTES
                 && var f := q.files[|p.files|];
                    f.data == Data(a, r) && f.mode == r.header.mode && (f.mode == 0x1a4 || f.mode == 0x1ed)
                    && GoodPath(host, f.path) && !HasPath(p.files, f.path)
  {
    hide ReadHeader, ReadMetadata, PackagePath, GoodPath, SizeAgrees, FullPath, ReadFile;
    var h := ReadHeader(host, a[p.offset..p.offset + BLOCK]).value;
    r := Record(p.offset, h);
    HeaderSizeIsBounded(host, a[p.offset..p.offset + BLOCK]);
    if h.kind != TYPE_EXTENDED && h.kind != TYPE_LONG_NAME {
      PathIsGood(host, h, p.metadata, Data(a, r));
    }
  }

  lemma OneMoreRecord(host: Host, a: Bytes, rs: seq<Record>, r: Record, files: seq<File>)
    requires FilesAre(host, a, rs, files)
    ensures !IsFile(r) ==> FilesAre(host, a, rs + [r], files)
    ensures forall f | IsFile(r) && IsFileOf(host, a, rs, r, f) :: FilesAre(host, a, rs + [r], files + [f])
  {
    hide IsFileOf;
    var more := rs + [r];
    assert more[..|more| - 1] == rs;
    forall f | IsFile(r) && IsFileOf(host, a, rs, r, f) ensures FilesAre(host, a, more, files + [f]) {
      assert (files + [f])[..|files + [f]| - 1] == files;
    }
  }

  lemma WaitingBehind(host: Host, a: Bytes, rs: seq<Record>, r: Record)
    ensures IsFile(r) ==> Waiting(host, a, rs + [r]) == NO_METADATA
    ensures forall m | !IsFile(r) && ReadMetadata(host, r.header.kind, Data(a, r)) == Some(m) :: Waiting(host, a, rs + [r]) == m
  {
    hide ReadMetadata;
  }

  lemma RecordIsRead(host: Host, a: Bytes, p: Progress, rs: seq<Record>) returns (more: seq<Record>)
    requires Reached(host, a, p, rs) && p.offset + BLOCK <= |a| && !IsZeroBlock(a, p.offset)
    requires ReadRecord(host, a, p).Some?
    ensures Reached(host, a, ReadRecord(host, a, p).value, more)
  {
    hide ReadRecord, WithinLimits, TotalSize, Stands, NextHeader, GoodPath, FilesAre, Waiting, Tiles, ReadMetadata;
    hide PackagePath, FullPath, SizeAgrees, UsesMetadata;
    var r := RecordRead(host, a, p);
    var q := ReadRecord(host, a, p).value;
    more := rs + [r];
    OneMoreTile(host, a, rs, r, q.offset);
    OneMoreRecord(host, a, rs, r, p.files);
    WaitingBehind(host, a, rs, r);
    OneMoreUse(host, a, rs, r);
    if IsFile(r) {
      var f := q.files[|p.files|];
      DataSize(host, a, r);
      FileIsAdded(host, p.files, f);
      assert q.files == p.files + [f] && IsFileOf(host, a, rs, r, f);
    }
  }

  lemma OneMoreUse(host: Host, a: Bytes, rs: seq<Record>, r: Record)
    requires UsesMetadata(host, a, rs)
    requires !IsFile(r) ==> ReadMetadata(host, r.header.kind, Data(a, r)).Some? && Waiting(host, a, rs) == Metadata(map[], None)
    ensures UsesMetadata(host, a, rs + [r])
  {
    hide Waiting, ReadMetadata;
    var more := rs + [r];
    forall k | 0 <= k < |more| && !IsFile(more[k])
      ensures ReadMetadata(host, more[k].header.kind, Data(a, more[k])).Some? && Waiting(host, a, more[..k]) == Metadata(map[], None)
    {
      assert more[..k] == if k < |rs| then rs[..k] else rs;
    }
  }

  lemma DataSize(host: Host, a: Bytes, r: Record)
    requires Stands(host, a, r)
    ensures |Data(a, r)| == r.header.size <= MAX_FILE_BYTES
  {
  }

  lemma OneMoreTile(host: Host, a: Bytes, rs: seq<Record>, r: Record, end: nat)
    requires Tiles(host, a, rs, r.at) && Stands(host, a, r) && end == NextHeader(r.at, r.header.size)
    ensures Tiles(host, a, rs + [r], end)
  {
    hide Stands, NextHeader;
    var more := rs + [r];
    forall k | 0 <= k < |more|
      ensures Stands(host, a, more[k]) && Adjoins(more, k, end)
    {
      if k < |rs| {
        assert more[k + 1] == if k + 1 < |rs| then rs[k + 1] else r;
        assert Stands(host, a, rs[k]) && Adjoins(rs, k, r.at);
      }
    }
  }

  lemma HeaderSizeIsBounded(host: Host, h: Bytes)
    requires |h| == BLOCK && ReadHeader(host, h).Some?
    ensures ReadHeader(host, h).value.size <= MAX_FILE_BYTES
  {
  }

  lemma PathIsGood(host: Host, h: Header, m: Metadata, data: Bytes)
    requires ReadFile(host, h, m, data).Some?
    ensures var f := ReadFile(host, h, m, data).value;
            && GoodPath(host, f.path) && f.data == data && f.mode == h.mode && (f.mode == 0x1a4 || f.mode == 0x1ed)
            && h.kind == TYPE_FILE && SizeAgrees(m, h.size) && PackagePath(host, FullPath(m, h.path)) == Some(f.path)
  {
    hide GoodPath;
  }

  lemma FileIsAdded(host: Host, files: seq<File>, f: File)
    requires WithinLimits(host, files) && GoodPath(host, f.path) && !HasPath(files, f.path) && |files| < MAX_FILES
    requires |f.data| <= MAX_FILE_BYTES && (f.mode == 0x1a4 || f.mode == 0x1ed)
    requires TotalSize(files) + |f.data| <= MAX_TOTAL_BYTES
    ensures WithinLimits(host, files + [f]) && TotalSize(files + [f]) == TotalSize(files) + |f.data|
  {
    hide GoodPath;
    var more := files + [f];
    assert more[..|more| - 1] == files;
    forall j, k | 0 <= j < k < |more| ensures more[j].path != more[k].path {
      assert more[j] in files;
    }
  }

  lemma {:induction false} WalkIsTiled(host: Host, a: Bytes, p: Progress, rs: seq<Record>)
    returns (all: seq<Record>, end: nat)
    requires p.zeroBlocks == 0 && Reached(host, a, p, rs)
    requires Walk(host, a, p).Some? && Walk(host, a, p).value.zeroBlocks == 2
    ensures Reached(host, a, Walk(host, a, p).value.(offset := end), all)
    ensures end + 2 * BLOCK == Walk(host, a, p).value.offset <= |a| && AllZero(a[end..end + 2 * BLOCK])
    decreases |a| - p.offset
  {
    hide ReadRecord, Tiles, FilesAre, WithinLimits, Waiting, UsesMetadata;
    if IsZeroBlock(a, p.offset) {
      all, end := rs, p.offset;
      TwoZeroBlocks(host, a, p);
    } else {
      var more := RecordIsRead(host, a, p, rs);
      var r := RecordRead(host, a, p);
      all, end := WalkIsTiled(host, a, ReadRecord(host, a, p).value, more);
    }
  }

  lemma TwoZeroBlocks(host: Host, a: Bytes, p: Progress)
    requires p.offset + BLOCK <= |a| && IsZeroBlock(a, p.offset) && p.zeroBlocks == 0
    requires Walk(host, a, p).Some? && Walk(host, a, p).value.zeroBlocks == 2
    ensures p.offset + 2 * BLOCK <= |a| && AllZero(a[p.offset..p.offset + 2 * BLOCK])
    ensures Walk(host, a, p).value == p.(offset := p.offset + 2 * BLOCK, zeroBlocks := 2)
  {
    hide ReadHeader;
    var q := p.(offset := p.offset + BLOCK, zeroBlocks := 1);
    var r := q.(offset := q.offset + BLOCK, zeroBlocks := 2);
    assert Walk(host, a, p) == Walk(host, a, q);
    assert q.offset + BLOCK <= |a| && IsZeroBlock(a, q.offset);
    var first, second := a[p.offset..p.offset + BLOCK], a[q.offset..q.offset + BLOCK];
    assert a[p.offset..p.offset + 2 * BLOCK] == first + second;
    assert Walk(host, a, q) == Walk(host, a, r) == Some(r);
  }

  /**
   The records of an accepted archive stand one after the other, whole, from its start to
   two zero blocks behind which everything is zero; the files are those of the records, with
   different good paths and within the limits, and no path metadata is left over.
   */
  lemma AcceptedArchiveIsTiled(host: Host, a: Bytes) returns (rs: seq<Record>, end: nat)
    requires Files(host, a).Some?
    ensures Tiles(host, a, rs, end) && end + 2 * BLOCK <= |a| && AllZero(a[end..])
    ensures FilesAre(host, a, rs, Files(host, a).value) && WithinLimits(host, Files(host, a).value)
    ensures UsesMetadata(host, a, rs) && Waiting(host, a, rs) == Metadata(map[], None)
  {
    NothingIsReached(host, a);
    hide Reached, Walk, Tiles;
    rs, end := WalkIsTiled(host, a, START, []);
    ReachedIs(host, a, Walk(host, a, START).value.(offset := end), rs);
    var last := Walk(host, a, START).value.offset;
    assert a[end..] == a[end..last] + a[last..];
  }

  lemma NothingIsReached(host: Host, a: Bytes)
    ensures Reached(host, a, START, [])
  {
  }

  lemma ReachedIs(host: Host, a: Bytes, p: Progress, rs: seq<Record>)
    requires Reached(host, a, p, rs)
    ensures Tiles(host, a, rs, p.offset) && FilesAre(host, a, rs, p.files) && WithinLimits(host, p.files)
    ensures UsesMetadata(host, a, rs) && p.metadata == Waiting(host, a, rs)
  {
  }

  lemma NextIsBehind(at: nat, size: nat)
    ensures at + BLOCK + size <= NextHeader(at, size) < at + 2 * BLOCK + size
  {
  }

  /** Records of a tiled archive do not overlap. */
  lemma {:induction false} RecordsAreDisjoint(host: Host, a: Bytes, rs: seq<Record>, end: nat, j: nat, k: nat)
    requires Tiles(host, a, rs, end) && j < k < |rs|
    ensures rs[j].at + BLOCK + rs[j].header.size <= Behind(rs, j) <= rs[k].at
    decreases k - j
  {
    hide Stands, NextHeader;
    assert Adjoins(rs, j, end);
    NextIsBehind(rs[j].at, rs[j].header.size);
    if j + 1 < k {
      RecordsAreDisjoint(host, a, rs, end, j + 1, k);
    }
  }
}
