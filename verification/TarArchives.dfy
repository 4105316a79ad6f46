/**
 Exactly which archives are accepted, and with which files: headers, path metadata and
 records, said of the bytes.
 */
module TarArchives {
  import opened Bytes
  import JsonValues
  import opened Tar
  import opened TarPaths

  // ---- Headers --------------------------------------------------------------------------------

  ghost function Total(b: Bytes): nat { if b == [] then 0 else Total(b[..|b| - 1]) + b[|b| - 1] }

  const SPACES: Bytes := [0x20, 0x20, 0x20, 0x20, 0x20, 0x20, 0x20, 0x20]

  /** A field of a header holds a text, and zeros behind it. */
  ghost predicate HoldsText(host: Host, field: Bytes, text: Bytes) {
    exists raw, zeros :: field == raw + zeros && 0 !in raw && AllZero(zeros) && host.utf8(raw) && text == Checked(raw)
  }

  lemma TextIsHeld(host: Host, field: Bytes, text: Bytes)
    ensures HeaderText(host, field) == Some(text) <==> HoldsText(host, field, text)
  {
    var nul := IndexOf(field, 0, 0);
    var first, rest := field[..nul], field[nul..];
    assert field == first + rest && 0 !in first;
    forall raw, zeros | field == raw + zeros && 0 !in raw && AllZero(zeros) ensures raw == first && zeros == rest {
      RawIsFirst(field, nul, raw, zeros);
    }
  }

  lemma RawIsFirst(field: Bytes, nul: nat, raw: Bytes, zeros: Bytes)
    requires field == raw + zeros && 0 !in raw && AllZero(zeros) && nul == IndexOf(field, 0, 0)
    ensures raw == field[..nul] && zeros == field[nul..]
  {
    assert zeros != [] ==> field[|raw|] == zeros[0] == 0;
    assert forall k | 0 <= k < |raw| :: field[k] == raw[k];
    assert |raw| == nul;
  }

  lemma {:induction false} SumIsTotal(h: Bytes, n: nat)
    requires n <= |h| == BLOCK
    ensures Sum(h, n) == Total((h[..148] + SPACES + h[156..])[..n])
  {
    var s := h[..148] + SPACES + h[156..];
    if n > 0 {
      SumIsTotal(h, n - 1);
      assert s[..n][..n - 1] == s[..n - 1];
      assert s[n - 1] == if 148 <= n - 1 < 156 then 0x20 else h[n - 1];
    }
  }

  /** What a block of 512 bytes says as a header: the numbers in their fields, and the sum of its bytes with spaces for the sum. */
  ghost predicate Says(host: Host, h: Bytes, header: Header)
    requires |h| == BLOCK
  {
    && ReadNumber(h[148..156]) == Some(Total(h[..148] + SPACES + h[156..]))
    && ReadNumber(h[124..136]) == Some(header.size) && header.size <= 64 * 1024 * 1024
    && ReadNumber(h[100..108]) == Some(header.mode)
    && header.kind == (if h[156] == 0 then '0' as int else h[156])
    && exists name: Bytes, prefix: Bytes ::
         && HoldsText(host, h[..100], name) && HoldsText(host, h[345..500], prefix)
         && header.path == if prefix == [] then name else prefix + [SLASH] + name
  }

  lemma HeadersAre(host: Host, h: Bytes, header: Header)
    requires |h| == BLOCK
    ensures ReadHeader(host, h) == Some(header) <==> Says(host, h, header)
  {
    hide ReadNumber, HeaderText, Sum, Total, HoldsText;
    SumIsTotal(h, BLOCK);
    var s := h[..148] + SPACES + h[156..];
    assert s[..BLOCK] == s;
    forall text ensures HeaderText(host, h[..100]) == Some(text) <==> HoldsText(host, h[..100], text) {
      TextIsHeld(host, h[..100], text);
    }
    forall text ensures HeaderText(host, h[345..500]) == Some(text) <==> HoldsText(host, h[345..500], text) {
      TextIsHeld(host, h[345..500], text);
    }
    if ReadHeader(host, h) == Some(header) {
      var name, prefix := HeaderText(host, h[..100]).value, HeaderText(host, h[345..500]).value;
      assert HoldsText(host, h[..100], name) && HoldsText(host, h[345..500], prefix);
    }
  }

  // ---- Path metadata --------------------------------------------------------------------------

  datatype Line = Line(bytes: Bytes, key: Bytes, value: Bytes)

  /** The number of all its bytes, a space, a key, an equals sign, a value and a line end. */
  ghost predicate IsLine(host: Host, l: Line) {
    exists numeral, body: Bytes :: IsLineOf(host, l, numeral, body)
  }

  /** Decimal digits, the first of which is not a zero. */
  ghost predicate IsDecimal(t: Bytes) {
    t != [] && t[0] != '0' as int && forall k | 0 <= k < |t| :: '0' as int <= t[k] <= '9' as int
  }

  lemma DecimalIs(t: Bytes)
    ensures IsDecimal(t) <==> IsNumeral(t)
  {
  }

  ghost predicate IsLineOf(host: Host, l: Line, numeral: Bytes, body: Bytes) {
    && l.bytes == numeral + [SPACE] + body + [NEWLINE] && SPACE !in numeral
    && IsDecimal(Ascii(numeral)) && JsonValues.DigitsValue(Ascii(numeral)) == |l.bytes|
    && host.utf8(body) && Checked(body) == l.key + [EQUALS] + l.value && EQUALS !in l.key && l.key != []
  }

  lemma FirstAt(b: Bytes, i: nat, c: byte, j: nat)
    requires i <= j < |b| && b[j] == c && forall k | i <= k < j :: b[k] != c
    ensures IndexOf(b, i, c) == j
  {
  }

  lemma KeyAndValue(t: Bytes, key: Bytes, value: Bytes)
    requires t == key + [EQUALS] + value && EQUALS !in key
    ensures IndexOf(t, 0, EQUALS) == |key| && t[..|key|] == key && t[|key| + 1..] == value
  {
    assert forall k | 0 <= k < |key| :: t[k] == key[k];
    FirstAt(t, 0, EQUALS, |key|);
  }

  /** Where the parts of a line stand. */
  lemma PartsStand(b: Bytes, i: nat, numeral: Bytes, body: Bytes)
    requires var line := numeral + [SPACE] + body + [NEWLINE]; i + |line| <= |b| && b[i..i + |line|] == line
    requires SPACE !in numeral
    ensures var space, end := i + |numeral|, i + |numeral| + |body| + 2;
            && IndexOf(b, i, SPACE) == space < |b| && b[i..space] == numeral
            && b[space + 1..end - 1] == body && b[end - 1] == NEWLINE
  {
    var line, space, end := numeral + [SPACE] + body + [NEWLINE], i + |numeral|, i + |numeral| + |body| + 2;
    assert forall k | 0 <= k < |line| :: b[i..end][k] == b[i + k];
    assert b[i..space] == line[..|numeral|] == numeral;
    assert b[space + 1..end - 1] == line[|numeral| + 1..|line| - 1] == body;
    assert b[space] == line[|numeral|] && b[end - 1] == line[|line| - 1];
    forall k | i <= k < space ensures b[k] != SPACE {
      assert b[k] == numeral[k - i];
    }
    FirstAt(b, i, SPACE, space);
  }

  /** What is read at a place is one line there. */
  lemma LineIsRead(host: Host, b: Bytes, i: nat, l: Line)
    requires i < |b| && i + |l.bytes| <= |b| && b[i..i + |l.bytes|] == l.bytes && IsLine(host, l)
    ensures ReadPaxRecord(host, b, i) == Some(PaxRecord(l.key, l.value, i + |l.bytes|))
  {
    hide ReadPaxRecord, Checked, IndexOf, Ascii, IsNumeral, IsDecimal, JsonValues.DigitsValue;
    var numeral, body :| IsLineOf(host, l, numeral, body);
    DecimalIs(Ascii(numeral));
    PartsStand(b, i, numeral, body);
    KeyAndValue(Checked(body), l.key, l.value);
    var space, end := i + |numeral|, i + |l.bytes|;
    RecordOfParts(host, b, i, space, end, numeral, body, l.key, l.value);
  }

  lemma RecordOfParts(host: Host, b: Bytes, i: nat, space: nat, end: nat, numeral: Bytes, body: Bytes, key: Bytes, value: Bytes)
    requires i <= space < end - 1 < |b| && IndexOf(b, i, SPACE) == space && b[i..space] == numeral && b[space + 1..end - 1] == body
    requires b[end - 1] == NEWLINE && IsNumeral(Ascii(numeral)) && i + JsonValues.DigitsValue(Ascii(numeral)) == end && host.utf8(body)
    requires IndexOf(Checked(body), 0, EQUALS) == |key| < |Checked(body)| && Checked(body)[..|key|] == key && key != []
    requires Checked(body)[|key| + 1..] == value
    ensures ReadPaxRecord(host, b, i) == Some(PaxRecord(key, value, end))
  {
    hide IsNumeral, JsonValues.DigitsValue, IndexOf, Ascii, Checked;
    DecodesTo(host, body);
  }

  lemma DecodesTo(host: Host, body: Bytes)
    ensures Decode(host, body) == if host.utf8(body) then Some(Checked(body)) else None
  {
  }

  lemma ReadIsLine(host: Host, b: Bytes, i: nat) returns (l: Line)
    requires i < |b| && ReadPaxRecord(host, b, i).Some?
    ensures var r := ReadPaxRecord(host, b, i).value;
            l == Line(b[i..r.next], r.key, r.value) && IsLine(host, l)
  {
    hide IsNumeral, IsDecimal, JsonValues.DigitsValue, Ascii, IndexOf, ReadPaxRecord, Checked;
    var r := ReadPaxRecord(host, b, i).value;
    l := Line(b[i..r.next], r.key, r.value);
    var space, body := PartsOfRecord(host, b, i);
    LineOfParts(b, i, space, r.next);
    DecimalIs(Ascii(b[i..space]));
    assert IsLineOf(host, l, b[i..space], body);
  }

  lemma PartsOfRecord(host: Host, b: Bytes, i: nat) returns (space: nat, body: Bytes)
    requires i < |b| && ReadPaxRecord(host, b, i).Some?
    ensures var r := ReadPaxRecord(host, b, i).value;
            && i <= space < r.next - 1 < |b| && b[space] == SPACE && SPACE !in b[i..space] && b[r.next - 1] == NEWLINE
            && IsNumeral(Ascii(b[i..space])) && i + JsonValues.DigitsValue(Ascii(b[i..space])) == r.next
            && body == b[space + 1..r.next - 1] && host.utf8(body)
            && Checked(body) == r.key + [EQUALS] + r.value && EQUALS !in r.key && r.key != []
  {
    hide IsNumeral, JsonValues.DigitsValue, Ascii, IndexOf, Checked;
    space := IndexOf(b, i, SPACE);
    body := b[space + 1..ReadPaxRecord(host, b, i).value.next - 1];
    DecodesTo(host, body);
    TextSplits(Checked(body), IndexOf(Checked(body), 0, EQUALS));
  }

  lemma LineOfParts(b: Bytes, i: nat, space: nat, next: nat)
    requires i <= space < next - 1 < |b| && b[space] == SPACE && b[next - 1] == NEWLINE
    ensures b[i..next] == b[i..space] + [SPACE] + b[space + 1..next - 1] + [NEWLINE]
  {
  }

  lemma TextSplits(t: Bytes, equals: nat)
    requires equals <= |t| && (forall k | 0 <= k < equals :: t[k] != EQUALS) && (equals < |t| ==> t[equals] == EQUALS)
    ensures equals < |t| ==> t == t[..equals] + [EQUALS] + t[equals + 1..] && EQUALS !in t[..equals]
  {
  }

  ghost function Glue(ls: seq<Line>): Bytes { if ls == [] then [] else ls[0].bytes + Glue(ls[1..]) }

  /** No key comes twice but `__proto__`, which is not kept; the others are, with their values. */
  ghost predicate AreValues(ls: seq<Line>, values: Values) {
    && (forall j, k | 0 <= j < k < |ls| :: ls[j].key != ls[k].key || ls[j].key == PROTO)
    && (forall k | 0 <= k < |ls| && ls[k].key != PROTO :: ls[k].key in values && values[ls[k].key] == ls[k].value)
    && forall key | key in values :: key != PROTO && exists k :: 0 <= k < |ls| && ls[k].key == key
  }

  /** Metadata is read exactly when it is such lines, one after the other. */
  ghost predicate HoldsValues(host: Host, b: Bytes, values: Values) {
    exists ls: seq<Line> :: Glue(ls) == b && (forall l | l in ls :: IsLine(host, l)) && AreValues(ls, values)
  }

  lemma {:induction false} GlueMore(ls: seq<Line>, l: Line)
    ensures Glue(ls + [l]) == Glue(ls) + l.bytes
  {
    if ls == [] {
      assert Glue([l]) == l.bytes + Glue([]) == l.bytes && [] + [l] == [l];
    } else {
      assert (ls + [l])[1..] == ls[1..] + [l];
      GlueMore(ls[1..], l);
    }
  }

  lemma OneMoreValue(ls: seq<Line>, values: Values, l: Line)
    requires AreValues(ls, values) && l.key !in values
    ensures AreValues(ls + [l], Assigned(values, l.key, l.value))
  {
    var more, after := ls + [l], Assigned(values, l.key, l.value);
    forall j, k | 0 <= j < k < |more| ensures more[j].key != more[k].key || more[j].key == PROTO {
    }
    forall key | key in after ensures key != PROTO && exists k :: 0 <= k < |more| && more[k].key == key {
      if key in values {
        var k :| 0 <= k < |ls| && ls[k].key == key;
        assert more[k].key == key;
      } else {
        assert more[|ls|].key == key;
      }
    }
  }

  lemma {:induction false} ReadAreLines(host: Host, b: Bytes, i: nat, values: Values, ls: seq<Line>)
    requires i <= |b| && Glue(ls) == b[..i] && (forall l | l in ls :: IsLine(host, l)) && AreValues(ls, values)
    requires ReadPax(host, b, i, values).Some?
    ensures HoldsValues(host, b, ReadPax(host, b, i, values).value)
    decreases |b| - i
  {
    hide IsLine, AreValues, Assigned, ReadPaxRecord;
    if i == |b| {
      assert b[..i] == b;
    } else {
      var l := ReadIsLine(host, b, i);
      var next := ReadPaxRecord(host, b, i).value.next;
      GlueMore(ls, l);
      OneMoreValue(ls, values, l);
      assert b[..i] + l.bytes == b[..next];
      ReadAreLines(host, b, next, Assigned(values, l.key, l.value), ls + [l]);
    }
  }

  /** The values so far, of the first `n` lines. */
  lemma {:induction false} LinesAreRead(host: Host, b: Bytes, ls: seq<Line>, n: nat, i: nat, found: Values, values: Values)
    requires n <= |ls| && (forall l | l in ls :: IsLine(host, l)) && AreValues(ls, values)
    requires AreValues(ls[..n], found) && i <= |b| && b[i..] == Glue(ls[n..])
    ensures ReadPax(host, b, i, found) == Some(values)
    decreases |ls| - n
  {
    hide IsLine, Assigned, ReadPaxRecord, AreValues;
    if n == |ls| {
      assert ls[..n] == ls;
      ValuesAreUnique(ls, found, values);
    } else {
      var l := ls[n];
      var next := i + |l.bytes|;
      LineHasBytes(host, l);
      assert ls[n..][0] == l && ls[n..][1..] == ls[n + 1..];
      assert b[i..] == l.bytes + Glue(ls[n + 1..]);
      assert b[i..next] == b[i..][..|l.bytes|] == l.bytes && b[next..] == b[i..][|l.bytes|..];
      LineIsRead(host, b, i, l);
      KeysDiffer(ls, values);
      KeyIsNew(ls, n, found);
      OneMoreValue(ls[..n], found, l);
      assert ls[..n] + [l] == ls[..n + 1];
      LinesAreRead(host, b, ls, n + 1, next, Assigned(found, l.key, l.value), values);
    }
  }

  lemma KeysDiffer(ls: seq<Line>, values: Values)
    requires AreValues(ls, values)
    ensures forall j, k | 0 <= j < k < |ls| :: ls[j].key != ls[k].key || ls[j].key == PROTO
  {
  }

  lemma LineHasBytes(host: Host, l: Line)
    requires IsLine(host, l)
    ensures l.bytes != []
  {
  }

  lemma KeyIsNew(ls: seq<Line>, n: nat, found: Values)
    requires n < |ls| && AreValues(ls[..n], found)
    requires forall j, k | 0 <= j < k < |ls| :: ls[j].key != ls[k].key || ls[j].key == PROTO
    ensures ls[n].key !in found
  {
    assert forall k | 0 <= k < n :: ls[..n][k].key == ls[k].key;
  }

  lemma ValuesAreUnique(ls: seq<Line>, a: Values, b: Values)
    requires AreValues(ls, a) && AreValues(ls, b)
    ensures a == b
  {
    forall key | key in a ensures key in b && b[key] == a[key] {
      var k :| 0 <= k < |ls| && ls[k].key == key;
    }
    forall key | key in b ensures key in a {
      var k :| 0 <= k < |ls| && ls[k].key == key;
    }
  }

  lemma ValuesAre(host: Host, b: Bytes, values: Values)
    ensures ReadPax(host, b, 0, map[]) == Some(values) <==> HoldsValues(host, b, values)
  {
    hide IsLine, ReadPaxRecord;
    if ReadPax(host, b, 0, map[]) == Some(values) {
      assert Glue([]) == b[..0];
      ReadAreLines(host, b, 0, map[], []);
    }
    if HoldsValues(host, b, values) {
      var ls: seq<Line> :| Glue(ls) == b && (forall l | l in ls :: IsLine(host, l)) && AreValues(ls, values);
      assert b[0..] == b && ls[0..] == ls;
      LinesAreRead(host, b, ls, 0, 0, map[], values);
    }
  }

  // ---- Records of metadata and of files -------------------------------------------------------------

  /** What a record of metadata leaves to wait: PAX values for the path and the size, or a GNU long name. */
  ghost predicate Leaves(host: Host, kind: byte, data: Bytes, m: Metadata) {
    if kind == 'x' as int then
      HoldsValues(host, data, m.pax) && (forall key | key in m.pax :: key == PATH || key == SIZE) && m.longPath.None?
    else m.pax == map[] && m.longPath.Some? && HoldsText(host, data, m.longPath.value)
  }

  lemma MetadataIs(host: Host, kind: byte, data: Bytes, m: Metadata)
    ensures ReadMetadata(host, kind, data) == Some(m) <==> Leaves(host, kind, data, m)
  {
    hide ReadPax, HeaderText, HoldsValues, HoldsText;
    ValuesAre(host, data, m.pax);
    if m.longPath.Some? { TextIsHeld(host, data, m.longPath.value); }
  }

  /** The path that counts: of the PAX values, of the long name, or of the header, the first that is not empty. */
  ghost predicate IsFullPath(m: Metadata, header: Bytes, path: Bytes) {
    if PATH in m.pax && m.pax[PATH] != [] then path == m.pax[PATH]
    else if m.longPath.Some? && m.longPath.value != [] then path == m.longPath.value
    else path == header
  }

  /** The file of a record: it has its data and mode, and a path in the package, and a size that was given before is its own. */
  lemma FilesOfRecordsAre(host: Host, a: Bytes, before: seq<Record>, r: Record, f: File)
    ensures IsFileOf(host, a, before, r, f) <==>
              && f.data == Data(a, r) && f.mode == r.header.mode
              && IsFullPath(Waiting(host, a, before), r.header.path, PACKAGE + f.path) && GoodPath(host, f.path)
              && (SIZE in Waiting(host, a, before).pax ==>
                   var size := Waiting(host, a, before).pax[SIZE];
                   size != [] && JsonValues.AllDigits(size) && JsonValues.DigitsValue(size) == r.header.size)
  {
    hide GoodPath, Waiting, JsonValues.DigitsValue, JsonValues.AllDigits;
    var m := Waiting(host, a, before);
    var path := FullPath(m, r.header.path);
    InPackage(host, path, f.path);
    assert IsFullPath(m, r.header.path, PACKAGE + f.path) <==> path == PACKAGE + f.path;
  }

  lemma InPackage(host: Host, value: Bytes, path: Bytes)
    ensures PackagePath(host, value) == Some(path) <==> value == PACKAGE + path && GoodPath(host, path)
  {
    hide GoodPath;
    GoodPathIsShort(host, path);
    if PACKAGE <= value { assert value == PACKAGE + value[|PACKAGE|..]; }
    assert (PACKAGE + path)[|PACKAGE|..] == path;
  }

  lemma GoodPathIsShort(host: Host, path: Bytes)
    ensures GoodPath(host, path) ==> 0 < |path| <= MAX_PATH_BYTES
  {
  }

  // ---- Archives -------------------------------------------------------------------------------------

  /** These records tile the archive up to zeros, and these are their files, within the limits, with no metadata left over. */
  ghost predicate IsArchiveOf(host: Host, a: Bytes, rs: seq<Record>, end: nat, files: seq<File>) {
    && Tiles(host, a, rs, end) && end + 2 * BLOCK <= |a| && AllZero(a[end..])
    && FilesAre(host, a, rs, files) && WithinLimits(host, files)
    && UsesMetadata(host, a, rs) && Waiting(host, a, rs) == Metadata(map[], None)
  }

  /** The files of the first `n` records. */
  ghost function FilesUpTo(rs: seq<Record>, files: seq<File>, n: nat): (some: seq<File>)
    requires n <= |rs|
    decreases |rs| - n
  {
    if n == |rs| then files
    else
      var more := FilesUpTo(rs, files, n + 1);
      if IsFile(rs[n]) && more != [] then more[..|more| - 1] else more
  }

  lemma {:induction false} FilesUpToAre(host: Host, a: Bytes, rs: seq<Record>, files: seq<File>, n: nat)
    requires FilesAre(host, a, rs, files) && n <= |rs|
    ensures FilesAre(host, a, rs[..n], FilesUpTo(rs, files, n))
    ensures n < |rs| && IsFile(rs[n]) ==> FilesUpTo(rs, files, n + 1) != []
    decreases |rs| - n
  {
    hide IsFileOf;
    if n == |rs| {
      assert rs[..n] == rs;
    } else {
      FilesUpToAre(host, a, rs, files, n + 1);
      assert rs[..n + 1][..n] == rs[..n] && rs[..n + 1][n] == rs[n];
    }
  }

  lemma {:induction false} FilesUpToFit(host: Host, rs: seq<Record>, files: seq<File>, n: nat)
    requires n <= |rs| && WithinLimits(host, files)
    ensures WithinLimits(host, FilesUpTo(rs, files, n))
    decreases |rs| - n
  {
    hide GoodPath;
    if n < |rs| {
      FilesUpToFit(host, rs, files, n + 1);
      var more := FilesUpTo(rs, files, n + 1);
      if more != [] { FewerFit(host, more); }
    }
  }

  lemma FewerFit(host: Host, files: seq<File>)
    requires files != [] && WithinLimits(host, files)
    ensures WithinLimits(host, files[..|files| - 1])
    ensures TotalSize(files) == TotalSize(files[..|files| - 1]) + |files[|files| - 1].data|
    ensures !HasPath(files[..|files| - 1], files[|files| - 1].path)
  {
    hide GoodPath;
    var fewer := files[..|files| - 1];
    forall f | f in fewer ensures f in files && f.path != files[|files| - 1].path {
      var k :| 0 <= k < |fewer| && fewer[k] == f;
      assert files[k] == f;
    }
  }

  /** Where the loop stands before the `n`-th record. */
  ghost function Before(host: Host, a: Bytes, rs: seq<Record>, end: nat, files: seq<File>, n: nat): Progress
    requires n <= |rs|
  {
    var some := FilesUpTo(rs, files, n);
    Progress(if n < |rs| then rs[n].at else end, 0, Waiting(host, a, rs[..n]), some, TotalSize(some))
  }

  lemma BehindIs(host: Host, a: Bytes, rs: seq<Record>, end: nat, n: nat)
    requires Tiles(host, a, rs, end) && n < |rs|
    ensures Stands(host, a, rs[n]) && NextHeader(rs[n].at, rs[n].header.size) == if n + 1 < |rs| then rs[n + 1].at else end
  {
    hide Stands, NextHeader;
    assert Adjoins(rs, n, end);
  }

  /** The loop reads the `n`-th record and goes on to the next. */
  lemma RecordIsNext(host: Host, a: Bytes, rs: seq<Record>, end: nat, files: seq<File>, n: nat)
    requires IsArchiveOf(host, a, rs, end, files) && n < |rs|
    ensures rs[n].at + BLOCK <= |a| && !IsZeroBlock(a, rs[n].at)
    ensures ReadRecord(host, a, Before(host, a, rs, end, files, n)) == Some(Before(host, a, rs, end, files, n + 1))
  {
    hide WithinLimits, Tiles, Stands, NextHeader, FilesAre, Waiting, ReadMetadata, IsFileOf, AllZero, FilesUpTo, ReadRecord;
    var r, before := rs[n], rs[..n];
    BehindIs(host, a, rs, end, n);
    RecordStands(host, a, r);
    FilesUpToAre(host, a, rs, files, n);
    FilesUpToAre(host, a, rs, files, n + 1);
    FilesUpToFit(host, rs, files, n + 1);
    assert rs[..n + 1] == before + [r];
    WaitingBehind(host, a, before, r);
    var some, more := FilesUpTo(rs, files, n), FilesUpTo(rs, files, n + 1);
    if IsFile(r) {
      LastFile(host, a, rs, files, n);
      FewerFit(host, more);
      var f := more[|more| - 1];
      assert more == some + [f];
      FileIsRead(host, a, Before(host, a, rs, end, files, n), before, r, f);
    } else {
      OtherIsRead(host, a, Before(host, a, rs, end, files, n), before, r);
      NoFile(rs, files, n);
    }
  }

  lemma RecordStands(host: Host, a: Bytes, r: Record)
    requires Stands(host, a, r)
    ensures r.at + BLOCK + r.header.size <= |a| && !IsZeroBlock(a, r.at) && ReadHeader(host, a[r.at..r.at + BLOCK]) == Some(r.header)
    ensures IsFile(r) || r.header.kind == TYPE_EXTENDED || r.header.kind == TYPE_LONG_NAME
  {
  }

  lemma NoFile(rs: seq<Record>, files: seq<File>, n: nat)
    requires n < |rs| && !IsFile(rs[n])
    ensures FilesUpTo(rs, files, n) == FilesUpTo(rs, files, n + 1)
  {
  }

  lemma LastFile(host: Host, a: Bytes, rs: seq<Record>, files: seq<File>, n: nat)
    requires n < |rs| && IsFile(rs[n]) && FilesAre(host, a, rs[..n + 1], FilesUpTo(rs, files, n + 1))
    ensures var some, more := FilesUpTo(rs, files, n), FilesUpTo(rs, files, n + 1);
            && more != [] && some == more[..|more| - 1] && IsFileOf(host, a, rs[..n], rs[n], more[|more| - 1])
  {
    hide IsFileOf;
    assert rs[..n + 1][..n] == rs[..n] && rs[..n + 1][n] == rs[n];
  }

  lemma FileIsRead(host: Host, a: Bytes, p: Progress, before: seq<Record>, r: Record, f: File)
    requires p.offset == r.at && p.zeroBlocks == 0 && p.metadata == Waiting(host, a, before) && p.total == TotalSize(p.files)
    requires r.at + BLOCK + r.header.size <= |a| && ReadHeader(host, a[r.at..r.at + BLOCK]) == Some(r.header) && IsFile(r)
    requires IsFileOf(host, a, before, r, f) && !HasPath(p.files, f.path) && WithinLimits(host, p.files + [f])
    requires TotalSize(p.files + [f]) == TotalSize(p.files) + |f.data|
    ensures ReadRecord(host, a, p)
         == Some(Progress(NextHeader(r.at, r.header.size), 0, NO_METADATA, p.files + [f], TotalSize(p.files + [f])))
  {
    hide ReadHeader, NextHeader, Waiting, SizeAgrees, FullPath, PackagePath, GoodPath, ReadMetadata;
    assert f in p.files + [f];
  }

  lemma OtherIsRead(host: Host, a: Bytes, p: Progress, before: seq<Record>, r: Record)
    requires p.offset == r.at && p.zeroBlocks == 0 && p.metadata.IsEmpty()
    requires r.at + BLOCK + r.header.size <= |a| && ReadHeader(host, a[r.at..r.at + BLOCK]) == Some(r.header) && !IsFile(r)
    requires r.header.kind == TYPE_EXTENDED || r.header.kind == TYPE_LONG_NAME
    requires ReadMetadata(host, r.header.kind, Data(a, r)).Some?
    ensures ReadRecord(host, a, p)
         == Some(p.(offset := NextHeader(r.at, r.header.size), metadata := ReadMetadata(host, r.header.kind, Data(a, r)).value))
  {
    hide ReadHeader, NextHeader, ReadMetadata;
  }

  lemma {:induction false} WalkReads(host: Host, a: Bytes, rs: seq<Record>, end: nat, files: seq<File>, n: nat)
    requires IsArchiveOf(host, a, rs, end, files) && n <= |rs|
    ensures Walk(host, a, Before(host, a, rs, end, files, n))
         == Some(Before(host, a, rs, end, files, |rs|).(offset := end + 2 * BLOCK, zeroBlocks := 2))
    decreases |rs| - n
  {
    hide IsArchiveOf, ReadRecord, AllZero;
    var p := Before(host, a, rs, end, files, n);
    if n == |rs| {
      EndIsZero(host, a, rs, end, files);
      ZerosEnd(host, a, p);
    } else {
      RecordIsNext(host, a, rs, end, files, n);
      WalkReads(host, a, rs, end, files, n + 1);
    }
  }

  lemma EndIsZero(host: Host, a: Bytes, rs: seq<Record>, end: nat, files: seq<File>)
    requires IsArchiveOf(host, a, rs, end, files)
    ensures end + 2 * BLOCK <= |a| && AllZero(a[end..end + 2 * BLOCK]) && AllZero(a[end + 2 * BLOCK..])
  {
    hide Tiles, FilesAre, WithinLimits, UsesMetadata, Waiting;
    assert a[end..][..2 * BLOCK] == a[end..end + 2 * BLOCK] && a[end..][2 * BLOCK..] == a[end + 2 * BLOCK..];
  }

  /** An archive is accepted with these files exactly when they are the files of records that tile it. */
  lemma ArchivesAre(host: Host, a: Bytes, files: seq<File>)
    ensures Files(host, a) == Some(files) <==> exists rs, end :: IsArchiveOf(host, a, rs, end, files)
  {
    hide IsArchiveOf, Walk;
    if Files(host, a) == Some(files) {
      var rs, end := AcceptedArchiveIsTiled(host, a);
      ShowArchive(host, a, rs, end, files);
    }
    forall rs, end | IsArchiveOf(host, a, rs, end, files) ensures Files(host, a) == Some(files) {
      WalkReads(host, a, rs, end, files, 0);
      EndIsZero(host, a, rs, end, files);
      StartsAtZero(host, a, rs, end, files);
    }
  }

  lemma ShowArchive(host: Host, a: Bytes, rs: seq<Record>, end: nat, files: seq<File>)
    requires Tiles(host, a, rs, end) && end + 2 * BLOCK <= |a| && AllZero(a[end..])
    requires FilesAre(host, a, rs, files) && WithinLimits(host, files)
    requires UsesMetadata(host, a, rs) && Waiting(host, a, rs) == Metadata(map[], None)
    ensures IsArchiveOf(host, a, rs, end, files)
  {
  }

  lemma StartsAtZero(host: Host, a: Bytes, rs: seq<Record>, end: nat, files: seq<File>)
    requires IsArchiveOf(host, a, rs, end, files)
    ensures Before(host, a, rs, end, files, 0) == START
    ensures var last := Before(host, a, rs, end, files, |rs|); last.files == files && last.metadata.IsEmpty()
  {
    hide Stands, WithinLimits, Adjoins;
    FilesUpToAre(host, a, rs, files, 0);
    assert rs[..0] == [] && rs[..|rs|] == rs;
  }

  // ---- Names and numbers of the format ---------------------------------------------------------------

  ghost predicate Spells(b: Bytes, s: string) { |b| == |s| && forall k | 0 <= k < |b| :: b[k] == s[k] as int }

  lemma NamesAre()
    ensures Spells(PACKAGE, "package/") && Spells(PATH, "path") && Spells(SIZE, "size") && Spells(PROTO, "__proto__")
    ensures Spells([TYPE_FILE, TYPE_EXTENDED, TYPE_LONG_NAME, SLASH], "0xL/")
  {
  }

  ghost function Power(n: nat): nat { if n == 0 then 1 else 0x100 * Power(n - 1) }

  /** A number in base 256, by the weight of its first byte. */
  lemma {:induction false} FirstByteWeighsMost(first: byte, b: Bytes)
    ensures BigEndian([first] + b) == first * Power(|b|) + BigEndian(b)
    decreases |b|
  {
    var all := [first] + b;
    if b == [] {
      assert all[..0] == [];
    } else {
      assert all[..|b|] == [first] + b[..|b| - 1];
      FirstByteWeighsMost(first, b[..|b| - 1]);
    }
  }
}
