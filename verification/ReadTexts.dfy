/** What the lexical checks of the Read boundary mean for texts as strings of Unicode characters. */
module ReadTexts {
  import opened Bytes
  import opened JsonValues
  import opened JsonPrinter
  import opened ReadValues
  import opened ReadBudget

  /** A Unicode scalar value. */
  type Point = c: int | 0 <= c < 0x11_0000 && !(0xd800 <= c < 0xe000)

  /** Section 2.1 of RFC 2781. */
  function Units(c: Point): (t: Text)
    ensures t != []
  {
    if c < 0x1_0000 then [c]
    else [0xd800 + (c - 0x1_0000) / 0x400, 0xdc00 + (c - 0x1_0000) % 0x400]
  }

  /** Section 3 of RFC 3629. */
  function Octets(c: Point): Bytes {
    if c < 0x80 then [c]
    else if c < 0x800 then [0xc0 + c / 0x40, 0x80 + c % 0x40]
    else if c < 0x1_0000 then [0xe0 + c / 0x1000, 0x80 + c / 0x40 % 0x40, 0x80 + c % 0x40]
    else [0xf0 + c / 0x4_0000, 0x80 + c / 0x1000 % 0x40, 0x80 + c / 0x40 % 0x40, 0x80 + c % 0x40]
  }

  function Utf16(s: seq<Point>): Text { if s == [] then [] else Units(s[0]) + Utf16(s[1..]) }

  function Utf8(s: seq<Point>): Bytes { if s == [] then [] else Octets(s[0]) + Utf8(s[1..]) }

  // ---- Well-formed texts and their sizes ---------------------------------------------------------

  lemma {:induction false} Utf16IsWellFormed(s: seq<Point>)
    ensures ScalarText(Utf16(s))
  {
    if s != [] {
      Utf16IsWellFormed(s[1..]);
      assert Utf16(s)[|Units(s[0])|..] == Utf16(s[1..]);
    }
  }

  /** The characters of a well-formed text. */
  function Points(t: Text): (s: seq<Point>)
    requires ScalarText(t)
    ensures Utf16(s) == t
  {
    if t == [] then []
    else
      var high: int := t[0];
      var pair := IsHigh(t[0]);
      var c: Point := if pair then var low: int := t[1]; 0x1_0000 + (high - 0xd800) * 0x400 + (low - 0xdc00) else t[0];
      var rest := Points(if pair then t[2..] else t[1..]);
      assert Units(c) == if pair then t[..2] else t[..1];
      assert ([c] + rest)[1..] == rest;
      [c] + rest
  }

  /** Texts are well formed when they are the UTF-16 form of some characters. */
  lemma WellFormedTextsAre(t: Text)
    ensures ScalarText(t) <==> exists s :: t == Utf16(s)
  {
    forall s | t == Utf16(s) ensures ScalarText(t) {
      Utf16IsWellFormed(s);
    }
    if ScalarText(t) { assert t == Utf16(Points(t)); }
  }

  /** The bytes that are counted are those of UTF-8. */
  lemma {:induction false} SizeIsOfUtf8(s: seq<Point>)
    ensures Utf8Size(Utf16(s)) == |Utf8(s)|
  {
    if s != [] {
      SizeIsOfUtf8(s[1..]);
      SizeOfParts(Units(s[0]), Utf16(s[1..]));
      SizeOfPoint(s[0]);
    }
  }

  lemma SizeOfPoint(c: Point)
    ensures Utf8Size(Units(c)) == |Octets(c)|
  {
    var t := Units(c);
    if c < 0x1_0000 {
      assert t[1..] == [];
    } else {
      assert t[1..][1..] == [] && IsHigh(t[0]) && IsLow(t[1]);
      assert Utf8Size(t) == UnitSize(t[0]) + Utf8Size(t[1..]);
    }
  }

  // ---- Identifiers --------------------------------------------------------------------------------

  /** The C0 and C1 control characters, and DEL. */
  predicate IsControlPoint(c: Point) { c <= 0x1f || 0x7f <= c <= 0x9f }

  ghost predicate NoControls(s: seq<Point>) { forall k | 0 <= k < |s| :: !IsControlPoint(s[k]) }

  lemma {:induction false} ControlsAre(s: seq<Point>)
    ensures NoControls(s) <==> forall k | 0 <= k < |Utf16(s)| :: !IsControl(Utf16(s)[k])
  {
    if s != [] {
      ControlsAre(s[1..]);
      PointIsControl(s[0]);
      ControlsOfParts(Units(s[0]), Utf16(s[1..]));
      assert NoControls(s) <==> !IsControlPoint(s[0]) && NoControls(s[1..]) by {
        assert s == [s[0]] + s[1..];
      }
      assert Utf16(s) == Units(s[0]) + Utf16(s[1..]);
    }
  }

  lemma PointIsControl(c: Point)
    ensures !IsControlPoint(c) <==> forall k | 0 <= k < |Units(c)| :: !IsControl(Units(c)[k])
  {
    assert IsControlPoint(c) ==> IsControl(Units(c)[0]);
  }

  lemma ControlsOfParts(a: Text, b: Text)
    ensures (forall k | 0 <= k < |a + b| :: !IsControl((a + b)[k]))
            <==> (forall k | 0 <= k < |a| :: !IsControl(a[k])) && forall k | 0 <= k < |b| :: !IsControl(b[k])
  {
    assert forall k | 0 <= k < |a| :: a[k] == (a + b)[k];
    assert forall k | 0 <= k < |b| :: b[k] == (a + b)[|a| + k];
  }

  ghost predicate IsIdentifier(s: seq<Point>) { s != [] && |Utf8(s)| <= 256 && NoControls(s) }

  /** Identifiers are the strings of characters that are not empty, at most 256 bytes long and free of controls. */
  lemma IdentifiersAre(t: Text)
    ensures Identifier(t) <==> exists s :: t == Utf16(s) && IsIdentifier(s)
  {
    WellFormedTextsAre(t);
    forall s | t == Utf16(s) ensures Identifier(t) <==> IsIdentifier(s) {
      SizeIsOfUtf8(s);
      ControlsAre(s);
    }
  }

  // ---- Digests and snapshot ids --------------------------------------------------------------------

  ghost predicate SmallHex(t: Text, size: nat) {
    |t| == size && forall k | 0 <= k < size :: t[k] in Ascii("0123456789abcdef")
  }

  lemma HexUnit(u: Unit)
    ensures IsLowerHex(u) <==> u in Ascii("0123456789abcdef")
  {
    var t := Ascii("0123456789abcdef");
    if IsLowerHex(u) {
      assert t[if u < 0x3a then u - 0x30 else u - 0x57] == u;
    }
  }

  /** A digest is `sha256:` and 64 small hexadecimal digits. */
  lemma DigestsAre(t: Text)
    ensures IsDigest(t) <==> exists digits :: t == Ascii("sha256:") + digits && SmallHex(digits, 64)
  {
    hide Ascii;
    forall u: Unit ensures IsLowerHex(u) <==> u in Ascii("0123456789abcdef") { HexUnit(u); }
    DigestPrefix();
    if IsDigest(t) {
      assert t == Ascii("sha256:") + t[7..] && SmallHex(t[7..], 64);
    }
  }

  lemma DigestPrefix()
    ensures SHA256 == Ascii("sha256:") && |SHA256| == 7
  {
  }

  lemma SnapshotPrefix()
    ensures SNAPSHOT == Ascii("snapshot:") && |SNAPSHOT| == 9 && [HYPHEN] == Ascii("-")
  {
  }

  /** The groups of a UUID. */
  ghost predicate AreGroups(g: seq<Text>) {
    |g| == 5 && SmallHex(g[0], 8) && SmallHex(g[1], 4) && SmallHex(g[2], 4) && SmallHex(g[3], 4) && SmallHex(g[4], 12)
  }

  ghost function Hyphenated(g: seq<Text>): Text
    requires |g| == 5
  {
    g[0] + Ascii("-") + g[1] + Ascii("-") + g[2] + Ascii("-") + g[3] + Ascii("-") + g[4]
  }

  lemma UuidsAre(t: Text)
    ensures IsUuid(t) <==> exists g :: AreGroups(g) && t == Hyphenated(g)
  {
    hide Ascii;
    forall u: Unit ensures IsLowerHex(u) <==> u in Ascii("0123456789abcdef") { HexUnit(u); }
    SnapshotPrefix();
    forall g | AreGroups(g) && t == Hyphenated(g) ensures IsUuid(t) {
    }
    if IsUuid(t) {
      var g := [t[..8], t[9..13], t[14..18], t[19..23], t[24..]];
      assert t == Hyphenated(g);
    }
  }

  /** A snapshot id is `snapshot:` and a UUID, its groups of small hexadecimal digits joined by hyphens. */
  lemma SnapshotIdsAre(t: Text)
    ensures IsSnapshotId(t) <==> exists g :: AreGroups(g) && t == Ascii("snapshot:") + Hyphenated(g)
  {
    hide Ascii, IsUuid, SmallHex, Hyphenated;
    SnapshotPrefix();
    if SNAPSHOT <= t {
      UuidsAre(t[9..]);
      assert t == SNAPSHOT + t[9..];
    }
    forall g | |g| == 5 && t == Ascii("snapshot:") + Hyphenated(g) ensures SNAPSHOT <= t && t[9..] == Hyphenated(g) {
    }
  }

  // ---- Budgets --------------------------------------------------------------------------------------

  /** The budget of an envelope by its names, and that of an admission rejection. */
  lemma BudgetsAre(s: Sheet, members: Members, limit: nat, actual: Text)
    ensures s.AsValue() == Obj(s.members[Ascii("budget") := Obj(map[
              Ascii("limit_bytes") := Num(Integer(s.limit)), Ascii("required_bytes") := Str(s.required),
              Ascii("actual_bytes") := Str(s.actual)])])
    ensures AdmissionBody(members, limit, actual) == Obj(members[Ascii("control_budget") := Obj(map[
              Ascii("limit_bytes") := Num(Integer(limit)), Ascii("actual_bytes") := Str(actual)])])
  {
    assert BUDGET == Ascii("budget") && LIMIT_BYTES == Ascii("limit_bytes") && REQUIRED_BYTES == Ascii("required_bytes");
    assert ACTUAL_BYTES == Ascii("actual_bytes") && CONTROL_BUDGET == Ascii("control_budget");
  }
}
