/** The bytes of a signature bundle, letter by letter, and what hexadecimal texts are. */
module SignatureTexts {
  import opened Bytes
  import opened JsonValues
  import opened JsonPrinter
  import opened StableJson
  import opened ContentDigest
  import opened Signature

  // ---- Hexadecimal ----------------------------------------------------------------------------

  const HEX_DIGITS := "0123456789abcdef"

  /** Two digits for each byte, the higher one first. */
  ghost function Hex(bytes: seq<byte>): (t: Text)
    ensures |t| == 2 * |bytes|
  {
    if bytes == [] then [] else [HEX_DIGITS[bytes[0] / 16] as int, HEX_DIGITS[bytes[0] % 16] as int] + Hex(bytes[1..])
  }

  predicate IsHexDigit(u: Unit) { IsDigit(u) || 0x61 <= u <= 0x66 }

  lemma DigitIs(u: Unit) returns (n: nat)
    requires IsLowerHex([u], 1)
    ensures n < 16 && HEX_DIGITS[n] as int == u
  {
    var t: Text := [u];
    assert IsDigit(t[0]) || 0x61 <= t[0] <= 0x66;
    n := if IsDigit(u) then u - 0x30 else u - 0x57;
  }

  lemma DigitsAreHex(n: nat)
    requires n < 16
    ensures IsLowerHex([HEX_DIGITS[n] as int], 1)
  {
  }

  lemma HexInTurn(t: Text, n: nat)
    requires n >= 2 && |t| == n
    ensures IsLowerHex(t, n) <==> IsLowerHex([t[0]], 1) && IsLowerHex([t[1]], 1) && IsLowerHex(t[2..], n - 2)
  {
    var rest := t[2..];
    assert forall k | 0 <= k < |rest| :: rest[k] == t[k + 2];
    if IsLowerHex([t[0]], 1) && IsLowerHex([t[1]], 1) && IsLowerHex(rest, n - 2) {
      forall k | 0 <= k < |t| ensures IsDigit(t[k]) || 0x61 <= t[k] <= 0x66 {
        if k == 0 { assert [t[0]][0] == t[0]; } else if k == 1 { assert [t[1]][0] == t[1]; } else { assert rest[k - 2] == t[k]; }
      }
    }
  }

  lemma {:induction false} HexIsLower(bytes: seq<byte>)
    ensures IsLowerHex(Hex(bytes), 2 * |bytes|)
  {
    if bytes != [] {
      var t := Hex(bytes);
      HexIsLower(bytes[1..]);
      DigitsAreHex(bytes[0] / 16);
      DigitsAreHex(bytes[0] % 16);
      assert t[2..] == Hex(bytes[1..]);
      HexInTurn(t, |t|);
    }
  }

  lemma {:induction false} LowerIsHex(t: Text, n: nat) returns (bytes: seq<byte>)
    requires IsLowerHex(t, 2 * n)
    ensures |bytes| == n && t == Hex(bytes)
    decreases n
  {
    hide IsLowerHex;
    LengthOfHex(t, 2 * n);
    if n == 0 {
      bytes := [];
    } else {
      HexInTurn(t, 2 * n);
      var rest := LowerIsHex(t[2..], n - 1);
      var high := DigitIs(t[0]);
      var low := DigitIs(t[1]);
      bytes := [16 * high + low] + rest;
      assert bytes[1..] == rest && bytes[0] / 16 == high && bytes[0] % 16 == low && t == [t[0], t[1]] + t[2..];
    }
  }

  lemma LengthOfHex(t: Text, n: nat)
    requires IsLowerHex(t, n)
    ensures |t| == n
  {
  }

  /** A text is lower-case hexadecimal of some even length exactly when it is that of half as many bytes. */
  lemma HexTextsAre(t: Text, n: nat)
    ensures IsLowerHex(t, 2 * n) <==> exists bytes: seq<byte> :: |bytes| == n && t == Hex(bytes)
  {
    hide IsLowerHex, Hex;
    if IsLowerHex(t, 2 * n) { var bytes := LowerIsHex(t, n); }
    forall bytes: seq<byte> | |bytes| == n && t == Hex(bytes) ensures IsLowerHex(t, 2 * n) {
      HexIsLower(bytes);
    }
  }

  // ---- Bundles --------------------------------------------------------------------------------

  /** A text that is quoted as it is. */
  ghost predicate IsPlainText(t: Text) { forall k | 0 <= k < |t| :: 0x20 <= t[k] < 0x80 && t[k] != QUOTE && t[k] != BACKSLASH }

  lemma {:induction false} PlainIsEscaped(t: Text)
    requires IsPlainText(t)
    ensures Escaped(t) == t
  {
    if t != [] { PlainIsEscaped(t[1..]); }
  }

  /** A member of the bundle, with its name and its text in quotes. */
  ghost function Field(name: string, text: Text): Text
    requires IsSimpleName(name)
  {
    [QUOTE] + Ascii(name) + [QUOTE, COLON, QUOTE] + text + [QUOTE]
  }

  /** The canonical bytes: the six members by their names, with no space, and a line end. */
  ghost function CanonicalText(b: Bundle): Text {
    SimpleNames();
    [OPEN_BRACE] + Field("algorithm", b.algorithm) + [COMMA] + Field("content_digest", b.contentDigest) + [COMMA]
    + Field("profile", b.profile) + [COMMA] + Field("profile_version", b.profileVersion) + [COMMA]
    + Field("public_key", b.publicKey) + [COMMA] + Field("signature", b.signature) + [CLOSE_BRACE]
  }

  lemma {:induction false} NeighboursAscend(keys: seq<Text>)
    requires forall k | 0 <= k < |keys| - 1 :: Before(keys[k], keys[k + 1])
    ensures Ascending(keys)
    decreases |keys|
  {
    hide Before;
    if |keys| > 1 {
      var rest := keys[1..];
      NeighboursAscend(rest);
      forall j, k | 0 <= j < k < |keys| ensures Before(keys[j], keys[k]) {
        if j > 0 {
          assert Before(rest[j - 1], rest[k - 1]);
        } else if k > 1 {
          assert Before(rest[0], rest[k - 1]) && Before(keys[0], keys[1]);
          BeforeTransitive(keys[0], keys[1], keys[k]);
        }
      }
    }
  }

  lemma SmallerFirst(a: Text, b: Text)
    requires a != [] && b != [] && a[0] < b[0]
    ensures Before(a, b)
  {
  }

  lemma {:induction false} SmallerBehind(front: Text, a: Text, b: Text)
    requires Before(a, b)
    ensures Before(front + a, front + b)
  {
    if front == [] {
      assert front + a == a && front + b == b;
    } else {
      assert (front + a)[1..] == front[1..] + a && (front + b)[1..] == front[1..] + b;
      SmallerBehind(front[1..], a, b);
    }
  }

  lemma FieldsAscend()
    ensures Ascending(FieldList())
  {
    hide Before;
    SmallerFirst(ALGORITHM_FIELD, DIGEST_FIELD);
    SmallerFirst(DIGEST_FIELD, PROFILE_FIELD);
    SmallerFirst(KEY_FIELD, SIGNATURE_FIELD);
    ProfileFirst();
    VersionFirst();
    NeighboursAscend(FieldList());
  }

  lemma ProfileFirst()
    ensures Before(PROFILE_FIELD, VERSION_FIELD)
  {
    hide Before;
    EmptyFirst(Ascii("_version"));
    SmallerBehind(PROFILE_FIELD, [], Ascii("_version"));
    assert PROFILE_FIELD + [] == PROFILE_FIELD && PROFILE_FIELD + Ascii("_version") == VERSION_FIELD;
  }

  lemma VersionFirst()
    ensures Before(VERSION_FIELD, KEY_FIELD)
  {
    hide Before;
    var p, r, u := Ascii("p"), Ascii("rofile_version"), Ascii("ublic_key");
    SmallerFirst(r, u);
    SmallerBehind(p, r, u);
    assert p + r == VERSION_FIELD && p + u == KEY_FIELD;
  }

  lemma EmptyFirst(b: Text)
    requires b != []
    ensures Before([], b)
  {
  }

  ghost predicate IsPlainBundle(b: Bundle) {
    && IsPlainText(b.algorithm) && IsPlainText(b.contentDigest) && IsPlainText(b.profile) && IsPlainText(b.profileVersion)
    && IsPlainText(b.publicKey) && IsPlainText(b.signature)
  }

  predicate IsSimpleName(name: string) {
    forall k | 0 <= k < |name| :: ' ' <= name[k] < '\U{0080}' && name[k] != '"' && name[k] != '\\'
  }

  lemma SimpleNames()
    ensures IsSimpleName("algorithm") && IsSimpleName("content_digest") && IsSimpleName("profile")
    ensures IsSimpleName("profile_version") && IsSimpleName("public_key") && IsSimpleName("signature")
  {
  }

  lemma MemberIs(name: string, text: Text)
    requires IsSimpleName(name) && IsPlainText(text)
    ensures Quoted(Ascii(name)) + [COLON] + Print(Str(text)) == Field(name, text)
  {
    PlainIsEscaped(Ascii(name));
    PlainIsEscaped(text);
  }

  ghost function Fields(b: Bundle): (texts: seq<Text>)
    ensures |texts| == 6
  {
    SimpleNames();
    [Field("algorithm", b.algorithm), Field("content_digest", b.contentDigest), Field("profile", b.profile),
     Field("profile_version", b.profileVersion), Field("public_key", b.publicKey), Field("signature", b.signature)]
  }

  lemma BundleKeys(b: Bundle)
    ensures Ordered(BundleValue(b).members.Keys) == FieldList()
  {
    FieldsAscend();
    OrderedIs(BundleValue(b).members.Keys, FieldList());
  }

  lemma MembersAre(b: Bundle)
    requires IsPlainBundle(b) && Plain(BundleValue(b))
    ensures MemberTexts(BundleValue(b)) == Fields(b)
  {
    hide Ordered, Field, Quoted, Print, IsPlainText, Plain, BundleValue, FieldList, IsSimpleName;
    BundleKeys(b);
    SimpleNames();
    var v := BundleValue(b);
    PlainTexts(b);
    FieldListIs();
    hide Ascii;
    MemberIs("algorithm", b.algorithm);
    MemberIs("content_digest", b.contentDigest);
    MemberIs("profile", b.profile);
    MemberIs("profile_version", b.profileVersion);
    MemberIs("public_key", b.publicKey);
    MemberIs("signature", b.signature);
    forall k | 0 <= k < 6 ensures MemberTexts(v)[k] == Fields(b)[k] {
      assert k == 0 || k == 1 || k == 2 || k == 3 || k == 4 || k == 5;
    }
  }

  lemma FieldListIs()
    ensures var l := FieldList();
            && |l| == 6 && l[0] == ALGORITHM_FIELD == Ascii("algorithm") && l[1] == DIGEST_FIELD == Ascii("content_digest")
            && l[2] == PROFILE_FIELD == Ascii("profile") && l[3] == VERSION_FIELD == Ascii("profile_version")
            && l[4] == KEY_FIELD == Ascii("public_key") && l[5] == SIGNATURE_FIELD == Ascii("signature")
  {
  }

  lemma PlainTexts(b: Bundle)
    ensures var v := BundleValue(b);
            && v.Obj? && v.members.Keys == FIELDS
            && v.members[ALGORITHM_FIELD] == Str(b.algorithm) && v.members[DIGEST_FIELD] == Str(b.contentDigest)
            && v.members[PROFILE_FIELD] == Str(b.profile) && v.members[VERSION_FIELD] == Str(b.profileVersion)
            && v.members[KEY_FIELD] == Str(b.publicKey) && v.members[SIGNATURE_FIELD] == Str(b.signature)
  {
    FieldsDiffer();
  }

  lemma JoinedSix(texts: seq<Text>)
    requires |texts| == 6
    ensures [OPEN_BRACE] + Joined(texts) + [CLOSE_BRACE]
         == [OPEN_BRACE] + texts[0] + [COMMA] + texts[1] + [COMMA] + texts[2] + [COMMA] + texts[3] + [COMMA] + texts[4] + [COMMA]
            + texts[5] + [CLOSE_BRACE]
  {
    assert Joined(texts[5..]) == texts[5];
    assert texts[4..][1..] == texts[5..] && Joined(texts[4..]) == texts[4] + [COMMA] + texts[5];
    assert texts[3..][1..] == texts[4..] && Joined(texts[3..]) == texts[3] + [COMMA] + Joined(texts[4..]);
    assert texts[2..][1..] == texts[3..] && Joined(texts[2..]) == texts[2] + [COMMA] + Joined(texts[3..]);
    assert texts[1..][1..] == texts[2..] && Joined(texts[1..]) == texts[1] + [COMMA] + Joined(texts[2..]);
  }

  /** A bundle is serialized to its canonical text and a line end. */
  lemma BundlesAreWritten(h: Host, b: Bundle)
    requires IsBundle(b)
    ensures Signature.Serialize(h, b) == h.encode(CanonicalText(b) + [NEWLINE])
  {
    hide Plain, Scalar, StableStringify, StableText, Unordered, Distinct, BundleObject, CanonicalText, Fields;
    BundleIsAscii(b);
    BundleIsPlain(b);
    BundleObjectIs(b);
    StableIsOfTheValue(h.number, BundleObject(b));
    StableIsCanonical(h.number, BundleValue(b));
    TextOfMembers(b);
  }

  lemma TextOfMembers(b: Bundle)
    requires IsPlainBundle(b) && Plain(BundleValue(b))
    ensures Print(BundleValue(b)) == CanonicalText(b)
  {
    hide MemberTexts, Field, Plain, Joined;
    MembersAre(b);
    JoinedSix(Fields(b));
  }

  lemma BundleIsAscii(b: Bundle)
    requires IsBundle(b)
    ensures IsPlainBundle(b)
    ensures IsAscii(b.algorithm) && IsAscii(b.contentDigest) && IsAscii(b.profile) && IsAscii(b.profileVersion)
    ensures IsAscii(b.publicKey) && IsAscii(b.signature)
  {
    forall k | 0 <= k < |b.contentDigest| ensures 0x20 <= b.contentDigest[k] < 0x80 && b.contentDigest[k] !in {QUOTE, BACKSLASH} {
      if k >= |DIGEST_PREFIX| { assert b.contentDigest[k] == b.contentDigest[|DIGEST_PREFIX|..][k - |DIGEST_PREFIX|]; }
    }
  }
}
