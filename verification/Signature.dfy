/** Signature bundles over the content digest, and their place among the entries that they sign. */
module Signature {
  import opened Bytes
  import opened JsonValues
  import opened JsonParser
  import opened JsonGrammar
  import opened JsonPrinter
  import opened StableJson
  import opened ContentDigest
  import opened DigestConfusion
  import JsonRoundTrip

  const PROFILE: Text := Ascii("kdsig.ed25519")
  const PROFILE_VERSION: Text := Ascii("0.1.0")
  const ALGORITHM: Text := Ascii("ed25519")

  const ALGORITHM_FIELD: Text := Ascii("algorithm")
  const DIGEST_FIELD: Text := Ascii("content_digest")
  const PROFILE_FIELD: Text := Ascii("profile")
  const VERSION_FIELD: Text := Ascii("profile_version")
  const KEY_FIELD: Text := Ascii("public_key")
  const SIGNATURE_FIELD: Text := Ascii("signature")

  datatype Code = SignatureFailed | KeyInvalid | ProfileUnsupported | VersionUnsupported

  datatype Result<+T> = Good(value: T) | Bad(code: Code)

  datatype Bundle = Bundle(
    algorithm: Text, contentDigest: Text, profile: Text, profileVersion: Text, publicKey: Text, signature: Text)

  /** Ed25519 on keys and signatures in hexadecimal. */
  datatype Suite = Suite(publicKey: Text -> Text, sign: (Text, Text) -> Text, verify: (Text, Text, Text) -> bool)

  predicate IsLowerHex(t: Text, length: nat) {
    |t| == length && forall k | 0 <= k < |t| :: IsDigit(t[k]) || 0x61 <= t[k] <= 0x66
  }

  predicate IsDigest(t: Text) { DIGEST_PREFIX <= t && IsLowerHex(t[|DIGEST_PREFIX|..], 64) }

  ghost predicate Lawful(s: Suite) {
    forall seed, payload | IsLowerHex(seed, 64) ::
      && IsLowerHex(s.publicKey(seed), 64) && IsLowerHex(s.sign(seed, payload), 128)
      && s.verify(s.publicKey(seed), payload, s.sign(seed, payload))
  }

  /**
   Only the owner of a key makes signatures that verify under it, and one of each payload: a
   key under which one verifies is that of a seed, and what verifies is what that seed signs.
   */
  ghost predicate OnlyOwnersSign(s: Suite) {
    && (forall key, payload, x | s.verify(key, payload, x) :: exists seed | IsLowerHex(seed, 64) :: key == s.publicKey(seed))
    && (forall seed, payload, x | IsLowerHex(seed, 64) && s.verify(s.publicKey(seed), payload, x) :: x == s.sign(seed, payload))
  }

  /** A SHA-256 in lower-case hexadecimal, and a `JSON.parse` that reads JSON. */
  ghost predicate ReadsBundles(h: Host) { ReadsJson(h) && forall t :: IsLowerHex(h.sha256(t), 64) }

  function ZeroText(n: nat): (t: Text)
    ensures IsLowerHex(t, n)
  {
    seq(n, _ => ZERO)
  }

  /** There is such a host, and there is such a suite, in which two payloads have different signatures. */
  lemma LawsCanBeMet(p: Text, q: Text) returns (s: Suite, h: Host)
    ensures Lawful(s) && OnlyOwnersSign(s) && ReadsBundles(h)
    ensures forall seed | p != q :: s.sign(seed, p) != s.sign(seed, q)
  {
    var sign := (_: Text, payload: Text) => if payload == p then OneText(128) else ZeroText(128);
    s := Suite(
      (seed: Text) => seed, sign, (key: Text, payload: Text, x: Text) => IsLowerHex(key, 64) && x == sign(key, payload));
    forall key, payload, x | s.verify(key, payload, x) ensures exists seed | IsLowerHex(seed, 64) :: key == s.publicKey(seed) {
      assert key == s.publicKey(key);
    }
    assert OneText(128)[0] != ZeroText(128)[0];
    h := ReadingHost((_: Text) => ZeroText(64));
  }

  function OneText(n: nat): (t: Text)
    ensures IsLowerHex(t, n)
  {
    seq(n, _ => ONE)
  }

  const ONE: Unit := 0x31

  function SigningPayload(digest: Text): Text { PROFILE + [COLON] + PROFILE_VERSION + [COLON] + digest }

  // ---- Bundles -----------------------------------------------------------------------------

  /** The bundle as it is signed, with its members in the order of the source. */
  function BundleObject(b: Bundle): JsTree {
    JsObject([
      Property(ALGORITHM_FIELD, JsString(b.algorithm)), Property(DIGEST_FIELD, JsString(b.contentDigest)),
      Property(PROFILE_FIELD, JsString(b.profile)), Property(VERSION_FIELD, JsString(b.profileVersion)),
      Property(KEY_FIELD, JsString(b.publicKey)), Property(SIGNATURE_FIELD, JsString(b.signature))])
  }

  function BundleValue(b: Bundle): Value {
    Obj(map[ALGORITHM_FIELD := Str(b.algorithm), DIGEST_FIELD := Str(b.contentDigest), PROFILE_FIELD := Str(b.profile),
            VERSION_FIELD := Str(b.profileVersion), KEY_FIELD := Str(b.publicKey), SIGNATURE_FIELD := Str(b.signature)])
  }

  /** `stableStringify`, and a line end. */
  function Serialize(h: Host, b: Bundle): Text { h.encode(StableStringify(h.number, BundleObject(b)) + [NEWLINE]) }

  const FIELDS: set<Text> := {ALGORITHM_FIELD, DIGEST_FIELD, PROFILE_FIELD, VERSION_FIELD, KEY_FIELD, SIGNATURE_FIELD}

  predicate HasText(m: map<Text, Value>, name: Text) { name in m && m[name].Str? }

  function TextAt(m: map<Text, Value>, name: Text): Text { if HasText(m, name) then m[name].text else [] }

  function BundleOf(m: map<Text, Value>): Bundle {
    Bundle(TextAt(m, ALGORITHM_FIELD), TextAt(m, DIGEST_FIELD), TextAt(m, PROFILE_FIELD), TextAt(m, VERSION_FIELD),
           TextAt(m, KEY_FIELD), TextAt(m, SIGNATURE_FIELD))
  }

  function CheckBundle(b: Bundle): Result<Bundle> {
    if b.profile != PROFILE then Bad(ProfileUnsupported)
    else if b.profileVersion != PROFILE_VERSION then Bad(VersionUnsupported)
    else if b.algorithm != ALGORITHM then Bad(ProfileUnsupported)
    else if !IsDigest(b.contentDigest) || !IsLowerHex(b.publicKey, 64) || !IsLowerHex(b.signature, 128) then Bad(SignatureFailed)
    else Good(b)
  }

  function Parse(h: Host, bytes: Text): Result<Bundle> {
    var v := h.parse(bytes);
    if v.None? || !v.value.JsObject? then Bad(SignatureFailed)
    else
      var m := Unordered(v.value).members;
      if !(forall f | f in FIELDS :: HasText(m, f)) || !(m.Keys <= FIELDS) then Bad(SignatureFailed)
      else CheckBundle(BundleOf(m))
  }

  function Sign(s: Suite, digest: Text, seed: Text): Result<Bundle> {
    if !IsDigest(digest) then Bad(SignatureFailed)
    else if !IsLowerHex(seed, 64) then Bad(KeyInvalid)
    else
      Good(Bundle(ALGORITHM, digest, PROFILE, PROFILE_VERSION, s.publicKey(seed), s.sign(seed, SigningPayload(digest))))
  }

  function LowerText(t: Text): Text { seq(|t|, k requires 0 <= k < |t| => Lower(t[k])) }

  /** The bundle that was verified, from its bytes. */
  function Verify(s: Suite, h: Host, bytes: Text, digest: Text, expectedKey: Option<Text>): Result<Bundle> {
    var parsed := Parse(h, bytes);
    if parsed.Bad? then parsed
    else
      var b := parsed.value;
      if !IsDigest(digest) || b.contentDigest != digest then Bad(SignatureFailed)
      else if expectedKey.Some? && LowerText(expectedKey.value) != b.publicKey then Bad(SignatureFailed)
      else if !s.verify(b.publicKey, SigningPayload(digest), b.signature) then Bad(SignatureFailed)
      else Good(b)
  }

  // ---- Bundles are read back ------------------------------------------------------------------

  lemma FieldsDiffer()
    ensures ALGORITHM_FIELD != DIGEST_FIELD && ALGORITHM_FIELD != PROFILE_FIELD && ALGORITHM_FIELD != VERSION_FIELD
    ensures ALGORITHM_FIELD != KEY_FIELD && ALGORITHM_FIELD != SIGNATURE_FIELD && DIGEST_FIELD != PROFILE_FIELD
    ensures DIGEST_FIELD != VERSION_FIELD && DIGEST_FIELD != KEY_FIELD && DIGEST_FIELD != SIGNATURE_FIELD
    ensures PROFILE_FIELD != VERSION_FIELD && PROFILE_FIELD != KEY_FIELD && PROFILE_FIELD != SIGNATURE_FIELD
    ensures VERSION_FIELD != KEY_FIELD && VERSION_FIELD != SIGNATURE_FIELD && KEY_FIELD != SIGNATURE_FIELD
  {
    assert |ALGORITHM_FIELD| == 9 && |DIGEST_FIELD| == 14 && |PROFILE_FIELD| == 7 && |VERSION_FIELD| == 15;
    assert |KEY_FIELD| == 10 && |SIGNATURE_FIELD| == 9;
    assert ALGORITHM_FIELD[0] == 'a' as int && SIGNATURE_FIELD[0] == 's' as int;
  }

  lemma BundleIsRead(b: Bundle)
    ensures BundleOf(BundleValue(b).members) == b
    ensures (forall f | f in FIELDS :: HasText(BundleValue(b).members, f)) && BundleValue(b).members.Keys <= FIELDS
  {
    FieldsDiffer();
  }

  predicate IsAscii(t: Text) { forall k | 0 <= k < |t| :: t[k] < 0x80 }

  lemma BundleIsPlain(b: Bundle)
    requires IsAscii(b.algorithm) && IsAscii(b.contentDigest) && IsAscii(b.profile) && IsAscii(b.profileVersion)
    requires IsAscii(b.publicKey) && IsAscii(b.signature)
    ensures Plain(BundleValue(b)) && Scalar(BundleValue(b))
  {
    hide ScalarText;
    FieldsDiffer();
    forall t | t in {b.algorithm, b.contentDigest, b.profile, b.profileVersion, b.publicKey, b.signature}
      ensures ScalarText(t)
    {
      AsciiIsScalar(t);
    }
    FieldsAreScalar();
  }

  lemma FieldsAreScalar()
    ensures forall f | f in FIELDS :: ScalarText(f)
  {
    hide ScalarText;
    AsciiIsScalar(ALGORITHM_FIELD);
    AsciiIsScalar(DIGEST_FIELD);
    AsciiIsScalar(PROFILE_FIELD);
    AsciiIsScalar(VERSION_FIELD);
    AsciiIsScalar(KEY_FIELD);
    AsciiIsScalar(SIGNATURE_FIELD);
  }

  /** The fields in the order of the source, with their texts. */
  function FieldList(): seq<Text> {
    [ALGORITHM_FIELD, DIGEST_FIELD, PROFILE_FIELD, VERSION_FIELD, KEY_FIELD, SIGNATURE_FIELD]
  }

  lemma BundleMembers(b: Bundle)
    ensures var members := BundleObject(b).members;
            && Names(members) == FieldList()
            && forall k | 0 <= k < |members| ::
                 members[k].value.JsString? && members[k].value.text == TextAt(BundleValue(b).members, members[k].name)
  {
    FieldsDiffer();
    assert Names(BundleObject(b).members) == FieldList();
  }

  lemma FieldsAreOnce()
    ensures forall j, k | 0 <= j < k < 6 :: FieldList()[j] != FieldList()[k]
  {
    FieldsDiffer();
  }

  lemma NamesAreOnce(members: seq<Property>)
    requires Names(members) == FieldList()
    ensures NamedOnce(members)
  {
    hide FieldList;
    FieldsAreOnce();
    FieldCount();
    assert |members| == 6;
    assert forall k | 0 <= k < 6 :: members[k].name == Names(members)[k];
  }

  lemma FieldCount()
    ensures |FieldList()| == 6
  {
  }

  lemma FieldsAreListed(members: seq<Property>)
    requires Names(members) == FieldList()
    ensures NameSet(members) == FIELDS
  {
    assert |members| == 6;
    assert forall k | 0 <= k < 6 :: members[k].name == FieldList()[k] by {
      assert forall k | 0 <= k < 6 :: members[k].name == Names(members)[k];
    }
    assert forall k | 0 <= k < 6 :: members[k].name in NameSet(members);
    forall f | f in FIELDS ensures f in NameSet(members) {
      var l := FieldList();
      assert f == l[0] || f == l[1] || f == l[2] || f == l[3] || f == l[4] || f == l[5];
    }
  }

  lemma {:induction false} BundleObjectIs(b: Bundle)
    ensures Distinct(BundleObject(b)) && Unordered(BundleObject(b)) == BundleValue(b)
  {
    hide BundleObject, BundleValue, FieldList, AsMap, NameSet, Names;
    BundleShapes(b);
    var members, values := BundleObject(b).members, BundleValue(b).members;
    BundleMembers(b);
    FieldsAreListed(members);
    NamesAreOnce(members);
    BundleIsRead(b);
    forall k | 0 <= k < |members| ensures members[k].name in values && values[members[k].name] == Unordered(members[k].value) {
      MemberOfMap(members, k);
      KeysOfMap(members);
      assert HasText(values, members[k].name);
    }
    AsMapIs(members, values);
    ObjectIs(members);
  }

  lemma BundleShapes(b: Bundle)
    ensures BundleObject(b).JsObject? && BundleValue(b).Obj?
  {
  }

  lemma CheckedIsTheBundle(b: Bundle)
    requires CheckBundle(b).Good?
    ensures CheckBundle(b) == Good(b)
  {
  }

  /** A bundle that passes the checks is parsed back from what it is serialized to. */
  lemma SerializedIsParsed(h: Host, b: Bundle)
    requires ReadsJson(h) && CheckBundle(b).Good?
    ensures Parse(h, Serialize(h, b)) == Good(b)
  {
    hide Plain, Scalar, BundleValue, BundleObject, BundleOf, HasText, Unordered, Distinct, StableStringify, StableText, Print;
    hide CheckBundle, ReadsJson;
    PartsAreAscii(b);
    BundleIsPlain(b);
    BundleIsRead(b);
    BundleValueIsObject(b);
    BundleObjectIs(b);
    StableIsOfTheValue(h.number, BundleObject(b));
    StableIsCanonical(h.number, BundleValue(b));
    PrintedIsParsed(h, BundleValue(b), [NEWLINE]);
    CheckedIsTheBundle(b);
    ObjectsAreObjects(h.parse(Serialize(h, b)).value);
  }

  lemma ObjectsAreObjects(v: JsTree)
    ensures v.JsObject? <==> Unordered(v).Obj?
  {
  }

  lemma BundleValueIsObject(b: Bundle)
    ensures BundleValue(b).Obj?
  {
  }

  lemma PartsAreAscii(b: Bundle)
    requires CheckBundle(b).Good?
    ensures IsAscii(b.algorithm) && IsAscii(b.contentDigest) && IsAscii(b.profile) && IsAscii(b.profileVersion)
    ensures IsAscii(b.publicKey) && IsAscii(b.signature)
  {
    forall k | 0 <= k < |b.contentDigest| ensures b.contentDigest[k] < 0x80 {
      if k >= |DIGEST_PREFIX| { assert b.contentDigest[k] == b.contentDigest[|DIGEST_PREFIX|..][k - |DIGEST_PREFIX|]; }
    }
  }

  // ---- Signing an asset -----------------------------------------------------------------------

  /**
   A bundle signed over an asset's digest verifies after it was added to the asset, which
   keeps its digest: unpinned, and under its own key in whatever letter case, but no other.
   */
  lemma SignedAssetVerifies(s: Suite, h: Host, entries: Entries, seed: Text)
    requires Lawful(s) && ReadsBundles(h) && IsLowerHex(seed, 64) && Digest(h, entries).Some?
    ensures var digest := Digest(h, entries).value;
            var b := Sign(s, digest, seed);
            && b.Good?
            && var signed := entries[SIGNATURE_NAME := Serialize(h, b.value)];
               && Digest(h, signed) == Some(digest)
               && Verify(s, h, signed[SIGNATURE_NAME], digest, None) == Good(b.value)
               && forall key ::
                    Verify(s, h, signed[SIGNATURE_NAME], digest, Some(key))
                    == if LowerText(key) == s.publicKey(seed) then Good(b.value) else Bad(SignatureFailed)
  {
    hide Serialize, Parse, IsExcluded, Digest;
    var digest := Digest(h, entries).value;
    DigestsAreDigests(h, entries);
    var b := Sign(s, digest, seed).value;
    assert CheckBundle(b).Good?;
    SerializedIsParsed(h, b);
    SignatureIsExcluded();
    ExcludedEntriesDoNotCount(h, entries, SIGNATURE_NAME, Serialize(h, b));
  }

  lemma SignatureIsExcluded()
    ensures IsExcluded(SIGNATURE_NAME)
  {
  }

  lemma DigestsAreDigests(h: Host, entries: Entries)
    requires ReadsBundles(h) && Digest(h, entries).Some?
    ensures IsDigest(Digest(h, entries).value)
  {
    hide Parts, Lines, Readable, Canonical;
    var digest := Digest(h, entries).value;
    assert digest[|DIGEST_PREFIX|..] == h.sha256(Lines(Parts(h, Canonical(h, entries))));
  }

  // ---- What is refused --------------------------------------------------------------------------

  /** What a bundle's members may be: the formats of the one supported profile. */
  ghost predicate IsBundle(b: Bundle) {
    && b.profile == Ascii("kdsig.ed25519") && b.profileVersion == Ascii("0.1.0") && b.algorithm == Ascii("ed25519")
    && IsDigest(b.contentDigest) && IsLowerHex(b.publicKey, 64) && IsLowerHex(b.signature, 128)
  }

  /** Bytes are parsed exactly when they are JSON of an object with the six members of a bundle, and no other. */
  lemma ParsedExactly(h: Host, bytes: Text, b: Bundle)
    ensures Parse(h, bytes) == Good(b) <==>
              && h.parse(bytes).Some? && Unordered(h.parse(bytes).value) == BundleValue(b) && IsBundle(b)
  {
    hide Unordered, IsDigest;
    BundleIsRead(b);
    if h.parse(bytes).Some? {
      ObjectsAreObjects(h.parse(bytes).value);
      BundleValueIsObject(b);
      if Parse(h, bytes) == Good(b) { FieldsMakeTheBundle(Unordered(h.parse(bytes).value).members); }
    }
  }

  /** Six texts under the six names are a bundle. */
  lemma FieldsMakeTheBundle(m: map<Text, Value>)
    requires (forall f | f in FIELDS :: HasText(m, f)) && m.Keys <= FIELDS
    ensures BundleValue(BundleOf(m)) == Obj(m)
  {
    FieldsDiffer();
    var n := BundleValue(BundleOf(m)).members;
    assert m.Keys == FIELDS == n.Keys;
    assert forall f | f in FIELDS :: n[f] == m[f];
    assert n == m;
  }

  /** Bytes that are six texts are refused with a code of their own for another profile, or another version of this one. */
  lemma ParseCodes(h: Host, bytes: Text, b: Bundle)
    requires h.parse(bytes).Some? && Unordered(h.parse(bytes).value) == BundleValue(b)
    ensures Parse(h, bytes) == Bad(ProfileUnsupported) <==>
              b.profile != Ascii("kdsig.ed25519") || (b.profileVersion == Ascii("0.1.0") && b.algorithm != Ascii("ed25519"))
    ensures Parse(h, bytes) == Bad(VersionUnsupported) <==> b.profile == Ascii("kdsig.ed25519") && b.profileVersion != Ascii("0.1.0")
    ensures Parse(h, bytes) != Bad(KeyInvalid)
  {
    hide Unordered, IsDigest;
    ObjectsAreObjects(h.parse(bytes).value);
    BundleValueIsObject(b);
    BundleIsRead(b);
  }

  /** What is signed: the profile, its version and the digest; one of another digest is another text. */
  lemma PayloadBindsTheDigest(digest: Text, other: Text)
    ensures SigningPayload(digest) == Ascii("kdsig.ed25519:0.1.0:") + digest
    ensures SigningPayload(digest) == SigningPayload(other) ==> digest == other
  {
    var front := Ascii("kdsig.ed25519:0.1.0:");
    assert PROFILE + [COLON] + PROFILE_VERSION + [COLON] == front;
    assert (front + digest)[|front|..] == digest && (front + other)[|front|..] == other;
  }

  /** The bundle that the owner of a seed makes for a digest. */
  ghost predicate IsSigned(s: Suite, digest: Text, seed: Text, b: Bundle) {
    && IsDigest(digest) && IsLowerHex(seed, 64) && b.contentDigest == digest && b.publicKey == s.publicKey(seed)
    && b.signature == s.sign(seed, SigningPayload(digest)) && IsBundle(b)
  }

  lemma SignsExactly(s: Suite, digest: Text, seed: Text, b: Bundle)
    requires Lawful(s)
    ensures Sign(s, digest, seed) == Good(b) <==> IsSigned(s, digest, seed, b)
  {
    hide IsDigest;
  }

  /**
   Bytes verify for a digest exactly when they are JSON of the bundle that the owner of some
   seed makes for this digest, with the pinned key, in whatever letter case, if one is pinned.
   */
  lemma VerifiesExactly(s: Suite, h: Host, bytes: Text, digest: Text, expectedKey: Option<Text>, b: Bundle)
    requires Lawful(s) && OnlyOwnersSign(s)
    ensures Verify(s, h, bytes, digest, expectedKey) == Good(b) <==>
              && h.parse(bytes).Some? && Unordered(h.parse(bytes).value) == BundleValue(b)
              && (exists seed :: IsSigned(s, digest, seed, b))
              && (expectedKey.Some? ==> LowerText(expectedKey.value) == b.publicKey)
  {
    hide Parse, Unordered, BundleValue, IsDigest, SigningPayload;
    ParsedExactly(h, bytes, b);
    if Verify(s, h, bytes, digest, expectedKey) == Good(b) {
      var seed :| IsLowerHex(seed, 64) && b.publicKey == s.publicKey(seed);
      assert IsSigned(s, digest, seed, b);
    }
  }

  /** Under the pinned key of a seed, nothing verifies but what this seed signs. */
  lemma PinnedExactly(s: Suite, h: Host, bytes: Text, digest: Text, seed: Text)
    requires Lawful(s) && OnlyOwnersSign(s) && IsLowerHex(seed, 64) && IsDigest(digest)
    ensures var b := Sign(s, digest, seed).value;
            && (Verify(s, h, bytes, digest, Some(s.publicKey(seed))).Good? <==>
                 h.parse(bytes).Some? && Unordered(h.parse(bytes).value) == BundleValue(b))
            && (Verify(s, h, bytes, digest, Some(s.publicKey(seed))).Good? ==>
                 Verify(s, h, bytes, digest, Some(s.publicKey(seed))) == Good(b))
  {
    hide Parse, Unordered, BundleValue, IsDigest, SigningPayload, Verify, IsBundle, Sign;
    var key := s.publicKey(seed);
    SignedVerifies(s, digest, seed);
    var b := Signed(s, digest, seed);
    VerifiesExactly(s, h, bytes, digest, Some(key), b);
    if Verify(s, h, bytes, digest, Some(key)).Good? {
      var c := Verify(s, h, bytes, digest, Some(key)).value;
      VerifiesExactly(s, h, bytes, digest, Some(key), c);
      var other :| IsSigned(s, digest, other, c);
      SignedVerifies(s, digest, other);
      assert IsBundle(b) && IsBundle(c) && b.signature == c.signature;
      BundlesAgree(b, c);
    }
  }

  lemma BundlesAgree(b: Bundle, c: Bundle)
    requires IsBundle(b) && IsBundle(c) && b.contentDigest == c.contentDigest && b.publicKey == c.publicKey && b.signature == c.signature
    ensures b == c
  {
  }

  lemma Signed(s: Suite, digest: Text, seed: Text) returns (b: Bundle)
    requires Lawful(s) && IsLowerHex(seed, 64) && IsDigest(digest)
    ensures Sign(s, digest, seed) == Good(b) && IsSigned(s, digest, seed, b)
  {
    b := Sign(s, digest, seed).value;
    SignsExactly(s, digest, seed, b);
  }

  lemma SignedVerifies(s: Suite, digest: Text, seed: Text)
    requires Lawful(s) && IsLowerHex(seed, 64)
    ensures s.verify(s.publicKey(seed), SigningPayload(digest), s.sign(seed, SigningPayload(digest)))
    ensures LowerText(s.publicKey(seed)) == s.publicKey(seed)
  {
  }

  /**
   A signed bundle with anything in it changed does not verify under the key that signed it,
   for the digest that it was made for or, unless the two have the same signature, for another.
   */
  lemma ChangedBundleIsRefused(s: Suite, h: Host, bytes: Text, digest: Text, other: Text, seed: Text, b: Bundle)
    requires Lawful(s) && OnlyOwnersSign(s) && IsLowerHex(seed, 64) && IsDigest(digest) && IsDigest(other)
    requires Parse(h, bytes) == Good(b)
    ensures b != Sign(s, digest, seed).value ==> Verify(s, h, bytes, digest, Some(s.publicKey(seed))) == Bad(SignatureFailed)
    ensures other != digest && b.signature == s.sign(seed, SigningPayload(digest))
            && s.sign(seed, SigningPayload(other)) != s.sign(seed, SigningPayload(digest))
            ==> Verify(s, h, bytes, other, Some(s.publicKey(seed))) == Bad(SignatureFailed)
  {
    hide Parse, Unordered, IsDigest, SigningPayload, IsBundle, Sign;
    ParsedExactly(h, bytes, b);
    PinnedExactly(s, h, bytes, digest, seed);
    PinnedExactly(s, h, bytes, other, seed);
    var signed := Signed(s, digest, seed);
    var replayed := Signed(s, other, seed);
    BundleIsRead(b);
    BundleIsRead(signed);
    BundleIsRead(replayed);
  }

  /** What verifies is a signature over this digest; so a changed asset does not verify with an old signature. */
  lemma ChangedAssetDoesNotVerify(s: Suite, h: Host, bytes: Text, before: Entries, after: Entries)
    requires Readable(h, before) && Readable(h, after)
    requires Separates(h, Hashed(h, Canonical(h, before)) + Hashed(h, Canonical(h, after)))
    requires (forall n | n in before :: NEWLINE !in n) && (forall n | n in after :: NEWLINE !in n)
    requires Verify(s, h, bytes, Digest(h, before).value, None).Good?
    ensures Verify(s, h, bytes, Digest(h, after).value, None).Good? ==> Canonical(h, before) == Canonical(h, after)
  {
    hide Parse, Canonical, DigestOf, Separates, Hashed;
    NamesOfCanonical(h, before);
    NamesOfCanonical(h, after);
    if Verify(s, h, bytes, Digest(h, after).value, None).Good? {
      DigestTellsApart(h, Canonical(h, before), Canonical(h, after));
    }
  }

  /**
   The signature of an asset with two or more entries that count verifies for another asset
   as well, which has one: names with line breaks are not told from lines.
   */
  lemma MergedAssetVerifies(s: Suite, h: Host, bytes: Text, before: Entries, content: Text) returns (after: Entries)
    requires Readable(h, before) && |Canonical(h, before)| >= 2 && MovesTo(h, before, LastName(Canonical(h, before)), content)
    requires Verify(s, h, bytes, Digest(h, before).value, None).Good?
    ensures Readable(h, after) && Canonical(h, after) != Canonical(h, before)
    ensures Verify(s, h, bytes, Digest(h, after).value, None).Good?
    ensures Hashed(h, Canonical(h, after)) <= Hashed(h, Canonical(h, before))
  {
    hide Parse, Canonical, DigestOf, Hashed, MovesTo, LastName;
    after := MergedAsset(h, before, content);
  }

  /** The signature verifies for that other asset, and the hash does not collide for the two. */
  ghost predicate AlsoVerifies(s: Suite, h: Host, bytes: Text, before: Entries, after: Entries)
    requires Readable(h, before)
  {
    && Readable(h, after) && Canonical(h, after) != Canonical(h, before)
    && Verify(s, h, bytes, Digest(h, after).value, None).Good?
    && Separates(h, Hashed(h, Canonical(h, before)) + Hashed(h, Canonical(h, after)))
  }

  /**
   A signature that verifies for an asset whose names have no line breaks verifies for
   another asset, without a collision, exactly when two or more of its entries count.
   */
  lemma SignedForAnotherExactly(s: Suite, h: Host, bytes: Text, before: Entries, content: Text)
    requires Readable(h, before) && (forall n | n in before :: NEWLINE !in n)
    requires Verify(s, h, bytes, Digest(h, before).value, None).Good? && Separates(h, Hashed(h, Canonical(h, before)))
    requires Canonical(h, before) != map[] ==> MovesTo(h, before, LastName(Canonical(h, before)), content)
    ensures (exists after :: AlsoVerifies(s, h, bytes, before, after)) <==> |Included(before)| >= 2
  {
    hide Parse, Canonical, DigestOf, Hashed, Separates, MovesTo, LastName, IsConfusable;
    var a := Canonical(h, before);
    CountOfCanonical(h, before);
    NamesOfCanonical(h, before);
    CleanNamesAreConfusable(h, a);
    if |a| >= 2 {
      var after := MergedAssetVerifies(s, h, bytes, before, content);
      assert Hashed(h, a) + Hashed(h, Canonical(h, after)) == Hashed(h, a);
      assert AlsoVerifies(s, h, bytes, before, after);
    } else {
      forall after | AlsoVerifies(s, h, bytes, before, after) ensures false {
        OthersAreToldApart(h, a, Canonical(h, after));
      }
    }
  }

  /** One whose entries cannot be confused verifies for no other asset, whatever names that has. */
  lemma OnlyThisAssetVerifies(s: Suite, h: Host, bytes: Text, before: Entries, after: Entries)
    requires Readable(h, before) && Readable(h, after) && !IsConfusable(h, Canonical(h, before))
    requires Separates(h, Hashed(h, Canonical(h, before)) + Hashed(h, Canonical(h, after)))
    requires Verify(s, h, bytes, Digest(h, before).value, None).Good?
    ensures Verify(s, h, bytes, Digest(h, after).value, None).Good? ==> Canonical(h, before) == Canonical(h, after)
  {
    hide Parse, Canonical, DigestOf, Hashed, Separates, IsConfusable;
    if Verify(s, h, bytes, Digest(h, after).value, None).Good? {
      OthersAreToldApart(h, Canonical(h, before), Canonical(h, after));
    }
  }

  lemma CountOfCanonical(h: Host, entries: Entries)
    requires Readable(h, entries)
    ensures |Canonical(h, entries)| == |Included(entries)|
  {
    assert Canonical(h, entries).Keys == Included(entries);
  }

  lemma NamesOfCanonical(h: Host, entries: Entries)
    requires Readable(h, entries)
    ensures forall n | n in Canonical(h, entries) :: n in entries
  {
  }

  /** The canonical text of a value with its line end is read back by the strict parser, too. */
  lemma PrintedLineIsParsed(r: Rules, v: Value)
    requires Plain(v) && Scalar(v) && JsonRoundTrip.IntegersFinite(r) && JsonRoundTrip.NestedAtMost(v, r.maxDepth)
    ensures var s := Print(v) + [NEWLINE]; ParseDocument(r, s) == Ok(v, |s|)
  {
    hide Print, JsonRoundTrip.NestedAtMost, ParseDocument, Scalar, Plain, Spells, Meaning, JsonRoundTrip.IntegersFinite;
    var e := PrintedIsSpelled(r, v, [NEWLINE]);
    DocumentAccepted(r, Print(v) + [NEWLINE], e);
  }
}
