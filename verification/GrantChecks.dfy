/**
 What the checks of a grant let through, and nothing else: which grants authorize, for whom
 and when, and what is decrypted under them.
 */
module GrantChecks {
  import opened KeyWrap
  import opened ExternalGrant

  // ---- Keys -------------------------------------------------------------------------------

  /** The blocks T(0), T(1), ... of section 2.3 of RFC 5869. */
  ghost function Block(s: Suite, prk: Bytes, info: Bytes, n: nat): Bytes
    requires n < 256
  {
    if n == 0 then [] else s.hmac(prk, Block(s, prk, info, n - 1) + info + [n as bv8])
  }

  ghost function Blocks(s: Suite, prk: Bytes, info: Bytes, n: nat): Bytes
    requires n < 256
  {
    if n == 0 then [] else Blocks(s, prk, info, n - 1) + Block(s, prk, info, n)
  }

  /** The first `length` bytes that the standard derives, from as many blocks as that takes. */
  ghost function Derived(s: Suite, ikm: Bytes, salt: Bytes, info: Bytes, length: nat): Bytes
    requires length <= 255 * 32
  {
    var bytes := Blocks(s, s.hmac(salt, ikm), info, (length + 31) / 32);
    if length <= |bytes| then bytes[..length] else bytes
  }

  /** The single block of the code is what the standard derives for a key of 32 bytes. */
  lemma HkdfMeetsTheStandard(s: Suite, ikm: Bytes, salt: Bytes, info: string)
    requires Lawful(s)
    ensures Hkdf(s, ikm, salt, info) == Derived(s, ikm, salt, s.utf8(info), 32)
  {
    var prk, i := s.hmac(salt, ikm), s.utf8(info);
    assert [] + i + [1] == i + [1];
    assert Blocks(s, prk, i, 1) == Block(s, prk, i, 1);
    assert |Block(s, prk, i, 1)| == 32;
  }

  /** The keys of entries and of devices are derived for different purposes, each of which tells what it is for. */
  lemma PurposesDiffer(keyRef: string, other: string, grantId: string, another: string)
    ensures AssetInfo(keyRef) == "kdna.key-context.asset-content\n" + keyRef
    ensures DeviceInfo(grantId) == "kdna.key-context.device-grant\n0.1.0\n" + grantId
    ensures AssetInfo(keyRef) != DeviceInfo(grantId)
    ensures AssetInfo(keyRef) == AssetInfo(other) ==> keyRef == other
    ensures DeviceInfo(grantId) == DeviceInfo(another) ==> grantId == another
  {
    var asset, device := "kdna.key-context.asset-content\n", "kdna.key-context.device-grant\n0.1.0\n";
    assert AAD_PROFILE + "\n" == asset && DEVICE_KEK_PROFILE + "\n" + CONTRACT_VERSION + "\n" == device;
    assert (asset + keyRef)[|asset|..] == keyRef && (asset + other)[|asset|..] == other;
    assert (device + grantId)[|device|..] == grantId && (device + another)[|device|..] == another;
    assert AssetInfo(keyRef)[17] == 'a' && DeviceInfo(grantId)[17] == 'd';
  }

  // ---- Authorization --------------------------------------------------------------------------

  /** What an envelope may be: the lengths and formats of its schema. */
  ghost predicate IsEnvelope(e: Envelope) {
    && 1 <= |e.keyRef| <= 256 && 1 <= |e.issuerKeyId| <= 128 && 1 <= |e.entryPath| <= 256
    && |e.iv| == 12 && |e.tag| == 16 && |e.ciphertext| >= 1
    && forall k | 0 <= k < |e.entryPath| ::
         if k == 0 || k == |e.entryPath| - 1 then e.entryPath[k] != '/' else e.entryPath[k] !in "\n\r\U{2028}\U{2029}"
  }

  lemma EnvelopesAre(e: Envelope)
    ensures EnvelopeFits(e) <==> IsEnvelope(e)
  {
    var ends := "\n\r\U{2028}\U{2029}";
    forall c: char ensures IsLineEnd(c) <==> c in ends {
      assert ends[0] == '\n' && ends[1] == '\r' && ends[2] == '\U{2028}' && ends[3] == '\U{2029}';
    }
  }

  /** An issuer that is pinned under this name has signed all of the grant but the signature. */
  ghost predicate IsSigned(s: Suite, g: Grant, x: Expectation) {
    && g.signingKeyId in x.issuerKeys && |g.signature| == 64
    && exists key :: x.issuerKeys[g.signingKeyId] == s.verifyKey(key) && g.signature == s.sign(key, g.(signature := []))
  }

  /** The grant is for this account, this device with both its keys, this asset, and this entry with this ciphertext. */
  ghost predicate IsFor(s: Suite, g: Grant, x: Expectation, m: Manifest, e: Envelope) {
    && x.accountId == Present(g.accountId) && x.deviceId == Present(g.deviceId)
    && x.deviceSigningPublicKey == Present(g.deviceSigningPublicKey) && x.key.public == g.devicePublicKey
    && x.assetDigest == Present(g.asset.digest)
    && g.asset.assetId == m.assetId && g.asset.assetUid == m.assetUid && g.asset.version == m.version
    && g.asset.entryPath == e.entryPath && g.asset.keyRef == e.keyRef && g.asset.issuerKeyId == e.issuerKeyId
    && g.asset.ciphertextDigest == s.digest(e.ciphertext)
  }

  /** The grant has this key wrapped to the device. */
  ghost predicate Wraps(s: Suite, g: Grant, key: DeviceKey, cek: Bytes)
    requires Lawful(s)
  {
    && s.isAgreementKey(g.wrap.ephemeralPublicKey) && |g.wrap.salt| == 16 && |cek| == 32
    && var kek := DeviceKek(s, s.agree(key.private, g.wrap.ephemeralPublicKey), g.wrap.salt, g.grantId);
       |kek| == 32 && g.wrap.wrappedCek == Wrapped(s.block, kek, cek)
  }

  ghost predicate IsNotRolledBack(g: Grant, x: Expectation) {
    x.minimumStatusVersion.Present? ==> x.minimumStatusVersion.value <= g.statusVersion
  }

  /**
   A grant authorizes exactly when it meets its schema, is not rolled back, was signed by the
   pinned issuer as it is, is within its window, and is for this account, device, asset and
   entry; what it gives is the key that it wraps to the device.
   */
  lemma AuthorizesExactly(s: Suite, g: Grant, x: Expectation, m: Manifest, e: Envelope, now: Optional<int>, network: bool,
                          offline: bool, a: Authorized)
    requires Lawful(s) && OnlyIssuersSign(s)
    ensures Authorize(s, g, x, m, e, now, network, offline) == Ok(a) <==>
              && s.schema(g) && Monotone(g) && IsNotRolledBack(g, x) && IsSigned(s, g, x)
              && now.Present? && InWindow(g, now.value, network, offline)
              && IsEnvelope(e) && IsFor(s, g, x, m, e)
              && Wraps(s, g, x.key, a.cek)
              && a.grant == g && a.envelope == e && a.state == if now.value <= g.refreshAfter then Active else OfflineGrace
  {
    hide EnvelopeFits, IsEnvelope, Lawful, Wraps, Authorize, OnlyIssuersSign, IsSigned, IsFor, Matches, Unwrapping, GrantState;
    EnvelopesAre(e);
    AuthorizeIs(s, g, x, m, e, now, network, offline, a);
    SignedExactly(s, g, x);
    MatchesExactly(s, g, x, m, e);
    if Monotone(g) { StateExactly(g, now, network, offline, a.state); }
    WrapsExactly(s, g, x.key, a.cek);
  }

  lemma StateExactly(g: Grant, now: Optional<int>, network: bool, offline: bool, state: State)
    requires Monotone(g)
    ensures GrantState(g, now, network, offline) == Ok(state) <==>
              && now.Present? && InWindow(g, now.value, network, offline)
              && state == if now.value <= g.refreshAfter then Active else OfflineGrace
  {
    if now.Present? { WindowIsExact(g, now.value, network, offline); }
  }

  lemma SignedExactly(s: Suite, g: Grant, x: Expectation)
    requires Lawful(s) && OnlyIssuersSign(s)
    ensures IsSigned(s, g, x) <==>
              && g.signingKeyId in x.issuerKeys && |g.signature| == 64
              && s.verify(x.issuerKeys[g.signingKeyId], Unsigned(g), g.signature)
  {
    if g.signingKeyId in x.issuerKeys {
      var pinned := x.issuerKeys[g.signingKeyId];
      forall key | pinned == s.verifyKey(key) && g.signature == s.sign(key, Unsigned(g))
        ensures s.verify(pinned, Unsigned(g), g.signature)
      {
        VerifiesWhatItSigns(s, key, Unsigned(g));
      }
      if s.verify(pinned, Unsigned(g), g.signature) {
        var key :| pinned == s.verifyKey(key);
        assert g.signature == s.sign(key, g.(signature := []));
      }
    }
  }

  lemma MatchesExactly(s: Suite, g: Grant, x: Expectation, m: Manifest, e: Envelope)
    ensures Matches(s, g, x, m, e).Ok? <==> IsFor(s, g, x, m, e)
  {
  }

  /** What the device unwraps. */
  ghost function Unwrapping(s: Suite, g: Grant, key: DeviceKey): Outcome<Bytes>
    requires Lawful(s)
  {
    var kek := DeviceKek(s, s.agree(key.private, g.wrap.ephemeralPublicKey), g.wrap.salt, g.grantId);
    if |kek| != 32 || |g.wrap.wrappedCek| != 40 then Outcome.Failed(Integrity) else UnwrapCek(s, kek, g.wrap.wrappedCek)
  }

  lemma UnwrapsExactly(s: Suite, kek: Bytes, wrapped: Bytes, cek: Bytes)
    requires Lawful(s) && |kek| == 32 && |wrapped| == 40
    ensures UnwrapCek(s, kek, wrapped) == Done(cek) <==> |cek| == 32 && wrapped == Wrapped(s.block, kek, cek)
  {
    if |cek| == 32 { UnwrapAcceptsExactly(s.block, kek, wrapped, cek); }
  }

  lemma WrapsExactly(s: Suite, g: Grant, key: DeviceKey, cek: Bytes)
    requires Lawful(s)
    ensures Wraps(s, g, key, cek) <==>
              s.isAgreementKey(g.wrap.ephemeralPublicKey) && |g.wrap.salt| == 16 && Unwrapping(s, g, key) == Done(cek)
  {
    hide DeviceKek, Wrapped, UnwrapCek, Lawful;
    var kek := DeviceKek(s, s.agree(key.private, g.wrap.ephemeralPublicKey), g.wrap.salt, g.grantId);
    if |kek| == 32 {
      if |cek| == 32 { UnwrapsWhatItWraps(s, kek, cek); }
      if |g.wrap.wrappedCek| == 40 { UnwrapsExactly(s, kek, g.wrap.wrappedCek, cek); }
    }
  }

  lemma AuthorizeIs(s: Suite, g: Grant, x: Expectation, m: Manifest, e: Envelope, now: Optional<int>, network: bool,
                    offline: bool, a: Authorized)
    requires Lawful(s)
    ensures Authorize(s, g, x, m, e, now, network, offline) == Ok(a) <==>
              && ValidGrant(s, g).Ok? && IsNotRolledBack(g, x)
              && g.signingKeyId in x.issuerKeys && |g.signature| == 64
              && s.verify(x.issuerKeys[g.signingKeyId], Unsigned(g), g.signature)
              && GrantState(g, now, network, offline) == Ok(a.state)
              && EnvelopeFits(e) && Matches(s, g, x, m, e).Ok?
              && s.isAgreementKey(g.wrap.ephemeralPublicKey) && |g.wrap.salt| == 16
              && Unwrapping(s, g, x.key) == Done(a.cek) && a.grant == g && a.envelope == e
  {
    hide EnvelopeFits, Lawful, GrantState, Matches, ValidGrant, Unsigned, DeviceKek, UnwrapCek;
  }

  // ---- Creation -------------------------------------------------------------------------------

  /** The grant that an issuer makes for an entry: it has the entry's key, wrapped to the device, and is signed. */
  ghost predicate IsGrantOf(s: Suite, i: Issue, m: Manifest, e: Envelope, cek: Bytes, g: Grant)
    requires Lawful(s) && |cek| == 32
  {
    var kek := DeviceKek(s, s.agree(i.ephemeralKey, i.devicePublicKey), i.salt, i.grantId);
    && g.grantId == i.grantId && g.issuer == i.issuer && g.signingKeyId == i.signingKeyId && g.entitlementId == i.entitlementId
    && g.accountId == i.accountId && g.deviceId == i.deviceId && g.devicePublicKey == i.devicePublicKey
    && g.deviceSigningPublicKey == i.deviceSigningPublicKey
    && g.asset.assetId == m.assetId && g.asset.assetUid == m.assetUid && g.asset.version == m.version
    && g.asset.digest == i.assetDigest && g.asset.entryPath == e.entryPath && g.asset.ciphertextDigest == s.digest(e.ciphertext)
    && g.asset.keyRef == e.keyRef && g.asset.issuerKeyId == e.issuerKeyId
    && g.issuedAt == i.issuedAt && g.refreshAfter == i.refreshAfter && g.graceUntil == i.graceUntil && g.expiresAt == i.expiresAt
    && g.status == i.status && g.statusVersion == i.statusVersion
    && g.wrap.ephemeralPublicKey == s.publicKey(i.ephemeralKey) && g.wrap.salt == i.salt
    && |kek| == 32 && g.wrap.wrappedCek == Wrapped(s.block, kek, cek)
    && g.signature == s.sign(i.signingKey, g.(signature := []))
  }

  /** A grant is created exactly from an envelope, two device keys, a root, a salt and a binding that are well formed, with ordered times. */
  lemma CreatesExactly(s: Suite, i: Issue, m: Manifest, e: Envelope, g: Grant)
    requires Lawful(s)
    ensures var aad := Aad(m, e.entryPath, e.plaintextDigest, e.keyRef, e.issuerKeyId);
            Create(s, i, m, e) == Ok(g) <==>
              && IsEnvelope(e) && s.isAgreementKey(i.devicePublicKey) && s.isSigningKey(i.deviceSigningPublicKey)
              && aad.Ok? && |i.root| == 32 && |i.salt| == 16
              && var cek := AssetCek(s, i.root, aad.value, e.keyRef).value;
                 |cek| == 32 && IsGrantOf(s, i, m, e, cek, g) && s.schema(g) && Monotone(g)
  {
    hide Hkdf, Aad, EnvelopeFits, IsEnvelope, Lawful, Wrapped, DeviceInfo, AssetInfo;
    EnvelopesAre(e);
    var aad := Aad(m, e.entryPath, e.plaintextDigest, e.keyRef, e.issuerKeyId);
    KeysAre32(s, s.agree(i.ephemeralKey, i.devicePublicKey), i.salt, DeviceInfo(i.grantId));
    if aad.Ok? { KeysAre32(s, i.root, s.sha256(s.utf8(aad.value)), AssetInfo(e.keyRef)); }
    var zeros: Bytes := seq(64, _ => 0);
    VerifiesWhatItSigns(s, i.signingKey, Unsigned(g));
    SchemaSkipsSignature(s, Unsigned(g), zeros, s.sign(i.signingKey, Unsigned(g)));
  }

  // ---- Refusals -------------------------------------------------------------------------------

  /** Nothing but the parts of the first kind that differ decides the code: account, device, asset, digest. */
  lemma MismatchesAreTold(s: Suite, g: Grant, x: Expectation, m: Manifest, e: Envelope)
    ensures var account := x.accountId == Present(g.accountId);
            var device := x.deviceId == Present(g.deviceId) && x.deviceSigningPublicKey == Present(g.deviceSigningPublicKey);
            var asset := g.asset.assetId == m.assetId && g.asset.assetUid == m.assetUid && g.asset.version == m.version;
            var entry := g.asset.entryPath == e.entryPath && g.asset.keyRef == e.keyRef && g.asset.issuerKeyId == e.issuerKeyId;
            var digest := x.assetDigest == Present(g.asset.digest);
            var ciphertext := g.asset.ciphertextDigest == s.digest(e.ciphertext);
            var key := x.key.public == g.devicePublicKey;
            var code := Matches(s, g, x, m, e);
            && (code == Err(AccountMismatch) <==> !account)
            && (code == Err(DeviceMismatch) <==> account && (!device || (asset && entry && digest && ciphertext && !key)))
            && (code == Err(AssetMismatch) <==> account && device && (!asset || (digest && !entry)))
            && (code == Err(DigestMismatch) <==> account && device && asset && (!digest || (entry && !ciphertext)))
  {
  }

  /**
   A grant that was created with anything in it changed does not authorize, whoever expects
   it: the old signature, if no pinned issuer makes it for the new grant as well, and any new
   one on the old grant, are refused as signatures.
   */
  lemma ChangedGrantIsRefused(s: Suite, i: Issue, m: Manifest, e: Envelope, x: Expectation, g: Grant, n: Manifest, f: Envelope,
                              now: Optional<int>, network: bool, offline: bool)
    requires Lawful(s) && OnlyIssuersSign(s) && Create(s, i, m, e).Ok?
    requires i.signingKeyId in x.issuerKeys && x.issuerKeys[i.signingKeyId] == s.verifyKey(i.signingKey)
    requires var c := Create(s, i, m, e).value;
             && g != c && (g.signature == c.signature || Unsigned(g) == Unsigned(c))
             && forall key | s.sign(key, Unsigned(g)) == c.signature :: Unsigned(g) == Unsigned(c)
    ensures Authorize(s, g, x, n, f, now, network, offline).Err?
    ensures s.schema(g) && Monotone(g) && IsNotRolledBack(g, x) && g.signingKeyId in x.issuerKeys && |g.signature| == 64 ==>
              Authorize(s, g, x, n, f, now, network, offline) == Err(SignatureInvalid)
  {
    hide Create, Lawful, EnvelopeFits, Bindable, DeviceKek, AssetCek, IsSigned, OnlyIssuersSign;
    CreatedGrant(s, i, m, e);
    SignedIsTheCreated(s, i, x, Create(s, i, m, e).value, g);
    UnsignedIsRefused(s, g, x, n, f, now, network, offline);
  }

  lemma SignedIsTheCreated(s: Suite, i: Issue, x: Expectation, c: Grant, g: Grant)
    requires Lawful(s) && OnlyIssuersSign(s)
    requires i.signingKeyId in x.issuerKeys && x.issuerKeys[i.signingKeyId] == s.verifyKey(i.signingKey)
    requires c.signingKeyId == i.signingKeyId && c.signature == s.sign(i.signingKey, Unsigned(c))
    requires g.signature == c.signature || Unsigned(g) == Unsigned(c)
    requires forall key | s.sign(key, Unsigned(g)) == c.signature :: Unsigned(g) == Unsigned(c)
    ensures IsSigned(s, g, x) ==> g == c
  {
    hide Lawful;
    if IsSigned(s, g, x) {
      var key :| x.issuerKeys[g.signingKeyId] == s.verifyKey(key) && g.signature == s.sign(key, g.(signature := []));
      VerifiesWhatItSigns(s, key, Unsigned(g));
      assert Unsigned(g) == Unsigned(c);
      assert Unsigned(g).signingKeyId == g.signingKeyId && Unsigned(c).signingKeyId == c.signingKeyId;
      assert g.signature == s.sign(i.signingKey, Unsigned(g));
      assert g == Unsigned(g).(signature := g.signature) && c == Unsigned(c).(signature := c.signature);
    }
  }

  lemma UnsignedIsRefused(s: Suite, g: Grant, x: Expectation, m: Manifest, e: Envelope, now: Optional<int>, network: bool,
                          offline: bool)
    requires Lawful(s) && OnlyIssuersSign(s) && !IsSigned(s, g, x)
    ensures Authorize(s, g, x, m, e, now, network, offline).Err?
    ensures s.schema(g) && Monotone(g) && IsNotRolledBack(g, x) && g.signingKeyId in x.issuerKeys && |g.signature| == 64 ==>
              Authorize(s, g, x, m, e, now, network, offline) == Err(SignatureInvalid)
  {
    hide Lawful, EnvelopeFits, IsSigned, Matches, GrantState, DeviceKek, UnwrapCek, OnlyIssuersSign, Unsigned;
    SignedExactly(s, g, x);
  }

  // ---- Decryption -----------------------------------------------------------------------------

  /**
   An entry is decrypted to a plaintext exactly when it is the entry that was granted, with
   this ciphertext, and the key, which was not disposed of, seals that plaintext to it.
   */
  lemma DecryptsExactly(s: Suite, g: Grant, granted: Envelope, cek: Optional<Bytes>, entryName: string, e: Envelope, m: Manifest,
                        plaintext: Bytes)
    requires Lawful(s) && OnlySealedOpens(s)
    ensures DecryptWith(s, g, granted, cek, entryName, e, m) == Ok(plaintext) <==>
              && IsEnvelope(e) && entryName == granted.entryPath && s.digest(e.ciphertext) == g.asset.ciphertextDigest
              && cek.Present? && s.digest(plaintext) == e.plaintextDigest
              && var aad := Aad(m, entryName, e.plaintextDigest, e.keyRef, e.issuerKeyId);
                 aad.Ok? && Sealed(e.ciphertext, e.tag) == s.seal(cek.value, e.iv, s.utf8(aad.value), plaintext)
    ensures DecryptWith(s, g, granted, cek, entryName, e, m) == Ok(plaintext) ==> plaintext != [] && |e.iv| == 12
  {
    hide Aad, EnvelopeFits;
    EnvelopesAre(e);
    var aad := Aad(m, entryName, e.plaintextDigest, e.keyRef, e.issuerKeyId);
    if cek.Present? && aad.Ok? { OpensWhatItSeals(s, cek.value, e.iv, s.utf8(aad.value), plaintext); }
  }
}
