/**
 External key grants over abstract primitives: an issuer encrypts an entry, wraps its key
 to a device in a signed grant, and the device authorizes the grant and decrypts.
 */
module ExternalGrant {
  import opened KeyWrap

  datatype Code =
    | FormatInvalid | TimeInvalid | EnvelopeInvalid | BindingInvalid | IssuerRootInvalid | IssuerUnknown
    | Revoked | Expired | SyncRequired | RollbackDetected | SignatureInvalid
    | AccountMismatch | DeviceMismatch | AssetMismatch | DigestMismatch | Tampered

  datatype Result<+T> = Ok(value: T) | Err(code: Code) {
    predicate IsFailure() { Err? }

    function PropagateFailure<U>(): Result<U>
      requires Err?
    {
      Err(code)
    }

    function Extract(): T
      requires Ok?
    {
      value
    }
  }

  datatype Optional<+T> = Absent | Present(value: T)

  /** What is sealed: the ciphertext and its tag. */
  datatype Sealed = Sealed(ciphertext: Bytes, tag: Bytes)

  datatype Manifest = Manifest(assetUid: string, assetId: string, version: string, access: string, profile: string)

  datatype Envelope = Envelope(
    keyRef: string, issuerKeyId: string, entryPath: string, plaintextDigest: string, iv: Bytes, tag: Bytes, ciphertext: Bytes)

  datatype Asset = Asset(
    assetId: string, assetUid: string, version: string, digest: string, entryPath: string, ciphertextDigest: string,
    keyRef: string, issuerKeyId: string)

  datatype Wrap = Wrap(ephemeralPublicKey: string, salt: Bytes, wrappedCek: Bytes)

  datatype Grant = Grant(
    grantId: string, issuer: string, signingKeyId: string, entitlementId: string, accountId: string, deviceId: string,
    devicePublicKey: string, deviceSigningPublicKey: string, asset: Asset,
    issuedAt: int, refreshAfter: int, graceUntil: int, expiresAt: int, status: string, statusVersion: int, wrap: Wrap,
    signature: Bytes)

  /** The primitives, and what the grant schema checks beyond this model. */
  datatype Suite = Suite(
    block: BlockCipher,
    utf8: string -> Bytes,
    digest: Bytes -> string,
    sha256: Bytes -> Bytes,
    hmac: (Bytes, Bytes) -> Bytes,
    publicKey: Bytes -> string,
    isAgreementKey: string -> bool,
    isSigningKey: string -> bool,
    agree: (Bytes, string) -> Bytes,
    seal: (Bytes, Bytes, Bytes, Bytes) -> Sealed,
    open: (Bytes, Bytes, Bytes, Sealed) -> Optional<Bytes>,
    verifyKey: Bytes -> string,
    sign: (Bytes, Grant) -> Bytes,
    verify: (string, Grant, Bytes) -> bool,
    schema: Grant -> bool)

  /** The laws that correctness needs, and no more. */
  ghost predicate Lawful(s: Suite) {
    && s.block.Lawful()
    && (forall k, m :: |s.hmac(k, m)| == 32)
    && (forall a, b :: s.agree(a, s.publicKey(b)) == s.agree(b, s.publicKey(a)))
    && (forall a :: s.isAgreementKey(s.publicKey(a)))
    && (forall k, iv, aad, p :: s.open(k, iv, aad, s.seal(k, iv, aad, p)) == Present(p))
    && (forall k, iv, aad, p :: |s.seal(k, iv, aad, p).ciphertext| == |p| && |s.seal(k, iv, aad, p).tag| == 16)
    && (forall k, g :: s.verify(s.verifyKey(k), g, s.sign(k, g)) && |s.sign(k, g)| == 64)
    && (forall g: Grant, x, y | |x| == |y| == 64 :: s.schema(g.(signature := x)) == s.schema(g.(signature := y)))
  }

  /** Only the owner of a key makes signatures that verify under it, and one of each grant. */
  ghost predicate OnlyIssuersSign(s: Suite) {
    && (forall k, g, x | s.verify(k, g, x) :: exists key :: k == s.verifyKey(key))
    && (forall key, g, x | s.verify(s.verifyKey(key), g, x) :: x == s.sign(key, g))
  }

  /** Only what was sealed can be opened, with the key, the initial value and the associated data it was sealed with. */
  ghost predicate OnlySealedOpens(s: Suite) {
    forall k, iv, aad, c, p | s.open(k, iv, aad, c) == Present(p) :: c == s.seal(k, iv, aad, p)
  }

  /** There is such a suite, in which two grants have different signatures. */
  lemma LawsCanBeMet(a: Grant, b: Grant) returns (s: Suite)
    ensures Lawful(s) && OnlyIssuersSign(s) && OnlySealedOpens(s)
    ensures forall key | a != b :: s.sign(key, a) != s.sign(key, b)
  {
    var block := SomeCipher();
    var sign := (_: Bytes, g: Grant) => if g == a then Filled(64, 1) else Filled(64, 0);
    s := Suite(
      block, (_: string) => [], (_: Bytes) => "", (_: Bytes) => [], (_: Bytes, _: Bytes) => Filled(32, 0),
      (_: Bytes) => "", (_: string) => true, (_: string) => true, (_: Bytes, _: string) => [],
      (_: Bytes, _: Bytes, _: Bytes, p: Bytes) => Sealed(p, Filled(16, 0)),
      (_: Bytes, _: Bytes, _: Bytes, c: Sealed) => if c.tag == Filled(16, 0) then Present(c.ciphertext) else Absent,
      (_: Bytes) => "", sign, (k: string, g: Grant, x: Bytes) => k == "" && x == sign([], g), (_: Grant) => true);
    forall k, g, x | s.verify(k, g, x) ensures exists key :: k == s.verifyKey(key) {
      assert k == s.verifyKey([]);
    }
    assert Filled(64, 1)[0] != Filled(64, 0)[0];
  }

  function Filled(n: nat, value: bv8): (b: Bytes)
    ensures |b| == n && forall k | 0 <= k < n :: b[k] == value
  {
    seq(n, _ => value)
  }

  lemma AgreementCommutes(s: Suite, a: Bytes, b: Bytes)
    requires Lawful(s)
    ensures s.agree(a, s.publicKey(b)) == s.agree(b, s.publicKey(a)) && s.isAgreementKey(s.publicKey(a))
  {
  }

  lemma OpensWhatItSeals(s: Suite, k: Bytes, iv: Bytes, aad: Bytes, p: Bytes)
    requires Lawful(s)
    ensures s.open(k, iv, aad, s.seal(k, iv, aad, p)) == Present(p)
    ensures |s.seal(k, iv, aad, p).ciphertext| == |p| && |s.seal(k, iv, aad, p).tag| == 16
  {
  }

  lemma VerifiesWhatItSigns(s: Suite, k: Bytes, g: Grant)
    requires Lawful(s)
    ensures s.verify(s.verifyKey(k), g, s.sign(k, g)) && |s.sign(k, g)| == 64
  {
  }

  lemma SchemaSkipsSignature(s: Suite, g: Grant, x: Bytes, y: Bytes)
    requires Lawful(s) && |x| == |y| == 64
    ensures s.schema(g.(signature := x)) == s.schema(g.(signature := y))
  {
  }

  ghost function WrapCek(s: Suite, kek: Bytes, cek: Bytes): Bytes
    requires Lawful(s) && |kek| == 32 && |cek| == 32
  {
    Wrapped(s.block, kek, cek)
  }

  ghost function UnwrapCek(s: Suite, kek: Bytes, wrapped: Bytes): Outcome<Bytes>
    requires Lawful(s) && |kek| == 32 && |wrapped| == 40
  {
    Unwrapped(s.block, kek, wrapped)
  }

  lemma UnwrapsWhatItWraps(s: Suite, kek: Bytes, cek: Bytes)
    requires Lawful(s) && |kek| == 32 && |cek| == 32
    ensures |WrapCek(s, kek, cek)| == 40 && UnwrapCek(s, kek, WrapCek(s, kek, cek)) == Done(cek)
  {
    UnwrapOfWrap(s.block, kek, cek);
  }

  // ---- Keys ---------------------------------------------------------------------------------

  const ENVELOPE_PROFILE := "kdna.envelope.external-grant"
  const CONTRACT_VERSION := "0.1.0"
  const AAD_PROFILE := "kdna.key-context.asset-content"
  const DEVICE_KEK_PROFILE := "kdna.key-context.device-grant"

  /** Extract, then expand to one block. */
  function Hkdf(s: Suite, ikm: Bytes, salt: Bytes, info: string): Bytes {
    s.hmac(s.hmac(salt, ikm), s.utf8(info) + [1])
  }

  function Joined(fields: seq<string>): string {
    if fields == [] then "" else if |fields| == 1 then fields[0] else fields[0] + "\n" + Joined(fields[1..])
  }

  function BindingFields(m: Manifest, entryName: string, plaintextDigest: string, keyRef: string, issuerKeyId: string): seq<string> {
    [ENVELOPE_PROFILE, CONTRACT_VERSION, m.assetUid, m.assetId, m.version, entryName, plaintextDigest, keyRef, issuerKeyId,
     m.access, m.profile]
  }

  function Aad(m: Manifest, entryName: string, plaintextDigest: string, keyRef: string, issuerKeyId: string): Result<string> {
    var fields := BindingFields(m, entryName, plaintextDigest, keyRef, issuerKeyId);
    if (exists f | f in fields :: f == "") || m.access != "licensed" || (m.profile != "account" && m.profile != "org")
    then Err(BindingInvalid) else Ok(Joined(fields))
  }

  function AssetInfo(keyRef: string): string { AAD_PROFILE + "\n" + keyRef }

  function AssetCek(s: Suite, root: Bytes, aad: string, keyRef: string): Result<Bytes> {
    if |root| != 32 then Err(IssuerRootInvalid) else Ok(Hkdf(s, root, s.sha256(s.utf8(aad)), AssetInfo(keyRef)))
  }

  function DeviceInfo(grantId: string): string { DEVICE_KEK_PROFILE + "\n" + CONTRACT_VERSION + "\n" + grantId }

  function DeviceKek(s: Suite, shared: Bytes, salt: Bytes, grantId: string): Bytes { Hkdf(s, shared, salt, DeviceInfo(grantId)) }

  // ---- Envelopes ------------------------------------------------------------------------------

  predicate IsLineEnd(c: char) { c == '\n' || c == '\r' || c == '\U{2028}' || c == '\U{2029}' }

  predicate IsEntryPath(t: string) {
    && 0 < |t| <= 256 && t[0] != '/' && t[|t| - 1] != '/'
    && forall k | 0 < k < |t| - 1 :: !IsLineEnd(t[k])
  }

  /** What the envelope schema asks of the fields that vary. */
  predicate EnvelopeFits(e: Envelope) {
    && 0 < |e.keyRef| <= 256 && 0 < |e.issuerKeyId| <= 128 && IsEntryPath(e.entryPath)
    && |e.iv| == 12 && |e.tag| == 16 && e.ciphertext != []
  }

  function Encrypt(s: Suite, plaintext: Bytes, m: Manifest, entryName: string, root: Bytes, keyRef: string,
                   issuerKeyId: string, iv: Bytes): Result<Envelope>
  {
    var plaintextDigest := s.digest(plaintext);
    var aad :- Aad(m, entryName, plaintextDigest, keyRef, issuerKeyId);
    var cek :- AssetCek(s, root, aad, keyRef);
    var sealed := s.seal(cek, iv, s.utf8(aad), plaintext);
    Ok(Envelope(keyRef, issuerKeyId, entryName, plaintextDigest, iv, sealed.tag, sealed.ciphertext))
  }

  // ---- Grants ------------------------------------------------------------------------------------

  /** What the issuer puts into a grant. */
  datatype Issue = Issue(
    root: Bytes, signingKey: Bytes, signingKeyId: string, issuer: string, entitlementId: string, accountId: string,
    deviceId: string, devicePublicKey: string, deviceSigningPublicKey: string, assetDigest: string,
    status: string, statusVersion: int, issuedAt: int, refreshAfter: int, graceUntil: int, expiresAt: int,
    grantId: string, ephemeralKey: Bytes, salt: Bytes)

  /** What is signed: the grant without its signature. */
  function Unsigned(g: Grant): Grant { g.(signature := []) }

  function ValidGrant(s: Suite, g: Grant): Result<()> {
    if !s.schema(g) then Err(FormatInvalid)
    else if !(g.issuedAt <= g.refreshAfter <= g.graceUntil <= g.expiresAt) then Err(TimeInvalid)
    else Ok(())
  }

  ghost function Create(s: Suite, i: Issue, m: Manifest, e: Envelope): Result<Grant>
    requires Lawful(s)
  {
    if !EnvelopeFits(e) then Err(EnvelopeInvalid)
    else if !s.isAgreementKey(i.devicePublicKey) || !s.isSigningKey(i.deviceSigningPublicKey) then Err(FormatInvalid)
    else
      var aad :- Aad(m, e.entryPath, e.plaintextDigest, e.keyRef, e.issuerKeyId);
      var cek :- AssetCek(s, i.root, aad, e.keyRef);
      if |i.salt| != 16 then Err(FormatInvalid)
      else
        var kek := DeviceKek(s, s.agree(i.ephemeralKey, i.devicePublicKey), i.salt, i.grantId);
        if |kek| != 32 || |cek| != 32 then Err(FormatInvalid)
        else
          var asset := Asset(m.assetId, m.assetUid, m.version, i.assetDigest, e.entryPath, s.digest(e.ciphertext), e.keyRef,
                             e.issuerKeyId);
          var grant := Grant(
            i.grantId, i.issuer, i.signingKeyId, i.entitlementId, i.accountId, i.deviceId, i.devicePublicKey,
            i.deviceSigningPublicKey, asset, i.issuedAt, i.refreshAfter, i.graceUntil, i.expiresAt, i.status, i.statusVersion,
            Wrap(s.publicKey(i.ephemeralKey), i.salt, WrapCek(s, kek, cek)), []);
          var _ :- ValidGrant(s, grant.(signature := seq(64, _ => 0)));
          Ok(grant.(signature := s.sign(i.signingKey, grant)))
  }

  // ---- The window -----------------------------------------------------------------------------------

  datatype State = Active | OfflineGrace

  const CLOCK_SKEW := 300000

  /** `now` is absent when it is no time. */
  function GrantState(g: Grant, now: Optional<int>, network: bool, offline: bool): Result<State> {
    if now.Absent? || g.issuedAt > g.refreshAfter || g.refreshAfter > g.graceUntil || g.graceUntil > g.expiresAt
    then Err(TimeInvalid)
    else
      var time := now.value;
      if time + CLOCK_SKEW < g.issuedAt then Err(TimeInvalid)
      else if g.status == "revoked" then Err(Revoked)
      else if g.status != "active" || time > g.expiresAt then Err(Expired)
      else if time <= g.refreshAfter then Ok(Active)
      else if network then Err(SyncRequired)
      else if !offline || time > g.graceUntil then Err(Expired)
      else Ok(OfflineGrace)
  }

  predicate Monotone(g: Grant) { g.issuedAt <= g.refreshAfter <= g.graceUntil <= g.expiresAt }

  /** When a grant is accepted: early by five minutes at most, until its refresh time, or offline until its grace ends. */
  predicate InWindow(g: Grant, time: int, network: bool, offline: bool) {
    && g.status == "active" && g.issuedAt - 5 * 60 * 1000 <= time
    && (time <= g.refreshAfter || (!network && offline && time <= g.graceUntil))
  }

  /**
   The window is exact, for ordered times; between the end of grace and expiry nothing is
   accepted. With other times, or none for now, the state is an error of time.
   */
  lemma WindowIsExact(g: Grant, time: int, network: bool, offline: bool)
    ensures GrantState(g, Absent, network, offline) == Err(TimeInvalid)
    ensures var state := GrantState(g, Present(time), network, offline);
            if !Monotone(g) then state == Err(TimeInvalid)
            else
              && (state.Ok? <==> InWindow(g, time, network, offline))
              && (InWindow(g, time, network, offline) ==> (state == Ok(Active) <==> time <= g.refreshAfter))
              && (g.graceUntil < time <= g.expiresAt && g.status == "active" ==>
                   state == Err(if network then SyncRequired else Expired))
              && (state == Err(TimeInvalid) <==> time < g.issuedAt - 5 * 60 * 1000)
              && (state == Err(Revoked) <==> time >= g.issuedAt - 5 * 60 * 1000 && g.status == "revoked")
              && (state == Err(SyncRequired) <==>
                   time >= g.issuedAt - 5 * 60 * 1000 && g.status == "active" && network && g.refreshAfter < time <= g.expiresAt)
  {
  }

  // ---- Authorization -----------------------------------------------------------------------------------

  datatype DeviceKey = DeviceKey(private: Bytes, public: string)

  /** What the device expects of a grant. */
  datatype Expectation = Expectation(
    issuerKeys: map<string, string>, assetDigest: Optional<string>, accountId: Optional<string>, deviceId: Optional<string>,
    deviceSigningPublicKey: Optional<string>, minimumStatusVersion: Optional<int>, key: DeviceKey)

  function Equal(actual: string, expected: Optional<string>, code: Code): Result<()> {
    if expected == Present(actual) then Ok(()) else Err(code)
  }

  /** The checks of a grant against the expectation, the manifest and the envelope. */
  function Matches(s: Suite, g: Grant, x: Expectation, m: Manifest, e: Envelope): Result<()> {
    var _ :- Equal(g.accountId, x.accountId, AccountMismatch);
    var _ :- Equal(g.deviceId, x.deviceId, DeviceMismatch);
    var _ :- Equal(g.deviceSigningPublicKey, x.deviceSigningPublicKey, DeviceMismatch);
    var _ :- Equal(g.asset.assetId, Present(m.assetId), AssetMismatch);
    var _ :- Equal(g.asset.assetUid, Present(m.assetUid), AssetMismatch);
    var _ :- Equal(g.asset.version, Present(m.version), AssetMismatch);
    var _ :- Equal(g.asset.digest, x.assetDigest, DigestMismatch);
    var _ :- Equal(g.asset.entryPath, Present(e.entryPath), AssetMismatch);
    var _ :- Equal(g.asset.keyRef, Present(e.keyRef), AssetMismatch);
    var _ :- Equal(g.asset.issuerKeyId, Present(e.issuerKeyId), AssetMismatch);
    var _ :- Equal(g.asset.ciphertextDigest, Present(s.digest(e.ciphertext)), DigestMismatch);
    Equal(g.devicePublicKey, Present(x.key.public), DeviceMismatch)
  }

  datatype Authorized = Authorized(state: State, grant: Grant, envelope: Envelope, cek: Bytes)

  ghost function Authorize(s: Suite, g: Grant, x: Expectation, m: Manifest, e: Envelope, now: Optional<int>, network: bool,
                           offline: bool): Result<Authorized>
    requires Lawful(s)
  {
    var _ :- ValidGrant(s, g);
    if x.minimumStatusVersion.Present? && g.statusVersion < x.minimumStatusVersion.value then Err(RollbackDetected)
    else if g.signingKeyId !in x.issuerKeys then Err(IssuerUnknown)
    else if |g.signature| != 64 then Err(FormatInvalid)
    else if !s.verify(x.issuerKeys[g.signingKeyId], Unsigned(g), g.signature) then Err(SignatureInvalid)
    else
      var state :- GrantState(g, now, network, offline);
      if !EnvelopeFits(e) then Err(EnvelopeInvalid)
      else
        var _ :- Matches(s, g, x, m, e);
        if !s.isAgreementKey(g.wrap.ephemeralPublicKey) || |g.wrap.salt| != 16 then Err(FormatInvalid)
        else
          var kek := DeviceKek(s, s.agree(x.key.private, g.wrap.ephemeralPublicKey), g.wrap.salt, g.grantId);
          if |kek| != 32 || |g.wrap.wrappedCek| != 40 then Err(DeviceMismatch)
          else
            var cek := UnwrapCek(s, kek, g.wrap.wrappedCek);
            if cek.Failed? then Err(DeviceMismatch) else Ok(Authorized(state, g, e, cek.value))
  }

  /** Decrypting an entry with an authorized grant; without a key any more, authentication fails. */
  function DecryptWith(s: Suite, g: Grant, granted: Envelope, cek: Optional<Bytes>, entryName: string, e: Envelope,
                       m: Manifest): Result<Bytes>
  {
    if !EnvelopeFits(e) then Err(EnvelopeInvalid)
    else if entryName != granted.entryPath then Err(AssetMismatch)
    else if s.digest(e.ciphertext) != g.asset.ciphertextDigest then Err(DigestMismatch)
    else
      var aad :- Aad(m, entryName, e.plaintextDigest, e.keyRef, e.issuerKeyId);
      if cek.Absent? then Err(Tampered)
      else
        var plain := s.open(cek.value, e.iv, s.utf8(aad), Sealed(e.ciphertext, e.tag));
        if plain.Absent? then Err(Tampered)
        else if s.digest(plain.value) != e.plaintextDigest then Err(DigestMismatch)
        else Ok(plain.value)
  }

  /** What `authorizeExternalKeyGrant` returns: it keeps the key until it is disposed of. */
  class Access {
    const suite: Suite
    const grant: Grant
    const envelope: Envelope
    var cek: array?<bv8>

    ghost function Key(): Optional<Bytes>
      reads this, cek
    {
      if cek == null then Absent else Present(cek[..])
    }

    constructor (suite: Suite, a: Authorized)
      ensures this.suite == suite && grant == a.grant && envelope == a.envelope && Key() == Present(a.cek)
      ensures cek != null && fresh(cek)
    {
      var bytes := a.cek;
      this.suite, grant, envelope := suite, a.grant, a.envelope;
      cek := new bv8[|bytes|](k requires 0 <= k < |bytes| => bytes[k]);
      new;
      assert cek[..] == bytes;
    }

    method DecryptEntry(entryName: string, e: Envelope, m: Manifest) returns (plaintext: Result<Bytes>)
      ensures plaintext == DecryptWith(suite, grant, envelope, Key(), entryName, e, m)
      ensures Key() == Absent ==> plaintext.Err?
    {
      plaintext := DecryptWith(suite, grant, envelope, if cek == null then Absent else Present(cek[..]), entryName, e, m);
    }

    /** The key's bytes are cleared, and the key is gone. */
    method Dispose()
      modifies this, cek
      ensures Key() == Absent
      ensures old(cek) != null ==> forall k | 0 <= k < old(cek).Length :: old(cek)[k] == 0
    {
      if cek != null {
        var key := cek;
        for k := 0 to key.Length
          invariant cek == key && forall j | 0 <= j < k :: key[j] == 0
        {
          key[k] := 0;
        }
      }
      cek := null;
    }
  }

  // ---- A grant opens what was encrypted -------------------------------------------------------------

  predicate Bindable(m: Manifest, entryName: string, plaintextDigest: string, keyRef: string, issuerKeyId: string) {
    Aad(m, entryName, plaintextDigest, keyRef, issuerKeyId).Ok?
  }

  /** An envelope can be encoded exactly when its references fit and there is something to encrypt. */
  lemma EnvelopeOf(s: Suite, plaintext: Bytes, m: Manifest, entryName: string, root: Bytes, keyRef: string,
                   issuerKeyId: string, iv: Bytes)
    requires Lawful(s)
    ensures var e := Encrypt(s, plaintext, m, entryName, root, keyRef, issuerKeyId, iv);
            && (e.Ok? <==> Bindable(m, entryName, s.digest(plaintext), keyRef, issuerKeyId) && |root| == 32)
            && (e.Ok? ==>
                 (EnvelopeFits(e.value) <==>
                   (&& 0 < |keyRef| <= 256 && 0 < |issuerKeyId| <= 128 && IsEntryPath(entryName) && |iv| == 12
                    && plaintext != [])))
  {
    if Bindable(m, entryName, s.digest(plaintext), keyRef, issuerKeyId) && |root| == 32 {
      var aad := Aad(m, entryName, s.digest(plaintext), keyRef, issuerKeyId).value;
      var cek := AssetCek(s, root, aad, keyRef).value;
      var sealed := s.seal(cek, iv, s.utf8(aad), plaintext);
      OpensWhatItSeals(s, cek, iv, s.utf8(aad), plaintext);
    }
  }

  lemma KeysAre32(s: Suite, ikm: Bytes, salt: Bytes, info: string)
    requires Lawful(s)
    ensures |Hkdf(s, ikm, salt, info)| == 32
  {
  }

  /** What the device has and expects goes with what the issuer put in. */
  ghost predicate Expected(s: Suite, i: Issue, x: Expectation) {
    && i.signingKeyId in x.issuerKeys && x.issuerKeys[i.signingKeyId] == s.verifyKey(i.signingKey)
    && x.assetDigest == Present(i.assetDigest) && x.accountId == Present(i.accountId) && x.deviceId == Present(i.deviceId)
    && x.deviceSigningPublicKey == Present(i.deviceSigningPublicKey)
    && (x.minimumStatusVersion.Present? ==> x.minimumStatusVersion.value <= i.statusVersion)
    && x.key.public == i.devicePublicKey == s.publicKey(x.key.private)
  }

  /** The grant that is created, but for its signature. */
  lemma CreatedGrant(s: Suite, i: Issue, m: Manifest, e: Envelope)
    requires Lawful(s) && Create(s, i, m, e).Ok?
    ensures var g := Create(s, i, m, e).value;
            && EnvelopeFits(e) && |i.salt| == 16 && |i.root| == 32
            && Bindable(m, e.entryPath, e.plaintextDigest, e.keyRef, e.issuerKeyId)
            && var kek := DeviceKek(s, s.agree(i.ephemeralKey, i.devicePublicKey), i.salt, i.grantId);
               var cek := AssetCek(s, i.root, Aad(m, e.entryPath, e.plaintextDigest, e.keyRef, e.issuerKeyId).value, e.keyRef).value;
               && |kek| == 32 && |cek| == 32
               && g.wrap == Wrap(s.publicKey(i.ephemeralKey), i.salt, WrapCek(s, kek, cek))
               && g.signature == s.sign(i.signingKey, Unsigned(g)) && |g.signature| == 64
               && g.grantId == i.grantId && g.signingKeyId == i.signingKeyId && g.statusVersion == i.statusVersion
               && g.asset == Asset(m.assetId, m.assetUid, m.version, i.assetDigest, e.entryPath, s.digest(e.ciphertext), e.keyRef,
                                   e.issuerKeyId)
               && g.issuer == i.issuer && g.entitlementId == i.entitlementId && g.status == i.status
               && g.issuedAt == i.issuedAt && g.refreshAfter == i.refreshAfter && g.graceUntil == i.graceUntil
               && g.expiresAt == i.expiresAt && g.accountId == i.accountId && g.deviceId == i.deviceId && g.devicePublicKey == i.devicePublicKey
               && g.deviceSigningPublicKey == i.deviceSigningPublicKey
               && ValidGrant(s, g).Ok? && Monotone(g)
  {
    hide Hkdf, Aad, WrapCek, EnvelopeFits, Lawful;
    var aad := Aad(m, e.entryPath, e.plaintextDigest, e.keyRef, e.issuerKeyId).value;
    KeysAre32(s, i.root, s.sha256(s.utf8(aad)), AssetInfo(e.keyRef));
    KeysAre32(s, s.agree(i.ephemeralKey, i.devicePublicKey), i.salt, DeviceInfo(i.grantId));
    var g := Create(s, i, m, e).value;
    var zeros: Bytes := seq(64, _ => 0);
    var unsigned := Unsigned(g);
    assert g == unsigned.(signature := s.sign(i.signingKey, unsigned));
    VerifiesWhatItSigns(s, i.signingKey, unsigned);
    SchemaSkipsSignature(s, unsigned, zeros, g.signature);
  }

  /** The device agrees on the issuer's key, and unwraps what it wrapped. */
  lemma DeviceUnwraps(s: Suite, i: Issue, m: Manifest, e: Envelope, x: Expectation)
    requires Lawful(s) && Create(s, i, m, e).Ok? && Expected(s, i, x)
    ensures var g := Create(s, i, m, e).value;
            var kek := DeviceKek(s, s.agree(x.key.private, g.wrap.ephemeralPublicKey), g.wrap.salt, g.grantId);
            var cek := AssetCek(s, i.root, Aad(m, e.entryPath, e.plaintextDigest, e.keyRef, e.issuerKeyId).value, e.keyRef).value;
            |kek| == 32 && |g.wrap.wrappedCek| == 40 && UnwrapCek(s, kek, g.wrap.wrappedCek) == Done(cek)
  {
    hide Hkdf, Aad, Create, WrapCek, UnwrapCek, Lawful, EnvelopeFits, ValidGrant;
    CreatedGrant(s, i, m, e);
    var g := Create(s, i, m, e).value;
    var kek := DeviceKek(s, s.agree(i.ephemeralKey, i.devicePublicKey), i.salt, i.grantId);
    var cek := AssetCek(s, i.root, Aad(m, e.entryPath, e.plaintextDigest, e.keyRef, e.issuerKeyId).value, e.keyRef).value;
    AgreementCommutes(s, x.key.private, i.ephemeralKey);
    UnwrapsWhatItWraps(s, kek, cek);
  }

  /**
   A grant that is made for an envelope is accepted, under matching expectations, exactly in
   its window, with the state of the window and the key of the envelope.
   */
  lemma GrantIsAccepted(s: Suite, i: Issue, m: Manifest, e: Envelope, x: Expectation, time: int, network: bool, offline: bool)
    requires Lawful(s) && Create(s, i, m, e).Ok? && Expected(s, i, x)
    ensures var g := Create(s, i, m, e).value;
            var a := Authorize(s, g, x, m, e, Present(time), network, offline);
            && (a.Ok? <==> InWindow(g, time, network, offline))
            && (a.Ok? ==>
                 && a.value.grant == g && a.value.envelope == e
                 && a.value.state == (if time <= g.refreshAfter then Active else OfflineGrace)
                 && AssetCek(s, i.root, Aad(m, e.entryPath, e.plaintextDigest, e.keyRef, e.issuerKeyId).value, e.keyRef)
                    == Ok(a.value.cek))
  {
    hide Hkdf, Aad, Create, WrapCek, UnwrapCek, DeviceKek, GrantState, EnvelopeFits, Lawful, Matches, InWindow;
    CreatedGrant(s, i, m, e);
    DeviceUnwraps(s, i, m, e, x);
    var g := Create(s, i, m, e).value;
    WindowIsExact(g, time, network, offline);
    VerifiesWhatItSigns(s, i.signingKey, Unsigned(g));
    AgreementCommutes(s, i.ephemeralKey, i.ephemeralKey);
    GrantMatches(s, g, x, m, e);
  }

  lemma GrantMatches(s: Suite, g: Grant, x: Expectation, m: Manifest, e: Envelope)
    requires Present(g.accountId) == x.accountId && Present(g.deviceId) == x.deviceId
    requires Present(g.deviceSigningPublicKey) == x.deviceSigningPublicKey && g.devicePublicKey == x.key.public
    requires g.asset.assetId == m.assetId && g.asset.assetUid == m.assetUid && g.asset.version == m.version
    requires Present(g.asset.digest) == x.assetDigest && g.asset.entryPath == e.entryPath && g.asset.keyRef == e.keyRef
    requires g.asset.issuerKeyId == e.issuerKeyId && g.asset.ciphertextDigest == s.digest(e.ciphertext)
    ensures Matches(s, g, x, m, e) == Ok(())
  {
  }

  /** Encrypt, grant, authorize within the window, decrypt: the plaintext comes back. */
  lemma GrantRoundTrip(s: Suite, plaintext: Bytes, m: Manifest, entryName: string, keyRef: string, issuerKeyId: string,
                       iv: Bytes, i: Issue, x: Expectation, time: int, network: bool, offline: bool)
    requires Lawful(s) && Encrypt(s, plaintext, m, entryName, i.root, keyRef, issuerKeyId, iv).Ok?
    requires var e := Encrypt(s, plaintext, m, entryName, i.root, keyRef, issuerKeyId, iv).value;
             && Create(s, i, m, e).Ok? && Expected(s, i, x)
             && InWindow(Create(s, i, m, e).value, time, network, offline)
    ensures var e := Encrypt(s, plaintext, m, entryName, i.root, keyRef, issuerKeyId, iv).value;
            var a := Authorize(s, Create(s, i, m, e).value, x, m, e, Present(time), network, offline);
            && a.Ok?
            && DecryptWith(s, a.value.grant, a.value.envelope, Present(a.value.cek), entryName, e, m) == Ok(plaintext)
  {
    hide Hkdf, Create, Authorize, InWindow, Expected, EnvelopeFits, Lawful;
    var e := Encrypt(s, plaintext, m, entryName, i.root, keyRef, issuerKeyId, iv).value;
    GrantIsAccepted(s, i, m, e, x, time, network, offline);
    CreatedGrant(s, i, m, e);
    var aad := Aad(m, entryName, s.digest(plaintext), keyRef, issuerKeyId).value;
    var cek := AssetCek(s, i.root, aad, keyRef).value;
    OpensWhatItSeals(s, cek, iv, s.utf8(aad), plaintext);
    assert Sealed(e.ciphertext, e.tag) == s.seal(cek, iv, s.utf8(aad), plaintext);
  }
}
