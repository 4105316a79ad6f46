/** Password-protected entries: one content key in a password slot and perhaps a recovery slot, and recovery codes. */
module ProtectedEntry {
  import Octets = Bytes
  import opened KeyWrap

  // ---- Recovery codes ---------------------------------------------------------------------

  const PREFIX := "kdna-recover-"
  const KEY_SIZE := 32

  function UpperDigit(n: nat): char
    requires n < 16
  {
    if n < 10 then '0' + n as char else 'A' + (n - 10) as char
  }

  predicate IsHex(c: char) { '0' <= c <= '9' || 'a' <= c <= 'f' || 'A' <= c <= 'F' }

  function DigitValue(c: char): (n: nat)
    requires IsHex(c)
    ensures n < 16
  {
    if c <= '9' then (c - '0') as nat else if c <= 'F' then (c - 'A') as nat + 10 else (c - 'a') as nat + 10
  }

  function ToHex(bytes: Octets.Bytes): (t: string)
    ensures |t| == 2 * |bytes| && forall k | 0 <= k < |t| :: IsHex(t[k])
  {
    if bytes == [] then "" else [UpperDigit(bytes[0] / 16), UpperDigit(bytes[0] % 16)] + ToHex(bytes[1..])
  }

  function FromHex(t: string): Octets.Bytes
    requires |t| % 2 == 0 && forall k | 0 <= k < |t| :: IsHex(t[k])
  {
    if t == "" then [] else [16 * DigitValue(t[0]) + DigitValue(t[1])] + FromHex(t[2..])
  }

  /** Groups of four, with hyphens between them. */
  function Grouped(t: string): string {
    if |t| <= 4 then t else t[..4] + "-" + Grouped(t[4..])
  }

  function Digits(t: string): string {
    if t == "" then "" else if t[0] == '-' then Digits(t[1..]) else [t[0]] + Digits(t[1..])
  }

  function RecoveryCode(raw: Octets.Bytes): string { PREFIX + Grouped(ToHex(raw)) }

  predicate IsKeyText(t: string) { |t| == 2 * KEY_SIZE && forall k | 0 <= k < |t| :: IsHex(t[k]) }

  /** Nothing when it throws. */
  function DecodeRecoveryCode(code: string): Octets.Option<Octets.Bytes> {
    if !(PREFIX <= code) then Octets.None
    else
      var digits := Digits(code[|PREFIX|..]);
      if IsKeyText(digits) then Octets.Some(FromHex(digits)) else Octets.None
  }

  lemma {:induction false} HexIsRead(bytes: Octets.Bytes)
    ensures FromHex(ToHex(bytes)) == bytes
  {
    if bytes != [] {
      HexIsRead(bytes[1..]);
      var t := ToHex(bytes);
      assert t[2..] == ToHex(bytes[1..]);
      UpperDigitIsRead(bytes[0] / 16);
      UpperDigitIsRead(bytes[0] % 16);
    }
  }

  lemma UpperDigitIsRead(n: nat)
    requires n < 16
    ensures IsHex(UpperDigit(n)) && DigitValue(UpperDigit(n)) == n
  {
  }

  lemma {:induction false} DigitsOfParts(a: string, b: string)
    ensures Digits(a + b) == Digits(a) + Digits(b)
  {
    if a == "" {
      assert a + b == b;
    } else {
      assert (a + b)[1..] == a[1..] + b;
      DigitsOfParts(a[1..], b);
    }
  }

  lemma {:induction false} DigitsOfHex(t: string)
    requires forall k | 0 <= k < |t| :: IsHex(t[k])
    ensures Digits(t) == t
  {
    if t != "" { DigitsOfHex(t[1..]); }
  }

  lemma {:induction false} GroupedDigits(t: string)
    requires forall k | 0 <= k < |t| :: IsHex(t[k])
    ensures Digits(Grouped(t)) == t
    decreases |t|
  {
    if |t| <= 4 {
      DigitsOfHex(t);
    } else {
      GroupedDigits(t[4..]);
      DigitsOfHex(t[..4]);
      DigitsOfParts(t[..4] + "-", Grouped(t[4..]));
      DigitsOfParts(t[..4], "-");
      assert t[..4] + "" + t[4..] == t;
    }
  }

  /** A recovery code decodes to the key it was made of. */
  lemma RecoveryCodeIsRead(raw: Octets.Bytes)
    requires |raw| == KEY_SIZE
    ensures DecodeRecoveryCode(RecoveryCode(raw)) == Octets.Some(raw)
  {
    GroupedDigits(ToHex(raw));
    HexIsRead(raw);
    assert RecoveryCode(raw)[|PREFIX|..] == Grouped(ToHex(raw));
  }

  function UpperCase(c: char): char { if 'a' <= c <= 'f' then c - 'a' + 'A' else c }

  function Upper(t: string): string { seq(|t|, k requires 0 <= k < |t| => UpperCase(t[k])) }

  lemma DigitsAreExact(c: char, d: char)
    requires IsHex(c) && IsHex(d)
    ensures UpperCase(c) == UpperCase(d) <==> DigitValue(c) == DigitValue(d)
  {
  }

  lemma {:induction false} FromHexIsExact(a: string, b: string)
    requires |a| % 2 == |b| % 2 == 0 && (forall k | 0 <= k < |a| :: IsHex(a[k])) && (forall k | 0 <= k < |b| :: IsHex(b[k]))
    ensures FromHex(a) == FromHex(b) <==> Upper(a) == Upper(b)
    decreases |a|
  {
    if a != "" && b != "" {
      hide DigitValue;
      DigitsAreExact(a[0], b[0]);
      DigitsAreExact(a[1], b[1]);
      FromHexIsExact(a[2..], b[2..]);
      assert Upper(a) == Upper(a[..2]) + Upper(a[2..]) && Upper(b) == Upper(b[..2]) + Upper(b[2..]);
      assert Upper(a)[2..] == Upper(a[2..]) && Upper(b)[2..] == Upper(b[2..]);
      assert FromHex(a)[1..] == FromHex(a[2..]) && FromHex(b)[1..] == FromHex(b[2..]);
      assert Upper(a[..2]) == [Upper(a)[0], Upper(a)[1]] && Upper(b[..2]) == [Upper(b)[0], Upper(b)[1]];
    } else {
      assert |Upper(a)| == |a| && |Upper(b)| == |b|;
    }
  }

  /** Codes are the same key exactly when they differ in hyphens and case only. */
  lemma CodesOfTheSameKey(a: string, b: string)
    requires DecodeRecoveryCode(a).Some? && DecodeRecoveryCode(b).Some?
    ensures DecodeRecoveryCode(a) == DecodeRecoveryCode(b) <==>
              Upper(Digits(a[|PREFIX|..])) == Upper(Digits(b[|PREFIX|..]))
  {
    FromHexIsExact(Digits(a[|PREFIX|..]), Digits(b[|PREFIX|..]));
  }

  // ---- Entries -------------------------------------------------------------------------------

  datatype Sealed = Sealed(ciphertext: Bytes, tag: Bytes)

  datatype Suite = Suite(
    block: BlockCipher,
    utf8: string -> Bytes,
    passwordKey: (string, Bytes) -> Bytes,
    bytesOf: Octets.Bytes -> Bytes,
    seal: (Bytes, Bytes, Bytes, Bytes) -> Sealed,
    open: (Bytes, Bytes, Bytes, Sealed) -> Octets.Option<Bytes>)

  ghost predicate Lawful(s: Suite) {
    && s.block.Lawful()
    && (forall p, salt :: |s.passwordKey(p, salt)| == 32)
    && (forall b | |b| == KEY_SIZE :: |s.bytesOf(b)| == 32)
    && (forall k, iv, aad, p :: s.open(k, iv, aad, s.seal(k, iv, aad, p)) == Octets.Some(p))
    && (forall k, iv, aad, p :: |s.seal(k, iv, aad, p).ciphertext| == |p|)
  }

  /** Only what was sealed can be opened, with the key, the initial value and the associated data it was sealed with. */
  ghost predicate OnlySealedOpens(s: Suite) {
    forall k, iv, aad, c, p | s.open(k, iv, aad, c) == Octets.Some(p) :: c == s.seal(k, iv, aad, p)
  }

  function Blank(n: nat): (b: Bytes)
    ensures |b| == n
  {
    seq(n, _ => 0)
  }

  /** There is such a suite. */
  lemma LawsCanBeMet() returns (s: Suite)
    ensures Lawful(s) && OnlySealedOpens(s)
  {
    var block := SomeCipher();
    s := Suite(
      block, (_: string) => [], (_: string, _: Bytes) => Blank(32), (_: Octets.Bytes) => Blank(32),
      (_: Bytes, _: Bytes, _: Bytes, p: Bytes) => Sealed(p, []),
      (_: Bytes, _: Bytes, _: Bytes, c: Sealed) => if c.tag == [] then Octets.Some(c.ciphertext) else Octets.None);
  }

  datatype Slot = Slot(name: string, wrappedKey: Bytes)

  datatype Header = Header(profile: string, profileVersion: string, alg: string, kdf: string, keyWrapping: string)

  const HEADER := Header("kdna.encryption.password", "0.1.0", "AES-256-GCM", "Argon2id", "AES-256-KW")

  datatype Envelope = Envelope(header: Header, salt: Bytes, slots: seq<Slot>, iv: Bytes, sealed: Sealed)

  datatype Manifest = Manifest(assetId: string, version: string)

  function Aad(entryName: string, m: Manifest): string {
    HEADER.profile + "\n" + HEADER.profileVersion + "\n" + m.assetId + "\n" + m.version + "\n" + entryName
  }

  const PASSWORD := "password"
  const RECOVERY := "recovery"

  /** The key of the recovery slot: of a code, or a random one; nothing when the code is malformed. */
  ghost function RecoveryKey(s: Suite, code: string, random: Bytes): (key: Octets.Option<Bytes>)
    requires Lawful(s) && |random| == 32
    ensures key.Some? ==> |key.value| == 32
  {
    CodeIsKey(code);
    if code == "" then Octets.Some(random)
    else
      var raw := DecodeRecoveryCode(code);
      if raw.None? then Octets.None else Octets.Some(s.bytesOf(raw.value))
  }

  /** Nothing when it throws; `cek`, `salt`, `iv` and `random` are the random bytes it draws. */
  ghost function Encrypt(s: Suite, plaintext: Bytes, entryName: string, m: Manifest, password: string, includeRecovery: bool,
                         recoveryCode: string, cek: Bytes, salt: Bytes, iv: Bytes, random: Bytes): Octets.Option<Envelope>
    requires Lawful(s) && |cek| == 32 && |random| == 32
  {
    if entryName == "" || password == "" then Octets.None
    else
      var slot := Slot(PASSWORD, Wrapped(s.block, s.passwordKey(password, salt), cek));
      var recovery := RecoveryKey(s, recoveryCode, random);
      if includeRecovery && recovery.None? then Octets.None
      else
        var slots := if includeRecovery then [slot, Slot(RECOVERY, Wrapped(s.block, recovery.value, cek))] else [slot];
        Octets.Some(Envelope(HEADER, salt, slots, iv, s.seal(cek, iv, s.utf8(Aad(entryName, m)), plaintext)))
  }

  /** The first slot of this name. */
  function FindSlot(slots: seq<Slot>, name: string): Octets.Option<Slot> {
    if slots == [] then Octets.None else if slots[0].name == name then Octets.Some(slots[0]) else FindSlot(slots[1..], name)
  }

  /** The content key from a slot; nothing when there is none, or it does not unwrap. */
  ghost function SlotKey(s: Suite, e: Envelope, name: string, key: Bytes): Octets.Option<Bytes>
    requires Lawful(s) && |key| == 32
  {
    var slot := FindSlot(e.slots, name);
    if slot.None? || |slot.value.wrappedKey| != 40 then Octets.None
    else
      var cek := Unwrapped(s.block, key, slot.value.wrappedKey);
      if cek.Failed? then Octets.None else Octets.Some(cek.value)
  }

  ghost function CodeKey(s: Suite, e: Envelope, code: string): Octets.Option<Bytes>
    requires Lawful(s)
  {
    var raw := DecodeRecoveryCode(code);
    CodeIsKey(code);
    if raw.None? then Octets.None else SlotKey(s, e, RECOVERY, s.bytesOf(raw.value))
  }

  /** The password is used if there is one, and the recovery code otherwise. */
  ghost function Decrypt(s: Suite, e: Envelope, entryName: string, m: Manifest, password: string, recoveryCode: string)
    : Octets.Option<Bytes>
    requires Lawful(s)
  {
    if entryName == "" || (password == "" && recoveryCode == "") || e.header != HEADER then Octets.None
    else
      var cek := if password != "" then SlotKey(s, e, PASSWORD, s.passwordKey(password, e.salt)) else CodeKey(s, e, recoveryCode);
      if cek.None? || e.sealed.ciphertext == [] then Octets.None
      else s.open(cek.value, e.iv, s.utf8(Aad(entryName, m)), e.sealed)
  }

  lemma {:induction false} HexSize(t: string)
    requires |t| % 2 == 0 && forall k | 0 <= k < |t| :: IsHex(t[k])
    ensures |FromHex(t)| == |t| / 2
    decreases |t|
  {
    if t != "" { HexSize(t[2..]); }
  }

  lemma CodeIsKey(code: string)
    ensures DecodeRecoveryCode(code).Some? ==> |DecodeRecoveryCode(code).value| == KEY_SIZE
  {
    if DecodeRecoveryCode(code).Some? { HexSize(Digits(code[|PREFIX|..])); }
  }

  /**
   The password opens what it closed, and so does the recovery code, with the same entry name
   and manifest, exactly when there was something to encrypt.
   */
  lemma EntryOpensWithEither(s: Suite, plaintext: Bytes, entryName: string, m: Manifest, password: string,
                             includeRecovery: bool, code: string, cek: Bytes, salt: Bytes, iv: Bytes, random: Bytes)
    requires Lawful(s) && |cek| == 32 && |random| == 32
    requires Encrypt(s, plaintext, entryName, m, password, includeRecovery, code, cek, salt, iv, random).Some?
    ensures var e := Encrypt(s, plaintext, entryName, m, password, includeRecovery, code, cek, salt, iv, random).value;
            && (Decrypt(s, e, entryName, m, password, "") == Octets.Some(plaintext) <==> plaintext != [])
            && (includeRecovery && code != "" ==>
                 (Decrypt(s, e, entryName, m, "", code) == Octets.Some(plaintext) <==> plaintext != []))
  {
    hide Wrapped, Unwrapped, DecodeRecoveryCode;
    KeyComesBack(s, s.passwordKey(password, salt), cek);
    var aad := s.utf8(Aad(entryName, m));
    assert s.open(cek, iv, aad, s.seal(cek, iv, aad, plaintext)) == Octets.Some(plaintext);
    assert |s.seal(cek, iv, aad, plaintext).ciphertext| == |plaintext|;
    CodeIsKey(code);
    SlotNamesDiffer();
    if includeRecovery && code != "" {
      var key := RecoveryKey(s, code, random).value;
      KeyComesBack(s, key, cek);
      var e := Encrypt(s, plaintext, entryName, m, password, includeRecovery, code, cek, salt, iv, random).value;
      assert e.slots[1..] == [e.slots[1]];
      assert FindSlot(e.slots, RECOVERY) == Octets.Some(e.slots[1]);
    }
  }

  lemma KeyComesBack(s: Suite, key: Bytes, cek: Bytes)
    requires Lawful(s) && |key| == 32 && |cek| == 32
    ensures |Wrapped(s.block, key, cek)| == 40 && Unwrapped(s.block, key, Wrapped(s.block, key, cek)) == Done(cek)
  {
    UnwrapOfWrap(s.block, key, cek);
  }

  lemma SlotNamesDiffer()
    ensures PASSWORD != RECOVERY
  {
    assert PASSWORD[0] != RECOVERY[0];
  }
}
