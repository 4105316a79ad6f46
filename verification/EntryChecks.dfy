/** What is read of a protected entry, and of a recovery code, and nothing else. */
module EntryChecks {
  import Octets = Bytes
  import opened KeyWrap
  import opened ProtectedEntry

  // ---- Recovery codes -------------------------------------------------------------------------

  const CAPITALS := "0123456789ABCDEF"

  /** The hexadecimal text of bytes, in capital letters. */
  ghost predicate IsHexOf(t: string, raw: Octets.Bytes) {
    && |t| == 2 * |raw|
    && forall k | 0 <= k < |raw| :: t[2 * k] == CAPITALS[raw[k] / 16] && t[2 * k + 1] == CAPITALS[raw[k] % 16]
  }

  lemma CapitalIs(c: char)
    requires IsHex(c)
    ensures UpperCase(c) == CAPITALS[DigitValue(c)]
  {
  }

  lemma CapitalsAreHex(n: nat, c: char)
    requires n < 16 && UpperCase(c) == CAPITALS[n]
    ensures IsHex(c) && DigitValue(c) == n
  {
  }

  lemma {:induction false} HexIsOf(t: string)
    requires |t| % 2 == 0 && forall k | 0 <= k < |t| :: IsHex(t[k])
    ensures IsHexOf(Upper(t), FromHex(t))
    decreases |t|
  {
    hide UpperCase, DigitValue;
    if t != "" {
      HexIsOf(t[2..]);
      CapitalIs(t[0]);
      CapitalIs(t[1]);
      var rest, raw := FromHex(t[2..]), FromHex(t);
      assert Upper(t)[2..] == Upper(t[2..]) && raw[1..] == rest;
      assert raw[0] / 16 == DigitValue(t[0]) && raw[0] % 16 == DigitValue(t[1]);
      forall k | 0 <= k < |raw|
        ensures Upper(t)[2 * k] == CAPITALS[raw[k] / 16] && Upper(t)[2 * k + 1] == CAPITALS[raw[k] % 16]
      {
        if k > 0 {
          assert Upper(t)[2 * k] == Upper(t[2..])[2 * (k - 1)] && Upper(t)[2 * k + 1] == Upper(t[2..])[2 * (k - 1) + 1];
          assert raw[k] == rest[k - 1];
        }
      }
    }
  }

  lemma HexOfIsUnique(t: string, a: Octets.Bytes, b: Octets.Bytes)
    requires IsHexOf(t, a) && IsHexOf(t, b)
    ensures a == b
  {
    forall k | 0 <= k < |a| ensures a[k] == b[k] {
      SameCapital(a[k] / 16, b[k] / 16);
      SameCapital(a[k] % 16, b[k] % 16);
    }
  }

  lemma SameCapital(m: nat, n: nat)
    requires m < 16 && n < 16 && CAPITALS[m] == CAPITALS[n]
    ensures m == n
  {
    assert DigitValue(CAPITALS[m]) == m && DigitValue(CAPITALS[n]) == n;
  }

  /** A recovery code is a key exactly when what follows its prefix is, but for hyphens and letter case, the key's 64 digits. */
  lemma CodesAre(code: string, raw: Octets.Bytes)
    ensures DecodeRecoveryCode(code) == Octets.Some(raw) <==>
              && "kdna-recover-" <= code && |raw| == 32
              && IsHexOf(Upper(Digits(code[|"kdna-recover-"|..])), raw)
  {
    hide FromHex, Digits, IsHexOf, UpperCase, IsHex;
    if "kdna-recover-" <= code {
      var digits := Digits(code[|PREFIX|..]);
      if IsKeyText(digits) {
        HexIsOf(digits);
        HexSize(digits);
        if IsHexOf(Upper(digits), raw) { HexOfIsUnique(Upper(digits), raw, FromHex(digits)); }
      } else if |raw| == 32 && IsHexOf(Upper(digits), raw) {
        DigitsOfHexOf(digits, raw);
      }
    }
  }

  lemma DigitsOfHexOf(t: string, raw: Octets.Bytes)
    requires IsHexOf(Upper(t), raw)
    ensures |t| == 2 * |raw| && forall k | 0 <= k < |t| :: IsHex(t[k])
  {
    hide UpperCase;
    forall k | 0 <= k < |t| ensures IsHex(t[k]) {
      var n := if k % 2 == 0 then raw[k / 2] / 16 else raw[k / 2] % 16;
      assert k == 2 * (k / 2) || k == 2 * (k / 2) + 1;
      assert UpperCase(t[k]) == Upper(t)[k] == CAPITALS[n];
      CapitalsAreHex(n, t[k]);
    }
  }

  /** Hyphens are dropped, and nothing else. */
  lemma {:induction false} DigitsAre(t: string)
    ensures '-' !in Digits(t) && multiset(Digits(t)) == multiset(t)['-' := 0]
  {
    if t != "" {
      DigitsAre(t[1..]);
      assert t == [t[0]] + t[1..];
    }
  }

  // ---- Entries --------------------------------------------------------------------------------

  /** The first slot of this name wraps the content key under this key. */
  ghost predicate Unlocks(s: Suite, slots: seq<Slot>, name: string, key: Bytes, cek: Bytes)
    requires Lawful(s)
  {
    && |key| == 32 && |cek| == 32
    && exists k :: 0 <= k < |slots| && slots[k] == Slot(name, Wrapped(s.block, key, cek)) && forall j | 0 <= j < k :: slots[j].name != name
  }

  lemma {:induction false} FirstSlot(slots: seq<Slot>, name: string) returns (k: int)
    ensures FindSlot(slots, name).Some? ==>
              0 <= k < |slots| && slots[k] == FindSlot(slots, name).value && slots[k].name == name
              && forall j | 0 <= j < k :: slots[j].name != name
    ensures FindSlot(slots, name).None? ==> forall j | 0 <= j < |slots| :: slots[j].name != name
  {
    k := 0;
    if slots != [] && slots[0].name != name {
      var j := FirstSlot(slots[1..], name);
      k := j + 1;
    }
  }

  lemma SlotsUnlockExactly(s: Suite, e: Envelope, name: string, key: Bytes, cek: Bytes)
    requires Lawful(s) && |key| == 32
    ensures SlotKey(s, e, name, key) == Octets.Some(cek) <==> Unlocks(s, e.slots, name, key, cek)
  {
    hide Wrapped, Unwrapped;
    var k := FirstSlot(e.slots, name);
    if |cek| == 32 { KeyComesBack(s, key, cek); }
    if FindSlot(e.slots, name).Some? {
      var wrapped := e.slots[k].wrappedKey;
      if |wrapped| == 40 {
        UnwrappedSize(s, key, wrapped);
        if |cek| == 32 { UnwrapAcceptsExactly(s.block, key, wrapped, cek); }
      }
    }
  }

  lemma UnwrappedSize(s: Suite, key: Bytes, wrapped: Bytes)
    requires Lawful(s) && |key| == 32 && |wrapped| == 40
    ensures Unwrapped(s.block, key, wrapped).Done? ==> |Unwrapped(s.block, key, wrapped).value| == 32
  {
  }

  /** The password's slot, or without a password the recovery code's, has this content key. */
  ghost predicate HasKey(s: Suite, e: Envelope, password: string, code: string, cek: Bytes)
    requires Lawful(s)
  {
    if password != "" then Unlocks(s, e.slots, "password", s.passwordKey(password, e.salt), cek)
    else DecodeRecoveryCode(code).Some? && Unlocks(s, e.slots, "recovery", s.bytesOf(DecodeRecoveryCode(code).value), cek)
  }

  /** An entry is decrypted exactly with the secret of one of its slots, under its name and manifest, if it has any content. */
  lemma DecryptsExactly(s: Suite, e: Envelope, entryName: string, m: Manifest, password: string, code: string, plaintext: Bytes)
    requires Lawful(s) && OnlySealedOpens(s)
    ensures Decrypt(s, e, entryName, m, password, code) == Octets.Some(plaintext) <==>
              && entryName != "" && (password != "" || code != "") && e.sealed.ciphertext != []
              && e.header == Header("kdna.encryption.password", "0.1.0", "AES-256-GCM", "Argon2id", "AES-256-KW")
              && exists cek :: HasKey(s, e, password, code, cek) && e.sealed == s.seal(cek, e.iv, s.utf8(Aad(entryName, m)), plaintext)
  {
    hide Unlocks, SlotKey, DecodeRecoveryCode, Aad;
    var aad := s.utf8(Aad(entryName, m));
    CodeIsKey(code);
    forall cek ensures Key(s, e, password, code) == Octets.Some(cek) <==> HasKey(s, e, password, code, cek) {
      KeyIs(s, e, password, code, cek);
    }
    forall cek ensures s.open(cek, e.iv, aad, e.sealed) == Octets.Some(plaintext) <==> e.sealed == s.seal(cek, e.iv, aad, plaintext) {
    }
    hide HasKey;
    if Key(s, e, password, code).Some? { assert HasKey(s, e, password, code, Key(s, e, password, code).value); }
  }

  ghost function Key(s: Suite, e: Envelope, password: string, code: string): Octets.Option<Bytes>
    requires Lawful(s)
  {
    if password != "" then SlotKey(s, e, PASSWORD, s.passwordKey(password, e.salt)) else CodeKey(s, e, code)
  }

  lemma KeyIs(s: Suite, e: Envelope, password: string, code: string, cek: Bytes)
    requires Lawful(s)
    ensures Key(s, e, password, code) == Octets.Some(cek) <==> HasKey(s, e, password, code, cek)
  {
    hide Unlocks, SlotKey, DecodeRecoveryCode;
    CodeIsKey(code);
    if password != "" {
      SlotsUnlockExactly(s, e, PASSWORD, s.passwordKey(password, e.salt), cek);
    } else if DecodeRecoveryCode(code).Some? {
      SlotsUnlockExactly(s, e, RECOVERY, s.bytesOf(DecodeRecoveryCode(code).value), cek);
    }
  }

  /** An entry is encrypted into one slot for the password, and one for the recovery code or a random key, if it is to have one. */
  lemma EncryptsExactly(s: Suite, plaintext: Bytes, entryName: string, m: Manifest, password: string, includeRecovery: bool,
                        code: string, cek: Bytes, salt: Bytes, iv: Bytes, random: Bytes, e: Envelope)
    requires Lawful(s) && |cek| == 32 && |random| == 32
    ensures Encrypt(s, plaintext, entryName, m, password, includeRecovery, code, cek, salt, iv, random) == Octets.Some(e) <==>
              && entryName != "" && password != "" && (includeRecovery && code != "" ==> DecodeRecoveryCode(code).Some?)
              && e.header == Header("kdna.encryption.password", "0.1.0", "AES-256-GCM", "Argon2id", "AES-256-KW")
              && e.salt == salt && e.iv == iv && e.sealed == s.seal(cek, iv, s.utf8(Aad(entryName, m)), plaintext)
              && |e.slots| == (if includeRecovery then 2 else 1)
              && e.slots[0] == Slot("password", Wrapped(s.block, s.passwordKey(password, salt), cek))
              && (includeRecovery ==>
                   var key := RecoveryKey(s, code, random);
                   key.Some? && key.value == (if code == "" then random else s.bytesOf(DecodeRecoveryCode(code).value))
                   && e.slots[1] == Slot("recovery", Wrapped(s.block, key.value, cek)))
  {
    hide Wrapped, DecodeRecoveryCode, Aad;
    CodeIsKey(code);
    assert |e.slots| == 1 ==> e.slots == [e.slots[0]];
    assert |e.slots| == 2 ==> e.slots == [e.slots[0], e.slots[1]];
  }
}
