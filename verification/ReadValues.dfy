/** The JSON-domain values of the Read boundary: identifiers, safe integers, digests and fixed-width counts. */
module ReadValues {
  import opened JsonValues
  import opened JsonPrinter

  /** Bytes of the UTF-8 encoding; the two halves of a pair make four. */
  function Utf8Size(t: Text): nat {
    if t == [] then 0 else UnitSize(t[0]) + Utf8Size(t[1..])
  }

  function UnitSize(u: Unit): nat {
    if u < 0x80 then 1 else if u < 0x800 || IsHigh(u) || IsLow(u) then 2 else 3
  }

  predicate IsControl(u: Unit) { u <= 31 || 127 <= u <= 159 }

  predicate Identifier(t: Text) {
    t != [] && ScalarText(t) && Utf8Size(t) <= 256 && forall k | 0 <= k < |t| :: !IsControl(t[k])
  }

  predicate Uint(n: int) { 0 <= n <= MAX_SAFE_INTEGER }

  predicate IsLowerHex(u: Unit) { IsDigit(u) || 0x61 <= u <= 0x66 }

  const SHA256: Text := [0x73, 0x68, 0x61, 0x32, 0x35, 0x36, COLON]

  /** `sha256:[0-9a-f]{64}` */
  predicate IsDigest(t: Text) {
    |t| == |SHA256| + 64 && t[..|SHA256|] == SHA256 && forall k | |SHA256| <= k < |t| :: IsLowerHex(t[k])
  }

  const HYPHEN: Unit := 0x2d

  /** A UUID in lower-case hexadecimal. */
  predicate IsUuid(t: Text) {
    |t| == 36 && forall k | 0 <= k < 36 :: if k in {8, 13, 18, 23} then t[k] == HYPHEN else IsLowerHex(t[k])
  }

  const SNAPSHOT: Text := [0x73, 0x6e, 0x61, 0x70, 0x73, 0x68, 0x6f, 0x74, COLON]

  /** `snapshot:` and a UUID */
  predicate IsSnapshotId(t: Text) { SNAPSHOT <= t && IsUuid(t[|SNAPSHOT|..]) }

  predicate Distinct<T(==)>(items: seq<T>) { forall j, k | 0 <= j < k < |items| :: items[j] != items[k] }

  // ---- Fixed-width counts ---------------------------------------------------------

  const WIDTH := 16

  function Zeros(n: nat): (t: Text)
    ensures |t| == n && AllDigits(t) && DigitsValue(t) == 0
  {
    if n == 0 then [] else
      var front := Zeros(n - 1);
      var t := front + [ZERO];
      assert t[..|t| - 1] == front;
      t
  }

  function Pow10(n: nat): nat { if n == 0 then 1 else 10 * Pow10(n - 1) }

  lemma {:induction false} NatTextWidth(n: nat, width: nat)
    requires n < Pow10(width) && width > 0
    ensures |NatText(n)| <= width
    decreases n
  {
    if n >= 10 { NatTextWidth(n / 10, width - 1); }
  }

  lemma {:induction false} LargeNumbersAreWider(n: nat, width: nat)
    requires Pow10(width) <= n
    ensures width < |NatText(n)|
    decreases width
  {
    if width > 0 { LargeNumbersAreWider(n / 10, width - 1); }
  }

  lemma {:induction false} LeadingZeros(zeros: nat, t: Text)
    requires AllDigits(t)
    ensures AllDigits(Zeros(zeros) + t) && DigitsValue(Zeros(zeros) + t) == DigitsValue(t)
    decreases t
  {
    var padded := Zeros(zeros) + t;
    if t == [] {
      assert padded == Zeros(zeros);
    } else {
      LeadingZeros(zeros, t[..|t| - 1]);
      assert padded[..|padded| - 1] == Zeros(zeros) + t[..|t| - 1];
    }
  }

  lemma FourMore(n: nat)
    ensures Pow10(n + 4) == 10000 * Pow10(n)
  {
    assert Pow10(n + 4) == 10 * Pow10(n + 3) && Pow10(n + 3) == 10 * Pow10(n + 2);
    assert Pow10(n + 2) == 10 * Pow10(n + 1) && Pow10(n + 1) == 10 * Pow10(n);
  }

  lemma SafeIntegersFit(n: nat)
    requires Uint(n)
    ensures n < Pow10(WIDTH)
  {
    FourMore(0);
    FourMore(4);
    FourMore(8);
    FourMore(12);
  }

  /** A count in sixteen digits, which hold every safe integer. */
  function Fixed(n: nat): (t: Text)
    requires Uint(n)
    ensures |t| == WIDTH && AllDigits(t) && DigitsValue(t) == n
  {
    SafeIntegersFit(n);
    NatTextWidth(n, WIDTH);
    LeadingZeros(WIDTH - |NatText(n)|, NatText(n));
    Zeros(WIDTH - |NatText(n)|) + NatText(n)
  }

  // ---- Serialized size ---------------------------------------------------------------

  /** Bytes of the canonical text. */
  ghost function Size(v: Value): nat
    requires Plain(v)
  {
    Utf8Size(Print(v))
  }

  lemma {:induction false} SizeOfParts(a: Text, b: Text)
    ensures Utf8Size(a + b) == Utf8Size(a) + Utf8Size(b)
  {
    if a == [] {
      assert a + b == b;
    } else {
      assert (a + b)[1..] == a[1..] + b;
      SizeOfParts(a[1..], b);
    }
  }

  lemma {:induction false} SizeOfDigits(t: Text)
    requires AllDigits(t)
    ensures Utf8Size(Quoted(t)) == |t| + 2
  {
    DigitsAreNotEscaped(t);
    assert Quoted(t) == ([QUOTE] + t) + [QUOTE] && ([QUOTE] + t)[1..] == t;
    SizeOfParts([QUOTE] + t, [QUOTE]);
  }

  lemma {:induction false} DigitsAreNotEscaped(t: Text)
    requires AllDigits(t)
    ensures Escaped(t) == t && Utf8Size(t) == |t|
  {
    if t != [] {
      DigitsAreNotEscaped(t[1..]);
      assert Escape(t[0]) == [t[0]];
      assert t == [t[0]] + t[1..];
    }
  }

  ghost predicate SameSizes(a: seq<Text>, b: seq<Text>) {
    |a| == |b| && forall k | 0 <= k < |a| :: Utf8Size(a[k]) == Utf8Size(b[k])
  }

  lemma {:induction false} SizeOfJoined(a: seq<Text>, b: seq<Text>)
    requires SameSizes(a, b)
    ensures Utf8Size(Joined(a)) == Utf8Size(Joined(b))
  {
    if |a| > 1 {
      SizeOfJoined(a[1..], b[1..]);
      forall t | t == a || t == b ensures Utf8Size(Joined(t)) == Utf8Size(t[0]) + 1 + Utf8Size(Joined(t[1..])) {
        SizeOfParts(t[0] + [COMMA], Joined(t[1..]));
        SizeOfParts(t[0], [COMMA]);
      }
    }
  }

  /** Replacing a member by one of the same size keeps the size of the object. */
  lemma SizeOfMember(members: map<Text, Value>, name: Text, a: Value, b: Value)
    requires Plain(Obj(members[name := a])) && Plain(Obj(members[name := b]))
    requires Plain(a) && Plain(b) && Size(a) == Size(b)
    ensures Size(Obj(members[name := a])) == Size(Obj(members[name := b]))
  {
    hide Print, Ordered;
    var v, w := Obj(members[name := a]), Obj(members[name := b]);
    var s, t := MemberTexts(v), MemberTexts(w);
    var keys := Ordered(v.members.Keys);
    assert v.members.Keys == w.members.Keys;
    forall k | 0 <= k < |keys| ensures Utf8Size(s[k]) == Utf8Size(t[k]) {
      SizeOfParts(Quoted(keys[k]) + [COLON], Print(v.members[keys[k]]));
      SizeOfParts(Quoted(keys[k]) + [COLON], Print(w.members[keys[k]]));
    }
    SizeOfJoined(s, t);
    SizeOfObject(v);
    SizeOfObject(w);
  }

  lemma SizeOfObject(v: Value)
    requires v.Obj? && Plain(v)
    ensures Size(v) == 2 + Utf8Size(Joined(MemberTexts(v)))
  {
    hide MemberTexts, Joined;
    SizeOfParts([OPEN_BRACE] + Joined(MemberTexts(v)), [CLOSE_BRACE]);
    SizeOfParts([OPEN_BRACE], Joined(MemberTexts(v)));
  }
}
