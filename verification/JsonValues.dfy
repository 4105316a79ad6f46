/**
 JSON text, as sequences of UTF-16 code units, and the values it stands for.
 A number keeps its integer when it is a safe one, and its lexeme otherwise:
 conversion to floating point is not part of this model.
 */
module JsonValues {
  type Unit = n: int | 0 <= n < 0x1_0000
  type Text = seq<Unit>

  datatype Number = Integer(n: int) | Other(lexeme: Text)

  datatype Value =
    | Null
    | Bool(b: bool)
    | Num(number: Number)
    | Str(text: Text)
    | Arr(items: seq<Value>)
    | Obj(members: map<Text, Value>)

  const QUOTE: Unit := 0x22
  const PLUS: Unit := 0x2b
  const COMMA: Unit := 0x2c
  const MINUS: Unit := 0x2d
  const DOT: Unit := 0x2e
  const SLASH: Unit := 0x2f
  const ZERO: Unit := 0x30
  const COLON: Unit := 0x3a
  const OPEN_BRACKET: Unit := 0x5b
  const BACKSLASH: Unit := 0x5c
  const CLOSE_BRACKET: Unit := 0x5d
  const SMALL_U: Unit := 0x75
  const OPEN_BRACE: Unit := 0x7b
  const CLOSE_BRACE: Unit := 0x7d

  const MAX_SAFE_INTEGER := 0x1f_ffff_ffff_ffff

  predicate IsSpace(u: Unit) { u == 0x20 || u == 0x0a || u == 0x0d || u == 0x09 }

  predicate IsDigit(u: Unit) { 0x30 <= u <= 0x39 }

  predicate IsHex(u: Unit) { IsDigit(u) || 0x41 <= u <= 0x46 || 0x61 <= u <= 0x66 }

  predicate IsHigh(u: Unit) { 0xd800 <= u <= 0xdbff }

  predicate IsLow(u: Unit) { 0xdc00 <= u <= 0xdfff }

  function Ascii(s: string): (t: Text)
    requires forall k | 0 <= k < |s| :: s[k] < '\U{0080}'
    ensures |t| == |s| && forall k | 0 <= k < |s| :: t[k] == s[k] as int
  {
    seq(|s|, k requires 0 <= k < |s| => s[k] as int)
  }

  /** White space from `i` up to `j`. */
  ghost predicate Blank(s: Text, i: nat, j: nat) { i <= j <= |s| && forall k | i <= k < j :: IsSpace(s[k]) }

  /** Digits from `i` up to `j`. */
  ghost predicate Digits(s: Text, i: nat, j: nat) { i <= j <= |s| && forall k | i <= k < j :: IsDigit(s[k]) }

  predicate AllDigits(t: Text) { forall k | 0 <= k < |t| :: IsDigit(t[k]) }

  predicate AllHex(t: Text) { forall k | 0 <= k < |t| :: IsHex(t[k]) }

  function HexDigit(u: Unit): (n: nat)
    requires IsHex(u)
    ensures n < 16
  {
    if u <= 0x39 then u - 0x30 else if u <= 0x46 then u - 0x37 else u - 0x57
  }

  function HexValue(t: Text): Unit
    requires |t| == 4 && AllHex(t)
  {
    0x1000 * HexDigit(t[0]) + 0x100 * HexDigit(t[1]) + 0x10 * HexDigit(t[2]) + HexDigit(t[3])
  }

  /** The letters that may follow a backslash, and what they stand for. */
  function SimpleEscape(letter: Unit): (u: Unit)
    ensures u != 0 ==> !IsHigh(u) && !IsLow(u)
  {
    if letter == QUOTE || letter == BACKSLASH || letter == SLASH then letter
    else if letter == 0x62 then 0x08
    else if letter == 0x66 then 0x0c
    else if letter == 0x6e then 0x0a
    else if letter == 0x72 then 0x0d
    else if letter == 0x74 then 0x09
    else 0
  }

  predicate IsSimple(letter: Unit) { SimpleEscape(letter) != 0 }

  // ---- Numbers as text ------------------------------------------------------------

  function DigitsValue(t: Text): nat
    requires AllDigits(t)
  {
    if t == [] then 0 else 10 * DigitsValue(t[..|t| - 1]) + (t[|t| - 1] - ZERO)
  }

  function NatText(n: nat): (t: Text)
    ensures |t| > 0 && AllDigits(t) && DigitsValue(t) == n
    ensures t[0] == ZERO ==> t == [ZERO]
    decreases n
  {
    if n < 10 then [ZERO + n] else
      var front := NatText(n / 10);
      var t := front + [ZERO + n % 10];
      assert t[..|t| - 1] == front;
      t
  }

  function IntText(n: int): Text {
    if n < 0 then [MINUS] + NatText(-n) else NatText(n)
  }

  /** What a number lexeme stands for. */
  function Convert(t: Text): Number {
    var digits := if t != [] && t[0] == MINUS then t[1..] else t;
    if !AllDigits(digits) then Other(t)
    else
      var n := DigitsValue(digits);
      if n > MAX_SAFE_INTEGER || (n == 0 && digits != t) then Other(t)
      else if digits == t then Integer(n)
      else Integer(0 - n)
  }

  lemma IntTextConverts(n: int)
    requires -MAX_SAFE_INTEGER <= n <= MAX_SAFE_INTEGER
    ensures Convert(IntText(n)) == Integer(n)
  {
    var t := IntText(n);
    if n < 0 {
      assert t[1..] == NatText(-n);
      assert t[1..] != t;
    } else {
      assert IsDigit(t[0]);
    }
  }
}
