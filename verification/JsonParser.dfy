/**
 The strict JSON parser of the release scripts: one object that moves an index
 over its source. The functions say what each of its methods computes.
 */
module JsonParser {
  import opened JsonValues

  datatype Reason =
    | TrailingContent | NestingLimit | ExpectedValue
    | ExpectedName | DuplicateMember | ExpectedColon | ExpectedCommaOrBrace | UnterminatedObject
    | ExpectedCommaOrBracket | UnterminatedArray
    | ControlCharacter | UnpairedSurrogate | UnterminatedString | InvalidEscape | InvalidUnicodeEscape
    | InvalidNumber | NotFinite

  /** A value and the index behind it, or the reason to throw. */
  datatype Parsed<+T> = Ok(value: T, next: nat) | Rejected(reason: Reason)

  /** The nesting limit, and the host's conversion of lexemes: whether the result is finite. */
  datatype Rules = Rules(maxDepth: nat, finite: Text -> bool)

  const TRUE: Text := [0x74, 0x72, 0x75, 0x65]
  const FALSE: Text := [0x66, 0x61, 0x6c, 0x73, 0x65]
  const NULL: Text := [0x6e, 0x75, 0x6c, 0x6c]

  // ---- What the methods compute -------------------------------------------------

  function Skip(s: Text, i: nat): (j: nat)
    requires i <= |s|
    ensures i <= j <= |s|
    decreases |s| - i
  {
    if i < |s| && IsSpace(s[i]) then Skip(s, i + 1) else i
  }

  /** Past white space, a comma and white space. */
  function PastComma(s: Text, i: nat): (j: nat)
    requires i <= |s| && UnitAt(s, Skip(s, i), COMMA)
    ensures i < j <= |s|
  {
    Skip(s, Skip(s, i) + 1)
  }

  predicate StartsWith(s: Text, i: nat, word: Text) {
    i + |word| <= |s| && s[i..i + |word|] == word
  }

  predicate UnitAt(s: Text, i: nat, u: Unit) {
    i < |s| && s[i] == u
  }

  function DigitsEnd(s: Text, i: nat): (j: nat)
    requires i <= |s|
    ensures i <= j <= |s|
    decreases |s| - i
  {
    if i < |s| && IsDigit(s[i]) then DigitsEnd(s, i + 1) else i
  }

  /** `-?(?:0|[1-9][0-9]*)`, or nothing */
  function WholeEnd(s: Text, i: nat): (j: nat)
    requires i <= |s|
    ensures i <= j <= |s|
  {
    var start := if UnitAt(s, i, MINUS) then i + 1 else i;
    if UnitAt(s, start, ZERO) then start + 1
    else if DigitsEnd(s, start) == start then i
    else DigitsEnd(s, start)
  }

  /** `(?:\.[0-9]+)?` */
  function FractionEnd(s: Text, i: nat): (j: nat)
    requires i <= |s|
    ensures i <= j <= |s|
  {
    if UnitAt(s, i, DOT) && DigitsEnd(s, i + 1) > i + 1 then DigitsEnd(s, i + 1) else i
  }

  /** `(?:[eE][+-]?[0-9]+)?` */
  function ExponentEnd(s: Text, i: nat): (j: nat)
    requires i <= |s|
    ensures i <= j <= |s|
  {
    if !UnitAt(s, i, 0x65) && !UnitAt(s, i, 0x45) then i
    else
      var start := if UnitAt(s, i + 1, PLUS) || UnitAt(s, i + 1, MINUS) then i + 2 else i + 1;
      if DigitsEnd(s, start) > start then DigitsEnd(s, start) else i
  }

  function NumberEnd(s: Text, i: nat): (j: nat)
    requires i <= |s|
    ensures i <= j <= |s|
  {
    if WholeEnd(s, i) == i then i else ExponentEnd(s, FractionEnd(s, WholeEnd(s, i)))
  }

  ghost function ParseNumber(r: Rules, s: Text, i: nat): Parsed<Value>
    requires i <= |s|
  {
    var j := NumberEnd(s, i);
    if j == i then Rejected(InvalidNumber)
    else if !r.finite(s[i..j]) then Rejected(NotFinite)
    else Ok(Num(Convert(s[i..j])), j)
  }

  function ParseHex(s: Text, i: nat): (p: Parsed<Unit>)
    ensures p.Ok? ==> p.next == i + 4 <= |s|
  {
    if i + 4 <= |s| && AllHex(s[i..i + 4]) then Ok(HexValue(s[i..i + 4]), i + 4) else Rejected(InvalidUnicodeEscape)
  }

  /** The code point of a surrogate pair. */
  function CodePoint(high: Unit, low: Unit): nat
    requires IsHigh(high) && IsLow(low)
  {
    0x1_0000 + (high - 0xd800) * 0x400 + (low - 0xdc00)
  }

  /** `String.fromCodePoint`, for a supplementary code point. */
  function FromCodePoint(point: nat): Text
    requires 0x1_0000 <= point <= 0x10_ffff
  {
    [0xd800 + (point - 0x1_0000) / 0x400, 0xdc00 + (point - 0x1_0000) % 0x400]
  }

  /** At the unit behind a backslash. */
  function ParseEscape(s: Text, i: nat): (p: Parsed<Text>)
    ensures p.Ok? ==> i < p.next <= |s|
  {
    if i < |s| && IsSimple(s[i]) then Ok([SimpleEscape(s[i])], i + 1)
    else if !UnitAt(s, i, SMALL_U) then Rejected(InvalidEscape)
    else
      var first := ParseHex(s, i + 1);
      if first.Rejected? then Rejected(first.reason)
      else if IsHigh(first.value) then
        if !StartsWith(s, i + 5, [BACKSLASH, SMALL_U]) then Rejected(UnpairedSurrogate)
        else
          var second := ParseHex(s, i + 7);
          if second.Rejected? then Rejected(second.reason)
          else if !IsLow(second.value) then Rejected(UnpairedSurrogate)
          else Ok(FromCodePoint(CodePoint(first.value, second.value)), i + 11)
      else if IsLow(first.value) then Rejected(UnpairedSurrogate)
      else Ok([first.value], i + 5)
  }

  /** The rest of a string, behind its opening quote; `found` is what came before. */
  function ParseUnits(s: Text, i: nat, found: Text): (p: Parsed<Text>)
    ensures p.Ok? ==> i < p.next <= |s|
    decreases |s| - i
  {
    if i >= |s| then Rejected(UnterminatedString)
    else if s[i] == QUOTE then Ok(found, i + 1)
    else if s[i] == BACKSLASH then
      var escape := ParseEscape(s, i + 1);
      if escape.Rejected? then Rejected(escape.reason)
      else ParseUnits(s, escape.next, found + escape.value)
    else if s[i] <= 0x1f then Rejected(ControlCharacter)
    else if IsHigh(s[i]) then
      if i + 1 < |s| && !IsLow(s[i + 1]) then Rejected(UnpairedSurrogate)
      else if i + 1 >= |s| then Rejected(UnterminatedString)
      else ParseUnits(s, i + 2, found + s[i..i + 2])
    else if IsLow(s[i]) then Rejected(UnpairedSurrogate)
    else ParseUnits(s, i + 1, found + [s[i]])
  }

  /** A value that is not an object or an array, at its first unit. */
  ghost function ParseScalar(r: Rules, s: Text, i: nat): (p: Parsed<Value>)
    requires i <= |s|
    ensures p.Ok? ==> i < p.next <= |s|
  {
    if UnitAt(s, i, QUOTE) then
      var text := ParseUnits(s, i + 1, []);
      if text.Rejected? then Rejected(text.reason) else Ok(Str(text.value), text.next)
    else if i < |s| && (s[i] == MINUS || IsDigit(s[i])) then ParseNumber(r, s, i)
    else if StartsWith(s, i, TRUE) then Ok(Bool(true), i + 4)
    else if StartsWith(s, i, FALSE) then Ok(Bool(false), i + 5)
    else if StartsWith(s, i, NULL) then Ok(Null, i + 4)
    else Rejected(ExpectedValue)
  }

  ghost function ParseValue(r: Rules, s: Text, from: nat, depth: nat): (p: Parsed<Value>)
    requires from <= |s|
    ensures p.Ok? ==> from < p.next <= |s|
    decreases |s| - from, 1
  {
    var i := Skip(s, from);
    if UnitAt(s, i, OPEN_BRACE) then
      if depth >= r.maxDepth then Rejected(NestingLimit) else ParseObject(r, s, Skip(s, i + 1), depth + 1)
    else if UnitAt(s, i, OPEN_BRACKET) then
      if depth >= r.maxDepth then Rejected(NestingLimit) else ParseArray(r, s, Skip(s, i + 1), depth + 1)
    else ParseScalar(r, s, i)
  }

  ghost function ParseObject(r: Rules, s: Text, i: nat, depth: nat): (p: Parsed<Value>)
    requires i <= |s|
    ensures p.Ok? ==> i < p.next <= |s|
    decreases |s| - i, 4
  {
    if UnitAt(s, i, CLOSE_BRACE) then Ok(Obj(map[]), i + 1) else ParseMembers(r, s, i, depth, map[])
  }

  ghost function ParseArray(r: Rules, s: Text, i: nat, depth: nat): (p: Parsed<Value>)
    requires i <= |s|
    ensures p.Ok? ==> i < p.next <= |s|
    decreases |s| - i, 4
  {
    if UnitAt(s, i, CLOSE_BRACKET) then Ok(Arr([]), i + 1) else ParseItems(r, s, i, depth, [])
  }

  /** A member's name, which must be new, and the colon behind it. */
  ghost function ParseName(s: Text, i: nat, taken: map<Text, Value>): (p: Parsed<Text>)
    requires i <= |s|
    ensures p.Ok? ==> i < p.next <= |s|
  {
    if !UnitAt(s, i, QUOTE) then Rejected(ExpectedName)
    else
      var key := ParseUnits(s, i + 1, []);
      if key.Rejected? then Rejected(key.reason)
      else if key.value in taken then Rejected(DuplicateMember)
      else
        var colon := Skip(s, key.next);
        if !UnitAt(s, colon, COLON) then Rejected(ExpectedColon) else Ok(key.value, colon + 1)
  }

  /** One member, added to those before it. */
  ghost function ParseMember(r: Rules, s: Text, i: nat, depth: nat, found: map<Text, Value>)
    : (p: Parsed<map<Text, Value>>)
    requires i <= |s|
    ensures p.Ok? ==> i < p.next <= |s|
    decreases |s| - i, 2
  {
    var key := ParseName(s, i, found);
    if key.Rejected? then Rejected(key.reason)
    else
      var value := ParseValue(r, s, key.next, depth);
      if value.Rejected? then Rejected(value.reason) else Ok(found[key.value := value.value], value.next)
  }

  /** The loop of `object`: from a member's name on. */
  ghost function ParseMembers(r: Rules, s: Text, i: nat, depth: nat, found: map<Text, Value>): (p: Parsed<Value>)
    requires i <= |s|
    ensures p.Ok? ==> i < p.next <= |s|
    decreases |s| - i, 3
  {
    if i >= |s| then Rejected(UnterminatedObject)
    else
      var member := ParseMember(r, s, i, depth, found);
      if member.Rejected? then Rejected(member.reason)
      else
        var end := Skip(s, member.next);
        if UnitAt(s, end, CLOSE_BRACE) then Ok(Obj(member.value), end + 1)
        else if !UnitAt(s, end, COMMA) then Rejected(ExpectedCommaOrBrace)
        else ParseMembers(r, s, PastComma(s, member.next), depth, member.value)
  }

  /** The loop of `array`: from an item on. */
  ghost function ParseItems(r: Rules, s: Text, i: nat, depth: nat, found: seq<Value>): (p: Parsed<Value>)
    requires i <= |s|
    ensures p.Ok? ==> i < p.next <= |s|
    decreases |s| - i, 2
  {
    if i >= |s| then Rejected(UnterminatedArray)
    else
      var value := ParseValue(r, s, i, depth);
      if value.Rejected? then Rejected(value.reason)
      else
        var more, end := found + [value.value], Skip(s, value.next);
        if UnitAt(s, end, CLOSE_BRACKET) then Ok(Arr(more), end + 1)
        else if !UnitAt(s, end, COMMA) then Rejected(ExpectedCommaOrBracket)
        else ParseItems(r, s, PastComma(s, value.next), depth, more)
  }

  ghost function ParseDocument(r: Rules, s: Text): Parsed<Value> {
    var value := ParseValue(r, s, Skip(s, 0), 0);
    if value.Rejected? then value
    else
      var end := Skip(s, value.next);
      if end != |s| then Rejected(TrailingContent) else Ok(value.value, end)
  }

  // ---- The parser -----------------------------------------------------------------

  /** What a method returns or throws. */
  datatype Thrown<+T> = Returned(value: T) | Threw(reason: Reason)

  ghost predicate Agrees<T>(p: Parsed<T>, thrown: Thrown<T>, index: nat) {
    match p
    case Ok(value, next) => thrown == Returned(value) && index == next
    case Rejected(reason) => thrown == Threw(reason)
  }

  class DuplicateSafeJsonParser {
    const source: Text
    const rules: Rules
    var index: nat

    constructor (source: Text, rules: Rules)
      ensures this.source == source && this.rules == rules && index == 0
    {
      this.source, this.rules, this.index := source, rules, 0;
    }

    method Whitespace()
      requires index <= |source|
      modifies this
      ensures index == Skip(source, old(index))
    {
      while index < |source| && IsSpace(source[index])
        invariant index <= |source| && Skip(source, index) == Skip(source, old(index))
      {
        index := index + 1;
      }
    }

    method Parse() returns (thrown: Thrown<Value>)
      requires index == 0
      modifies this
      ensures Agrees(ParseDocument(rules, source), thrown, index)
    {
      Whitespace();
      thrown := ValueAt(0);
      if thrown.Threw? { return; }
      Whitespace();
      if index != |source| { return Threw(TrailingContent); }
    }

    method ValueAt(depth: nat) returns (thrown: Thrown<Value>)
      requires index <= |source|
      modifies this
      ensures Agrees(ParseValue(rules, source, old(index), depth), thrown, index)
      decreases |source| - index, 1
    {
      Whitespace();
      if UnitAt(source, index, OPEN_BRACE) || UnitAt(source, index, OPEN_BRACKET) {
        if depth >= rules.maxDepth { return Threw(NestingLimit); }
        if source[index] == OPEN_BRACE {
          thrown := ObjectAt(depth + 1);
        } else {
          thrown := ArrayAt(depth + 1);
        }
        return;
      }
      if UnitAt(source, index, QUOTE) {
        var text := StringAt();
        return if text.Threw? then Threw(text.reason) else Returned(Str(text.value));
      }
      if index < |source| && (source[index] == MINUS || IsDigit(source[index])) {
        thrown := NumberAt();
        return;
      }
      if StartsWith(source, index, TRUE) {
        index := index + |TRUE|;
        return Returned(Bool(true));
      }
      if StartsWith(source, index, FALSE) {
        index := index + |FALSE|;
        return Returned(Bool(false));
      }
      if StartsWith(source, index, NULL) {
        index := index + |NULL|;
        return Returned(Null);
      }
      return Threw(ExpectedValue);
    }

    method ObjectAt(depth: nat) returns (thrown: Thrown<Value>)
      requires index < |source|
      modifies this
      ensures var first := Skip(source, old(index) + 1);
              Agrees(ParseObject(rules, source, first, depth), thrown, index)
      decreases |source| - index, 0
    {
      var members: map<Text, Value> := map[];
      index := index + 1;
      Whitespace();
      if UnitAt(source, index, CLOSE_BRACE) {
        index := index + 1;
        return Returned(Obj(members));
      }
      ghost var start := index;
      while index < |source|
        invariant old(index) < start <= index <= |source|
        invariant ParseMembers(rules, source, index, depth, members) == ParseMembers(rules, source, start, depth, map[])
      {
        var more := MemberAt(depth, members);
        if more.Threw? { return Threw(more.reason); }
        members := more.value;
        Whitespace();
        if UnitAt(source, index, CLOSE_BRACE) {
          index := index + 1;
          return Returned(Obj(members));
        }
        if !UnitAt(source, index, COMMA) { return Threw(ExpectedCommaOrBrace); }
        index := index + 1;
        Whitespace();
      }
      return Threw(UnterminatedObject);
    }

    method MemberAt(depth: nat, members: map<Text, Value>) returns (thrown: Thrown<map<Text, Value>>)
      requires index < |source|
      modifies this
      ensures Agrees(ParseMember(rules, source, old(index), depth, members), thrown, index)
      decreases |source| - index, 2
    {
      var key := NameAt(members);
      if key.Threw? { return Threw(key.reason); }
      var value := ValueAt(depth);
      if value.Threw? { return Threw(value.reason); }
      return Returned(members[key.value := value.value]);
    }

    method NameAt(members: map<Text, Value>) returns (thrown: Thrown<Text>)
      requires index < |source|
      modifies this
      ensures Agrees(ParseName(source, old(index), members), thrown, index)
    {
      if source[index] != QUOTE { return Threw(ExpectedName); }
      thrown := StringAt();
      if thrown.Threw? { return; }
      if thrown.value in members { return Threw(DuplicateMember); }
      Whitespace();
      if !UnitAt(source, index, COLON) { return Threw(ExpectedColon); }
      index := index + 1;
    }

    method ArrayAt(depth: nat) returns (thrown: Thrown<Value>)
      requires index < |source|
      modifies this
      ensures var first := Skip(source, old(index) + 1);
              Agrees(ParseArray(rules, source, first, depth), thrown, index)
      decreases |source| - index, 0
    {
      var items: seq<Value> := [];
      index := index + 1;
      Whitespace();
      if UnitAt(source, index, CLOSE_BRACKET) {
        index := index + 1;
        return Returned(Arr(items));
      }
      ghost var start := index;
      while index < |source|
        invariant old(index) < start <= index <= |source|
        invariant ParseItems(rules, source, index, depth, items) == ParseItems(rules, source, start, depth, [])
      {
        var value := ValueAt(depth);
        if value.Threw? { return Threw(value.reason); }
        items := items + [value.value];
        Whitespace();
        if UnitAt(source, index, CLOSE_BRACKET) {
          index := index + 1;
          return Returned(Arr(items));
        }
        if !UnitAt(source, index, COMMA) { return Threw(ExpectedCommaOrBracket); }
        index := index + 1;
        Whitespace();
      }
      return Threw(UnterminatedArray);
    }

    method StringAt() returns (thrown: Thrown<Text>)
      requires index < |source|
      modifies this
      ensures Agrees(ParseUnits(source, old(index) + 1, []), thrown, index)
    {
      index := index + 1;
      var value: Text := [];
      while index < |source|
        invariant ParseUnits(source, index, value) == ParseUnits(source, old(index) + 1, [])
      {
        var unit := source[index];
        if unit == QUOTE {
          index := index + 1;
          return Returned(value);
        }
        if unit == BACKSLASH {
          index := index + 1;
          var escape := EscapeAt();
          if escape.Threw? { return Threw(escape.reason); }
          value := value + escape.value;
          continue;
        }
        if unit <= 0x1f { return Threw(ControlCharacter); }
        if IsHigh(unit) {
          if index + 1 < |source| && !IsLow(source[index + 1]) { return Threw(UnpairedSurrogate); }
          value := value + if index + 2 <= |source| then source[index..index + 2] else source[index..];
          index := index + 2;
          continue;
        }
        if IsLow(unit) { return Threw(UnpairedSurrogate); }
        value := value + [unit];
        index := index + 1;
      }
      return Threw(UnterminatedString);
    }

    method EscapeAt() returns (thrown: Thrown<Text>)
      modifies this
      ensures Agrees(ParseEscape(source, old(index)), thrown, index)
    {
      if index < |source| && IsSimple(source[index]) {
        thrown := Returned([SimpleEscape(source[index])]);
        index := index + 1;
        return;
      }
      if !UnitAt(source, index, SMALL_U) { return Threw(InvalidEscape); }
      index := index + 1;
      var first := HexAt();
      if first.Threw? { return Threw(first.reason); }
      if IsHigh(first.value) {
        if !StartsWith(source, index, [BACKSLASH, SMALL_U]) { return Threw(UnpairedSurrogate); }
        index := index + 2;
        var second := HexAt();
        if second.Threw? { return Threw(second.reason); }
        if !IsLow(second.value) { return Threw(UnpairedSurrogate); }
        return Returned(FromCodePoint(CodePoint(first.value, second.value)));
      }
      if IsLow(first.value) { return Threw(UnpairedSurrogate); }
      return Returned([first.value]);
    }

    method HexAt() returns (thrown: Thrown<Unit>)
      modifies this
      ensures Agrees(ParseHex(source, old(index)), thrown, index)
    {
      if !(index + 4 <= |source| && AllHex(source[index..index + 4])) { return Threw(InvalidUnicodeEscape); }
      thrown := Returned(HexValue(source[index..index + 4]));
      index := index + 4;
    }

    method NumberAt() returns (thrown: Thrown<Value>)
      requires index <= |source|
      modifies this
      ensures Agrees(ParseNumber(rules, source, old(index)), thrown, index)
    {
      var end := NumberEnd(source, index);
      if end == index { return Threw(InvalidNumber); }
      var lexeme := source[index..end];
      index := end;
      if !rules.finite(lexeme) { return Threw(NotFinite); }
      return Returned(Num(Convert(lexeme)));
    }
  }
}
