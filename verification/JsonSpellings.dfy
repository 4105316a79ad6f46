/**
 How strings can be written. Of all the ways to write a string, RFC 8785 takes the shortest
 one, with small hexadecimal letters: that is what the printer writes.
 */
module JsonSpellings {
  import opened JsonValues
  import opened JsonGrammar
  import JsonParser
  import opened JsonPrinter
  import JsonRoundTrip

  // ---- The characters of the grammar ----------------------------------------------------------

  const SPACES := " \t\n\r"
  const SMALL_HEX := "0123456789abcdef"
  const CAPITAL_HEX := "0123456789ABCDEF"
  const LETTERS := "\"\\/bfnrt"
  const MEANT: seq<Unit> := [0x22, 0x5c, 0x2f, 0x08, 0x0c, 0x0a, 0x0d, 0x09]

  /** The white space of section 2 of RFC 8259. */
  lemma SpacesOfTheGrammar(u: Unit)
    ensures IsSpace(u) <==> exists k | 0 <= k < |SPACES| :: SPACES[k] as int == u
  {
    if IsSpace(u) {
      var k := if u == 0x20 then 0 else if u == 0x09 then 1 else if u == 0x0a then 2 else 3;
      assert SPACES[k] as int == u;
    }
  }

  /** Hexadecimal digits and their values. */
  lemma DigitsOfTheGrammar(u: Unit)
    ensures IsHex(u) <==> exists k | 0 <= k < 16 :: SMALL_HEX[k] as int == u || CAPITAL_HEX[k] as int == u
    ensures forall k | 0 <= k < 16 && (SMALL_HEX[k] as int == u || CAPITAL_HEX[k] as int == u) :: IsHex(u) && HexDigit(u) == k
  {
    if IsHex(u) {
      var k := HexDigit(u);
      assert SMALL_HEX[k] as int == u || CAPITAL_HEX[k] as int == u;
    }
  }

  /** The letters behind a backslash, and what they stand for, by section 7 of RFC 8259. */
  lemma LettersOfTheGrammar(u: Unit)
    ensures IsSimple(u) <==> exists k | 0 <= k < 8 :: LETTERS[k] as int == u
    ensures forall k | 0 <= k < 8 && LETTERS[k] as int == u :: SimpleEscape(u) == MEANT[k]
  {
    if IsSimple(u) {
      var k := if u == 0x22 then 0 else if u == 0x5c then 1 else if u == 0x2f then 2 else if u == 0x62 then 3
               else if u == 0x66 then 4 else if u == 0x6e then 5 else if u == 0x72 then 6 else 7;
      assert LETTERS[k] as int == u;
    }
  }

  // ---- Shortest spellings ----------------------------------------------------------------------

  /** No escape of four digits here has a capital letter. */
  ghost predicate IsSmall(s: Text, i: nat, kinds: seq<Kind>)
    decreases |kinds|
  {
    kinds != [] ==>
      && (kinds[0].Hex? || kinds[0].HexPair? ==> forall k | i <= k < i + Width(kinds[0]) && k < |s| :: !(0x41 <= s[k] <= 0x46))
      && IsSmall(s, i + Width(kinds[0]), kinds[1..])
  }

  /** What stands for one character, or pair, is at least as long as what the printer writes for it. */
  lemma KindIsNoShorter(s: Text, i: nat, k: Kind)
    requires SpellsKind(s, i, k)
    ensures |Escaped(KindMeaning(s, i, k))| <= Width(k)
    ensures s[i..i + Width(k)] == Escaped(KindMeaning(s, i, k)) <==>
              |Escaped(KindMeaning(s, i, k))| == Width(k) && IsSmall(s, i, [k])
  {
    var t := KindMeaning(s, i, k);
    match k
    case Raw => OneEscaped(t[0]);
    case Simple =>
      OneEscaped(t[0]);
      assert s[i..i + 2] == [s[i], s[i + 1]];
    case Hex =>
      OneEscaped(t[0]);
      HexIsNoShorter(s, i);
    case RawPair => TwoEscaped(t[0], t[1]);
    case HexPair => TwoEscaped(t[0], t[1]);
  }

  lemma OneEscaped(u: Unit)
    ensures Escaped([u]) == Escape(u)
  {
    assert Escape(u) + [] == Escape(u);
  }

  lemma TwoEscaped(high: Unit, low: Unit)
    requires IsHigh(high) && IsLow(low)
    ensures Escaped([high, low]) == [high, low]
  {
    assert [high, low][1..] == [low];
    OneEscaped(low);
  }

  lemma HexIsNoShorter(s: Text, i: nat)
    requires EscapedUnit(s, i)
    ensures |Escape(UnitOf(s, i))| <= 6
    ensures s[i..i + 6] == Escape(UnitOf(s, i)) <==> |Escape(UnitOf(s, i))| == 6 && IsSmall(s, i, [Hex])
  {
    var u, t := UnitOf(s, i), Escape(UnitOf(s, i));
    var d := s[i + 2..i + 6];
    if s[i..i + 6] == t {
      forall k | i <= k < i + 6 ensures !(0x41 <= s[k] <= 0x46) {
        assert s[k] == t[k - i];
      }
    }
    if |t| == 6 && IsSmall(s, i, [Hex]) {
      assert u < 0x20;
      forall k | 0 <= k < 4 ensures d[k] == HexLetter(HexDigit(d[k])) {
        assert d[k] == s[i + 2 + k] && IsHex(d[k]);
      }
      assert HexDigit(d[0]) == 0 && HexDigit(d[1]) == 0 && HexDigit(d[2]) == u / 16 && HexDigit(d[3]) == u % 16;
      assert s[i..i + 6] == [s[i], s[i + 1], d[0], d[1], d[2], d[3]];
    }
  }

  lemma {:induction false} EscapedSum(a: Text, b: Text)
    ensures Escaped(a + b) == Escaped(a) + Escaped(b)
  {
    if a == [] {
      assert a + b == b;
    } else {
      assert (a + b)[1..] == a[1..] + b;
      EscapedSum(a[1..], b);
    }
  }

  /**
   Whatever spells a text as a string, up to its closing quote, is at least as long as what
   the printer writes; it is what the printer writes exactly when it is as short and has no
   capital letter in its escapes.
   */
  lemma {:induction false} PrintedIsShortest(s: Text, i: nat, kinds: seq<Kind>, to: nat)
    requires SpellsUnits(s, i, kinds, to)
    ensures i < to <= |s|
    ensures var t := Escaped(Units(s, i, kinds, to)) + [QUOTE];
            |t| <= to - i && (s[i..to] == t <==> |t| == to - i && IsSmall(s, i, kinds))
    decreases |kinds|
  {
    hide KindMeaning, SpellsKind, Escaped;
    if kinds == [] {
      NothingEscaped();
      assert s[i..to] == [QUOTE];
    } else {
      var k, rest, next := kinds[0], kinds[1..], i + Width(kinds[0]);
      var first, others := KindMeaning(s, i, k), Units(s, next, rest, to);
      KindIsNoShorter(s, i, k);
      PrintedIsShortest(s, next, rest, to);
      EscapedSum(first, others);
      SmallParts(s, i, kinds);
      TwoParts(s, i, next, to, Escaped(first), Escaped(others) + [QUOTE]);
      assert Escaped(first) + Escaped(others) + [QUOTE] == Escaped(first) + (Escaped(others) + [QUOTE]);
    }
  }

  lemma NothingEscaped()
    ensures Escaped([]) == []
  {
  }

  lemma TwoParts(s: Text, i: nat, next: nat, to: nat, a: Text, b: Text)
    requires i <= next <= to <= |s| && |a| <= next - i && |b| <= to - next
    ensures s[i..to] == a + b <==> s[i..next] == a && s[next..to] == b
  {
    assert s[i..to] == s[i..next] + s[next..to];
    if s[i..to] == a + b {
      assert s[i..next] == s[i..to][..next - i] == a && s[next..to] == s[i..to][next - i..] == b;
    }
  }

  lemma SmallParts(s: Text, i: nat, kinds: seq<Kind>)
    requires kinds != []
    ensures IsSmall(s, i, kinds) <==> IsSmall(s, i, [kinds[0]]) && IsSmall(s, i + Width(kinds[0]), kinds[1..])
  {
    assert [kinds[0]][1..] == [];
  }

  /** So among all ways to write a text, the printer's is the shortest with small letters, and the only one. */
  lemma PrintedIsTheShortest(t: Text, s: Text, kinds: seq<Kind>) returns (own: seq<Kind>)
    requires ScalarText(t) && SpellsUnits(s, 0, kinds, |s|) && Units(s, 0, kinds, |s|) == t
    ensures var p := Escaped(t) + [QUOTE];
            && SpellsUnits(p, 0, own, |p|) && Units(p, 0, own, |p|) == t && IsSmall(p, 0, own)
            && |p| <= |s| && (s == p <==> |s| == |p| && IsSmall(s, 0, kinds))
  {
    var p := Escaped(t) + [QUOTE];
    assert p[0..|p|] == p && s[0..|s|] == s;
    own := JsonRoundTrip.UnitsPrinted(p, 0, t);
    PrintedIsShortest(p, 0, own, |p|);
    PrintedIsShortest(s, 0, kinds, |s|);
  }

  /** The three names, and the marks of the structure: sections 2 and 3 of RFC 8259. */
  lemma WordsOfTheGrammar()
    ensures JsonParser.TRUE == Ascii("true") && JsonParser.FALSE == Ascii("false") && JsonParser.NULL == Ascii("null")
    ensures [OPEN_BRACKET, OPEN_BRACE, CLOSE_BRACKET, CLOSE_BRACE, COLON, COMMA] == Ascii("[{]}:,")
    ensures [QUOTE, BACKSLASH, SLASH, SMALL_U] == Ascii("\"\\/u") && [MINUS, PLUS, DOT, ZERO] == Ascii("-+.0")
  {
  }

  // ---- Numbers ------------------------------------------------------------------------------------

  /** What the grammar of numbers demands of their integer parts. */
  ghost predicate NoLeadingZero(digits: Text) { digits != [] && (digits[0] == '0' as int ==> |digits| == 1) }

  lemma {:induction false} DigitsAreTheText(digits: Text)
    requires AllDigits(digits) && NoLeadingZero(digits)
    ensures digits == NatText(DigitsValue(digits)) && (digits[0] != '0' as int ==> DigitsValue(digits) > 0)
    decreases |digits|
  {
    var front, last := digits[..|digits| - 1], digits[|digits| - 1];
    assert IsDigit(last) && digits == front + [last];
    if front == [] {
      assert DigitsValue(front) == 0;
    } else {
      assert front[0] == digits[0];
      DigitsAreTheText(front);
    }
  }

  /** A lexeme is an integer exactly when it is the text of a safe one; minus zero is none. */
  lemma IntegersOfTheGrammar(t: Text, n: int)
    requires NoLeadingZero(if t != [] && t[0] == '-' as int then t[1..] else t)
    ensures Convert(t) == Integer(n) <==> t == IntText(n) && -9007199254740991 <= n <= 9007199254740991
  {
    hide NatText, DigitsValue;
    var digits := if t != [] && t[0] == MINUS then t[1..] else t;
    if AllDigits(digits) {
      DigitsAreTheText(digits);
      assert digits != t ==> t == [MINUS] + digits;
      assert NatText(0) == [ZERO] by { ZeroText(); }
    }
    if -MAX_SAFE_INTEGER <= n <= MAX_SAFE_INTEGER { IntTextConverts(n); }
  }

  lemma ZeroText()
    ensures NatText(0) == [ZERO]
  {
  }
}
