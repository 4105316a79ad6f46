/** How `JSON.stringify` writes strings that are not well formed: unit by unit, with unpaired surrogates escaped. */
module StableSpellings {
  import opened JsonValues
  import opened JsonPrinter
  import opened StableJson
  import JsonSpellings

  /** A half of a pair whose other half is next to it. */
  ghost predicate IsPaired(t: Text, i: nat)
    requires i < |t|
  {
    (IsHigh(t[i]) && i + 1 < |t| && IsLow(t[i + 1])) || (IsLow(t[i]) && i > 0 && IsHigh(t[i - 1]))
  }

  ghost function Digit(n: nat): Unit
    requires n < 16
  {
    JsonSpellings.SMALL_HEX[n] as int
  }

  /** `\u` and four small hexadecimal digits, the highest first. */
  ghost function Escape4(u: Unit): Text {
    ['\\' as int, 'u' as int, Digit(u / 0x1000), Digit(u % 0x1000 / 0x100), Digit(u % 0x100 / 0x10), Digit(u % 0x10)]
  }

  /** What is written for each unit: an escape for an unpaired surrogate, and for any other what the canonical form has. */
  ghost function Written(t: Text, i: nat): Text
    requires i < |t|
  {
    if (IsHigh(t[i]) || IsLow(t[i])) && !IsPaired(t, i) then Escape4(t[i]) else Escape(t[i])
  }

  /** The units from `i` on. */
  ghost function WrittenFrom(t: Text, i: nat): Text
    requires i <= |t|
    decreases |t| - i
  {
    if i == |t| then [] else Written(t, i) + WrittenFrom(t, i + 1)
  }

  lemma HexTextIs(u: Unit)
    ensures HexText(u) == Escape4(u)
  {
    hide HexLetter, Digit;
    LetterIs(u / 0x1000);
    LetterIs(u % 0x1000 / 0x100);
    LetterIs(u % 0x100 / 0x10);
    LetterIs(u % 0x10);
    DigitsAre(u);
  }

  lemma DigitsAre(u: Unit)
    ensures u / 0x100 % 16 == u % 0x1000 / 0x100 && u / 16 % 16 == u % 0x100 / 0x10
  {
    var a, b, c := u / 0x1000, u % 0x1000, u % 0x100;
    assert u == 0x1000 * a + b && b / 0x100 < 16 && u / 0x100 == 16 * a + b / 0x100;
    assert u == 0x100 * (u / 0x100) + c && u / 16 == 16 * (u / 0x100) + c / 16;
  }

  lemma LetterIs(n: nat)
    requires n < 16
    ensures HexLetter(n) == Digit(n)
  {
  }

  /** Whatever stands before, unless it is the first half of a pair. */
  lemma {:induction false} UnitsAreWritten(t: Text, i: nat)
    requires i <= |t| && (0 < i < |t| ==> !(IsHigh(t[i - 1]) && IsLow(t[i])))
    ensures WrittenUnits(t[i..]) == WrittenFrom(t, i)
    decreases |t| - i
  {
    hide Escape, HexText, Escape4;
    if i < |t| {
      var rest := t[i..];
      if IsHigh(t[i]) && i + 1 < |t| && IsLow(t[i + 1]) {
        PairIsWritten(t[i], t[i + 1]);
        UnitsAreWritten(t, i + 2);
        assert rest[2..] == t[i + 2..];
        assert WrittenFrom(t, i + 1) == [t[i + 1]] + WrittenFrom(t, i + 2);
      } else {
        UnitsAreWritten(t, i + 1);
        assert rest[1..] == t[i + 1..];
        HexTextIs(t[i]);
      }
    }
  }

  lemma PairIsWritten(high: Unit, low: Unit)
    requires IsHigh(high) && IsLow(low)
    ensures Escape(high) == [high] && Escape(low) == [low]
  {
  }

  /** A string is written unit by unit, in quotes. */
  lemma StringsAreWritten(t: Text)
    ensures StringText(t) == ['"' as int] + WrittenFrom(t, 0) + ['"' as int]
  {
    UnitsAreWritten(t, 0);
    assert t[0..] == t;
  }

  lemma {:induction false} ScalarSum(a: Text, b: Text)
    requires ScalarText(a) && ScalarText(b)
    ensures ScalarText(a + b)
    decreases |a|
  {
    if a == [] {
      assert a + b == b;
    } else if IsHigh(a[0]) {
      assert (a + b)[2..] == a[2..] + b;
      ScalarSum(a[2..], b);
    } else {
      assert (a + b)[1..] == a[1..] + b;
      ScalarSum(a[1..], b);
    }
  }

  /** What is written is always well formed. */
  lemma {:induction false} WrittenIsWellFormed(t: Text)
    ensures ScalarText(WrittenUnits(t))
    decreases |t|
  {
    if t == [] {
    } else if IsHigh(t[0]) && |t| > 1 && IsLow(t[1]) {
      WrittenIsWellFormed(t[2..]);
      ScalarSum([t[0], t[1]], WrittenUnits(t[2..]));
    } else {
      WrittenIsWellFormed(t[1..]);
      var first := if IsHigh(t[0]) || IsLow(t[0]) then HexText(t[0]) else Escape(t[0]);
      FirstIsWellFormed(t[0]);
      ScalarSum(first, WrittenUnits(t[1..]));
    }
  }

  lemma FirstIsWellFormed(u: Unit)
    ensures ScalarText(HexText(u)) && (!IsHigh(u) && !IsLow(u) ==> ScalarText(Escape(u)))
  {
    AsciiIsScalar(HexText(u));
    if Escape(u) != [u] { AsciiIsScalar(Escape(u)); }
  }
}
