/** The texts that are versions: decimal numbers, identifiers and build metadata, written one after the other. */
module SemVerTexts {
  import opened Bytes
  import opened JsonValues
  import opened SemVer

  // ---- What is written ----------------------------------------------------------------------------

  ghost predicate AreUnits(t: Text, alphabet: Text) { forall k | 0 <= k < |t| :: t[k] in alphabet }

  ghost function DecimalDigits(): Text { Ascii("0123456789") }

  /** Item 9 of Semantic Versioning 2.0.0: ASCII letters and digits and hyphens. */
  ghost function Alphabet(): Text {
    DecimalDigits() + Ascii("ABCDEFGHIJKLMNOPQRSTUVWXYZ") + Ascii("abcdefghijklmnopqrstuvwxyz") + Ascii("-")
  }

  ghost predicate IsWord(t: Text) { t != [] && AreUnits(t, Alphabet()) }

  /** A word that, when it is of digits only, has no leading zero. */
  ghost predicate IsPrereleaseWord(t: Text) {
    IsWord(t) && (AreUnits(t, DecimalDigits()) ==> exists n: nat :: t == NatText(n))
  }

  /** What follows the core: nothing, or the mark and words with dots between them. */
  ghost function Part(mark: string, words: Option<seq<Text>>): Text
    requires |mark| == 1 && mark[0] < '\U{0080}'
  {
    if words.None? then [] else Ascii(mark) + WithDots(words.value)
  }

  ghost function CoreText(major: nat, minor: nat, patch: nat): Text {
    NatText(major) + Ascii(".") + NatText(minor) + Ascii(".") + NatText(patch)
  }

  ghost predicate AreWords(words: Option<seq<Text>>, isWord: Text -> bool) {
    words.Some? ==> words.value != [] && forall k | 0 <= k < |words.value| :: isWord(words.value[k])
  }

  /** The three numbers of a core, its prerelease and its build metadata. */
  datatype Written = Written(major: nat, minor: nat, patch: nat, prerelease: Option<seq<Text>>, build: Option<seq<Text>>) {
    ghost function AsText(): Text { CoreText(major, minor, patch) + Part("-", prerelease) + Part("+", build) }

    ghost function AsVersion(): Version {
      Version([NatText(major), NatText(minor), NatText(patch)],
              if prerelease.None? then None else Some(WithDots(prerelease.value)))
    }

    ghost predicate IsOf(isWord: Text -> bool) {
      (forall t | isWord(t) :: IsWord(t)) && AreWords(prerelease, isWord) && AreWords(build, (t: Text) => IsWord(t))
    }
  }

  // ---- Finding and splitting ------------------------------------------------------------------------

  lemma {:induction false} FoundFrom(a: Text, u: Unit, b: Text, i: nat)
    requires i <= |a| && forall k | i <= k < |a| :: a[k] != u
    ensures Find(a + [u] + b, i, u) == |a|
    decreases |a| - i
  {
    if i < |a| {
      assert (a + [u] + b)[i] == a[i];
      FoundFrom(a, u, b, i + 1);
    }
  }

  /** Words without dots are what the text is split into. */
  lemma {:induction false} SplitOfWords(words: seq<Text>)
    requires words != [] && forall w | w in words :: DOT !in w
    ensures Split(WithDots(words)) == words
  {
    if |words| == 1 {
      NoUnit(words[0], DOT);
    } else {
      var rest := WithDots(words[1..]);
      assert DOT !in words[0];
      FoundFrom(words[0], DOT, rest, 0);
      assert words == [words[0]] + words[1..];
      SplitOfWords(words[1..]);
      var t := words[0] + [DOT] + rest;
      assert t[..|words[0]|] == words[0] && t[|words[0]| + 1..] == rest;
    }
  }

  /** What stands before the mark and what stands behind it. */
  lemma CutAt(a: Text, u: Unit, b: Text)
    requires u !in a
    ensures var t := a + [u] + b; Find(t, 0, u) == |a| && t[..|a|] == a && t[|a| + 1..] == b
  {
    FoundFrom(a, u, b, 0);
  }

  // ---- Words and numbers ------------------------------------------------------------------------------

  lemma LettersAre(u: Unit)
    ensures IsLetter(u) <==> u in Alphabet()
    ensures IsDigit(u) <==> u in DecimalDigits()
  {
    hide Ascii;
    Run("0123456789", 0x30, u);
    Run("ABCDEFGHIJKLMNOPQRSTUVWXYZ", 0x41, u);
    Run("abcdefghijklmnopqrstuvwxyz", 0x61, u);
    Run("-", 0x2d, u);
  }

  /** Characters that follow one another in ASCII. */
  lemma Run(s: string, first: nat, u: Unit)
    requires forall k | 0 <= k < |s| :: s[k] < '\U{0080}' && s[k] as int == first + k
    ensures u in Ascii(s) <==> first <= u < first + |s|
  {
    if first <= u < first + |s| { assert Ascii(s)[u - first] == u; }
  }

  lemma TextIsNumber(n: nat)
    ensures IsNumber(NatText(n)) && DigitsValue(NatText(n)) == n
  {
    hide DigitsValue;
    assert NatText(n)[0] == ZERO ==> NatText(n) == [ZERO];
  }

  lemma NumbersAre(t: Text)
    ensures IsNumber(t) <==> exists n: nat :: t == NatText(n)
  {
    forall n: nat | t == NatText(n) ensures IsNumber(t) {
      TextIsNumber(n);
    }
    if IsNumber(t) {
      var n := DigitsValue(t);
      TextIsNumber(n);
      NumbersAreTheirValues(t, NatText(n));
    }
  }

  lemma WordsAre(t: Text)
    ensures IsIdentifier(t) <==> IsWord(t)
    ensures IsPrereleaseIdentifier(t) <==> IsPrereleaseWord(t)
    ensures IsWord(t) ==> DOT !in t && PLUS !in t
  {
    hide Alphabet, DecimalDigits, IsLetter, IsDigit, NatText;
    forall u: Unit
      ensures (IsLetter(u) <==> u in Alphabet()) && (IsDigit(u) <==> u in DecimalDigits())
    {
      LettersAre(u);
    }
    assert !IsLetter(DOT) && !IsLetter(PLUS) by { OtherMarks(); }
    NumbersAre(t);
  }

  lemma OtherMarks()
    ensures !IsLetter(DOT) && !IsLetter(PLUS)
  {
  }

  lemma NumberUnits(t: Text)
    requires IsNumber(t)
    ensures DOT !in t && PLUS !in t && MINUS !in t
  {
  }

  // ---- Reading back -----------------------------------------------------------------------------------

  lemma WordList(words: seq<Text>, isWord: Text -> bool)
    requires words != [] && (forall t | isWord(t) :: IsWord(t)) && forall k | 0 <= k < |words| :: isWord(words[k])
    ensures Split(WithDots(words)) == words && PLUS !in WithDots(words)
  {
    hide IsWord;
    forall w | w in words ensures DOT !in w && PLUS !in w { WordsAre(w); }
    SplitOfWords(words);
    DottedUnits(words, PLUS);
  }

  lemma CoreIsSplit(major: nat, minor: nat, patch: nat)
    ensures var t, core := CoreText(major, minor, patch), [NatText(major), NatText(minor), NatText(patch)];
            t == WithDots(core) && Split(t) == core && IsCore(core) && MINUS !in t && PLUS !in t
  {
    hide NatText, WithDots;
    var core := [NatText(major), NatText(minor), NatText(patch)];
    forall p | p in core ensures IsNumber(p) && DOT !in p && PLUS !in p && MINUS !in p {
      NumbersAre(p);
      NumberUnits(p);
    }
    ThreeWithDots(core);
    SplitOfWords(core);
    DottedUnits(core, PLUS);
    DottedUnits(core, MINUS);
  }

  lemma ThreeWithDots(core: seq<Text>)
    requires |core| == 3
    ensures WithDots(core) == core[0] + Ascii(".") + core[1] + Ascii(".") + core[2]
  {
    var rest := core[1..];
    assert rest[1..] == [core[2]] && Ascii(".") == [DOT];
    assert WithDots(rest) == core[1] + [DOT] + core[2];
    assert WithDots(core) == core[0] + [DOT] + WithDots(rest);
  }

  lemma Marks()
    ensures Ascii("-") == [MINUS] && Ascii("+") == [PLUS]
  {
  }

  /** A version is read as what it was written from. */
  lemma WrittenIsMatched(w: Written, isWord: Text -> bool)
    requires w.IsOf(isWord)
    ensures Matched(w.AsText(), isWord) == Some(w.AsVersion())
  {
    hide Split, WithDots, Find, IsCore, IsWord, IsIdentifier, NatText, Ascii, CoreText;
    Marks();
    var t, core := w.AsText(), CoreText(w.major, w.minor, w.patch);
    var front := core + Part("-", w.prerelease);
    CoreIsSplit(w.major, w.minor, w.patch);
    forall p ensures IsIdentifier(p) <==> IsWord(p) { WordsAre(p); }
    if w.prerelease.Some? { WordList(w.prerelease.value, isWord); }
    assert Find(t, 0, PLUS) == |front| && t[..|front|] == front
        && (w.build.Some? ==> |front| < |t| && Split(t[|front| + 1..]) == w.build.value) by {
      if w.build.Some? {
        WordList(w.build.value, (p: Text) => IsWord(p));
        CutAt(front, PLUS, WithDots(w.build.value));
        assert t == front + [PLUS] + WithDots(w.build.value);
      } else {
        assert t == front;
        NoUnit(front, PLUS);
      }
    }
    assert Find(front, 0, MINUS) == |core| && front[..|core|] == core
        && (w.prerelease.Some? ==> |core| < |front| && front[|core| + 1..] == WithDots(w.prerelease.value)) by {
      if w.prerelease.Some? {
        CutAt(core, MINUS, WithDots(w.prerelease.value));
        assert front == core + [MINUS] + WithDots(w.prerelease.value);
      } else {
        assert front == core;
        NoUnit(core, MINUS);
      }
    }
  }

  /** What is read was written. */
  lemma MatchedIsWritten(t: Text, isWord: Text -> bool) returns (w: Written)
    requires Matched(t, isWord).Some? && forall p | isWord(p) :: IsWord(p)
    ensures w.IsOf(isWord) && t == w.AsText() && Matched(t, isWord) == Some(w.AsVersion())
  {
    hide Split, WithDots, Find, IsWord, IsIdentifier, NatText, Ascii, IsNumber;
    Marks();
    var plus := Find(t, 0, PLUS);
    var rest := t[..plus];
    var dash := Find(rest, 0, MINUS);
    var core := Split(rest[..dash]);
    forall p ensures IsIdentifier(p) <==> IsWord(p) { WordsAre(p); }
    NumbersAre(core[0]);
    NumbersAre(core[1]);
    NumbersAre(core[2]);
    var major: nat :| core[0] == NatText(major);
    var minor: nat :| core[1] == NatText(minor);
    var patch: nat :| core[2] == NatText(patch);
    var prerelease := if dash < |rest| then Some(Split(rest[dash + 1..])) else None;
    var build := if plus < |t| then Some(Split(t[plus + 1..])) else None;
    w := Written(major, minor, patch, prerelease, build);
    assert core == [core[0], core[1], core[2]];
    ThreeWithDots(core);
    assert rest[..dash] == CoreText(major, minor, patch);
    assert rest == CoreText(major, minor, patch) + Part("-", prerelease);
    assert t == rest + Part("+", build);
  }

  // ---- The three patterns -----------------------------------------------------------------------------

  /** A SemVer version is what the grammar of Semantic Versioning 2.0.0 writes, and is read as that. */
  lemma SemverTextsAre(t: Text, v: Version)
    ensures MatchSemver(t) == Some(v)
            <==> exists w: Written :: w.IsOf((p: Text) => IsPrereleaseWord(p)) && t == w.AsText() && v == w.AsVersion()
  {
    var isWord := (p: Text) => IsPrereleaseWord(p);
    hide Split, WithDots, Find, IsWord, IsIdentifier, NatText, Ascii, IsNumber, IsCore, Written.AsText, Written.AsVersion;
    forall p ensures IsPrereleaseIdentifier(p) <==> isWord(p) { WordsAre(p); }
    assert MatchSemver(t) == Matched(t, isWord);
    MatchesExactly(t, isWord);
  }

  /** A loader coordinate is the same, but numbers of its prerelease may have leading zeros. */
  lemma CoordinatesAre(t: Text, core: seq<Text>)
    ensures MatchCoordinate(t) == Some(core)
            <==> exists w: Written :: w.IsOf((p: Text) => IsWord(p)) && t == w.AsText() && core == w.AsVersion().core
  {
    var isWord := (p: Text) => IsWord(p);
    hide Split, WithDots, Find, IsWord, IsIdentifier, NatText, Ascii, IsNumber, IsCore, Written.AsText, Written.AsVersion;
    forall p ensures IsIdentifier(p) <==> isWord(p) { WordsAre(p); }
    var m := Matched(t, isWord);
    assert MatchCoordinate(t) == if m.Some? then Some(m.value.core) else None;
    MatchesExactly(t, isWord);
  }

  /** A stable version is three decimal numbers. */
  lemma StrictTextsAre(t: Text, core: seq<Text>)
    ensures MatchStrict(t) == Some(core)
            <==> exists x: nat, y: nat, z: nat :: t == CoreText(x, y, z) && core == [NatText(x), NatText(y), NatText(z)]
  {
    hide Split, WithDots, NatText, IsNumber;
    forall x: nat, y: nat, z: nat | t == CoreText(x, y, z) ensures MatchStrict(t) == Some([NatText(x), NatText(y), NatText(z)]) {
      CoreIsSplit(x, y, z);
    }
    if MatchStrict(t).Some? {
      var parts := Split(t);
      NumbersAre(parts[0]);
      NumbersAre(parts[1]);
      NumbersAre(parts[2]);
      var x: nat :| parts[0] == NatText(x);
      var y: nat :| parts[1] == NatText(y);
      var z: nat :| parts[2] == NatText(z);
      assert parts == [parts[0], parts[1], parts[2]];
      ThreeWithDots(parts);
      assert t == CoreText(x, y, z);
    }
  }

  ghost predicate IsWrittenAs(t: Text, w: Written, isWord: Text -> bool) { w.IsOf(isWord) && t == w.AsText() }

  lemma MatchesExactly(t: Text, isWord: Text -> bool)
    requires forall p | isWord(p) :: IsWord(p)
    ensures forall w: Written | IsWrittenAs(t, w, isWord) :: Matched(t, isWord) == Some(w.AsVersion())
    ensures Matched(t, isWord).Some? ==>
              exists w: Written :: IsWrittenAs(t, w, isWord) && Matched(t, isWord) == Some(w.AsVersion())
  {
    hide Matched, Written.AsText, Written.AsVersion, Written.IsOf;
    forall w: Written | IsWrittenAs(t, w, isWord) ensures Matched(t, isWord) == Some(w.AsVersion()) {
      WrittenIsMatched(w, isWord);
    }
    if Matched(t, isWord).Some? {
      var w := MatchedIsWritten(t, isWord);
      assert IsWrittenAs(t, w, isWord);
    }
  }
}
