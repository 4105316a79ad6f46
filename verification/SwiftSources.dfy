/** The tokens that are read from a source are those of a source written that way, and of no other. */
module SwiftSources {
  import opened Bytes
  import opened SwiftTokens
  import opened SwiftLexer

  // ---- Characters -----------------------------------------------------------------------------------

  const LETTERS := "ABCDEFGHIJKLMNOPQRSTUVWXYZ"
  const SMALL_LETTERS := "abcdefghijklmnopqrstuvwxyz"
  const DIGITS := "0123456789"

  /** The space separators of Unicode, but the ordinary one and those in a row. */
  const SPACES := "\U{a0}\U{1680}\U{202f}\U{205f}\U{3000}"

  const ROW_OF_SPACES :=
    "\U{2000}\U{2001}\U{2002}\U{2003}\U{2004}\U{2005}\U{2006}\U{2007}\U{2008}\U{2009}\U{200a}"

  /** Characters that follow one another. */
  lemma Run(s: string, first: int, c: char)
    requires forall k | 0 <= k < |s| :: s[k] as int == first + k
    ensures c in s <==> first <= c as int < first + |s|
  {
    if first <= c as int < first + |s| { assert s[c as int - first] == c; }
  }

  lemma NamesAre(c: char)
    ensures IsStart(c) <==> c in LETTERS || c in SMALL_LETTERS || c == '_'
    ensures IsPart(c) <==> c in LETTERS || c in SMALL_LETTERS || c == '_' || c in DIGITS
  {
    Run(LETTERS, 0x41, c);
    Run(SMALL_LETTERS, 0x61, c);
    Run(DIGITS, 0x30, c);
  }

  /** Tab, line feed, vertical tab, form feed, carriage return, space; two line separators; other spaces; the byte order mark. */
  lemma SpacesAre(c: char)
    ensures IsSpace(c) <==>
              || c as int in {9, 10, 11, 12, 13, 32} || c as int in {0x2028, 0x2029, 0xfeff} || c in SPACES || c in ROW_OF_SPACES
  {
    Run(ROW_OF_SPACES, 0x2000, c);
    assert c in SPACES <==> c as int in {0xa0, 0x1680, 0x202f, 0x205f, 0x3000} by {
      assert SPACES[0] as int == 0xa0 && SPACES[1] as int == 0x1680 && SPACES[2] as int == 0x202f;
      assert SPACES[3] as int == 0x205f && SPACES[4] as int == 0x3000;
    }
  }

  /** A literal has no quote, no backslash and no line break in it. */
  lemma LiteralsAre(c: char)
    ensures IsLiteralChar(c) <==> c as int !in {0x22, 0x5c, 0x0a, 0x0d}
  {
  }

  const BRACKETS := ["()", "[]", "{}"]

  /** Sections 20.1.3 and B.2.2 of ECMA-262: the properties of Object.prototype. */
  const OBJECT_PROPERTIES := [
    "constructor", "hasOwnProperty", "isPrototypeOf", "propertyIsEnumerable", "toLocaleString", "toString", "valueOf",
    "__proto__", "__defineGetter__", "__defineSetter__", "__lookupGetter__", "__lookupSetter__"]

  ghost predicate IsBracket(t: Token, k: nat, side: nat)
    requires k < 3 && side < 2
  {
    t == Plain([BRACKETS[k][side]])
  }

  lemma ObjectNamesAre(name: string)
    ensures name in PROTOTYPE_NAMES <==> name in OBJECT_PROPERTIES
  {
    var all := OBJECT_PROPERTIES;
    assert all[0] == "constructor" && all[1] == "hasOwnProperty" && all[2] == "isPrototypeOf" && all[3] == "propertyIsEnumerable";
    assert all[4] == "toLocaleString" && all[5] == "toString" && all[6] == "valueOf" && all[7] == "__proto__";
    assert all[8] == "__defineGetter__" && all[9] == "__defineSetter__";
    assert all[10] == "__lookupGetter__" && all[11] == "__lookupSetter__";
  }

  lemma BracketsAre(t: Token)
    ensures IsOpen(t) <==> exists k | 0 <= k < 3 :: IsBracket(t, k, 0)
    ensures IsClose(t) <==> exists k | 0 <= k < 3 :: IsBracket(t, k, 1)
    ensures forall k | 0 <= k < 3 && IsBracket(t, k, 0) :: IsBracket(Closing(t), k, 1)
  {
    if IsOpen(t) {
      assert IsBracket(t, if t == OPEN then 0 else if t == Plain("[") then 1 else 2, 0);
    }
    if IsClose(t) {
      assert IsBracket(t, if t == CLOSE then 0 else if t == Plain("]") then 1 else 2, 1);
    }
  }

  /** In an argument list three pairs of brackets count, and the names that every object has; all else stands for itself. */
  lemma LeavesAre(t: Token)
    ensures IsLeaf(t) <==>
              && (forall k, side | 0 <= k < 3 && 0 <= side < 2 :: !IsBracket(t, k, side))
              && !(t.Plain? && t.text in OBJECT_PROPERTIES)
  {
    hide IsOpen, IsClose, IsBracket;
    BracketsAre(t);
    if t.Plain? { ObjectNamesAre(t.text); }
    forall k, side | 0 <= k < 3 && 0 <= side < 2 && IsBracket(t, k, side) ensures IsOpen(t) || IsClose(t) {
      assert side == 0 || side == 1;
    }
  }

  // ---- What is read was written -----------------------------------------------------------------------

  /** A source that reads as these tokens. */
  ghost predicate IsSourceOf(items: seq<Item>, t: string, tokens: Tokens) {
    ValidSource(items) && Write(items) == t && TokensOf(items) == tokens
  }

  lemma ItemFirst(i: Item, more: seq<Item>, t: string, rest: string, tokens: Tokens)
    requires IsSourceOf(more, rest, tokens) && ValidItem(i, rest) && t == WriteItem(i) + rest
    ensures IsSourceOf([i] + more, t, ItemTokens(i) + tokens)
  {
    hide ValidItem, WriteItem, ItemTokens;
    assert ([i] + more)[1..] == more;
  }

  lemma {:induction false} LineParts(s: string) returns (text: string, ended: bool)
    ensures s == text + (if ended then "\n" else "") + AfterLine(s) && '\n' !in text && (!ended ==> AfterLine(s) == "")
  {
    if s == "" {
      text, ended := "", false;
    } else if s[0] == '\n' {
      text, ended := "", true;
      assert s == "\n" + s[1..];
    } else {
      text, ended := LineParts(s[1..]);
      assert s == [s[0]] + s[1..];
      text := [s[0]] + text;
    }
  }

  lemma LineIsWritten(t: string) returns (i: Item)
    requires LINE <= t
    ensures ValidItem(i, AfterLine(t[1..])) && t == WriteItem(i) + AfterLine(t[1..]) && ItemTokens(i) == []
  {
    var text, ended := LineParts(t[1..]);
    assert t[1..][0] == '/' && text != "" && text[0] == '/';
    i := LineComment(text[1..], ended);
    assert t == "/" + t[1..] && text == "/" + text[1..] && LINE == "/" + "/";
  }

  lemma NotThreeQuotes(t: string)
    requires !(MULTILINE <= t)
    ensures |t| > 2 ==> !(t[0] == t[1] == t[2] == '"')
  {
    assert |t| > 2 ==> t[..3] == [t[0], t[1], t[2]];
  }

  lemma LiteralIsWritten(t: string, n: nat)
    requires t != "" && t[0] == '"' && !(MULTILINE <= t) && Span(t[1..], c => IsLiteralChar(c)) == n
    requires n + 1 < |t| && t[n + 1] == '"'
    ensures var i := Quoted(t[1..n + 1]); ValidItem(i, t[n + 2..]) && t == WriteItem(i) + t[n + 2..]
  {
    var text := t[1..n + 1];
    assert forall k | 0 <= k < |text| :: text[k] == t[1..][k];
    NotThreeQuotes(t);
    assert t == "\"" + text + "\"" + t[n + 2..];
  }

  lemma QuotedNameIsWritten(t: string, n: nat)
    requires t != "" && t[0] == '`' && Span(t[1..], c => c != '`') == n && n + 1 < |t| && SwiftLexer.IsIdentifier(t[1..n + 1])
    ensures var i := Word(t[1..n + 1], true); ValidItem(i, t[n + 2..]) && t == WriteItem(i) + t[n + 2..]
  {
    assert t[1..][n] == t[n + 1] == '`';
    assert t == "`" + t[1..n + 1] + "`" + t[n + 2..];
  }

  lemma NameIsWritten(t: string, n: nat)
    requires t != "" && IsStart(t[0]) && Span(t[1..], c => IsPart(c)) == n
    ensures var i := Word(t[..n + 1], false); ValidItem(i, t[n + 1..]) && t == WriteItem(i) + t[n + 1..]
  {
    assert forall k | 0 < k <= n :: t[k] == t[1..][k - 1];
    if n + 1 < |t| { assert t[n + 1..][0] == t[1..][n]; }
  }

  lemma MarkIsWritten(t: string)
    requires t != "" && !IsSpace(t[0]) && !(LINE <= t) && !(BLOCK <= t) && !(RAW <= t) && t[0] != '"' && t[0] != '`' && !IsStart(t[0])
    ensures ValidItem(Mark(t[0]), t[1..]) && t == WriteItem(Mark(t[0])) + t[1..]
  {
    PrefixOf(t, '/', '/');
    PrefixOf(t, '/', '*');
    PrefixOf(t, '#', '"');
    assert LINE == ['/', '/'] && BLOCK == ['/', '*'] && RAW == ['#', '"'];
  }

  /** Whatever is read as tokens is a source with gaps and comments that has these tokens. */
  lemma {:induction false} ReadIsWritten(t: string) returns (items: seq<Item>)
    requires Lex(t).Some?
    ensures IsSourceOf(items, t, Lex(t).value)
    decreases |t|
  {
    hide ValidItem, AfterLine, AfterComment, IsSourceOf, SwiftLexer.IsIdentifier;
    if t == "" {
      items := [];
      NothingIsWritten();
    } else {
      var i, rest := FirstItem(t);
      var more := ReadIsWritten(rest);
      ItemFirst(i, more, t, rest, Lex(rest).value);
      items := [i] + more;
    }
  }

  lemma NothingIsWritten()
    ensures Lex("") == Some([]) && IsSourceOf([], "", [])
  {
  }

  ghost predicate IsGap(t: string) { t != "" && (IsSpace(t[0]) || LINE <= t || BLOCK <= t) }

  /** The first item is this one, with this text behind it. */
  ghost predicate IsFirst(t: string, i: Item, rest: string) {
    && |rest| < |t| && ValidItem(i, rest) && t == WriteItem(i) + rest
    && Lex(rest).Some? && Lex(t).Some? && Lex(t).value == ItemTokens(i) + Lex(rest).value
  }

  lemma FirstItem(t: string) returns (i: Item, rest: string)
    requires t != "" && Lex(t).Some?
    ensures IsFirst(t, i, rest)
  {
    hide Lex, IsFirst;
    if IsGap(t) { i, rest := FirstGap(t); } else { i, rest := FirstToken(t); }
  }

  lemma FirstGap(t: string) returns (i: Item, rest: string)
    requires IsGap(t) && Lex(t).Some?
    ensures IsFirst(t, i, rest)
  {
    hide ValidItem, AfterLine, AfterComment, SwiftLexer.IsIdentifier, Span, WriteItem;
    if IsSpace(t[0]) {
      i, rest := Space(t[0]), t[1..];
      SpaceIsWritten(t);
    } else if LINE <= t {
      i := LineIsWritten(t);
      rest := AfterLine(t[1..]);
    } else {
      rest := AfterComment(t[2..], 1).value;
      var c := SkippedIsComment(t[2..], rest);
      i := BlockComment(c);
      assert t == BLOCK + t[2..];
      CommentIsItem(c, rest);
    }
    assert [] + Lex(rest).value == Lex(rest).value;
  }

  lemma FirstToken(t: string) returns (i: Item, rest: string)
    requires t != "" && !IsGap(t) && Lex(t).Some?
    ensures IsFirst(t, i, rest)
  {
    hide Lex, IsFirst, IsGap;
    if t[0] == '"' || t[0] == '`' { i, rest := FirstInQuotes(t); } else { i, rest := FirstPlain(t); }
  }

  lemma FirstInQuotes(t: string) returns (i: Item, rest: string)
    requires t != "" && !IsGap(t) && Lex(t).Some? && (t[0] == '"' || t[0] == '`')
    ensures IsFirst(t, i, rest)
  {
    hide ValidItem, AfterLine, AfterComment, SwiftLexer.IsIdentifier, Span, WriteItem;
    if t[0] == '"' {
      var n := Span(t[1..], c => IsLiteralChar(c));
      i, rest := Quoted(t[1..n + 1]), t[n + 2..];
      LiteralIsWritten(t, n);
    } else {
      var n := Span(t[1..], c => c != '`');
      i, rest := Word(t[1..n + 1], true), t[n + 2..];
      QuotedNameIsWritten(t, n);
    }
  }

  lemma FirstPlain(t: string) returns (i: Item, rest: string)
    requires t != "" && !IsGap(t) && Lex(t).Some? && t[0] != '"' && t[0] != '`'
    ensures IsFirst(t, i, rest)
  {
    hide ValidItem, AfterLine, AfterComment, SwiftLexer.IsIdentifier, Span, WriteItem;
    if IsStart(t[0]) {
      var n := Span(t[1..], c => IsPart(c));
      i, rest := Word(t[..n + 1], false), t[n + 1..];
      NameIsWritten(t, n);
    } else {
      i, rest := Mark(t[0]), t[1..];
      MarkIsWritten(t);
    }
  }

  lemma SpaceIsWritten(t: string)
    requires t != "" && IsSpace(t[0])
    ensures ValidItem(Space(t[0]), t[1..]) && t == WriteItem(Space(t[0])) + t[1..]
  {
  }

  lemma CommentIsItem(c: Comment, rest: string)
    requires ValidComment(c)
    ensures ValidItem(BlockComment(c), rest) && WriteItem(BlockComment(c)) == WriteComment(c)
  {
  }

  /** A text is read as tokens exactly when it is a source that has them. */
  lemma TokensExactly(t: string, tokens: Tokens)
    ensures Lex(t) == Some(tokens) <==> exists items :: IsSourceOf(items, t, tokens)
  {
    if Lex(t) == Some(tokens) {
      var items := ReadIsWritten(t);
    }
    forall items | IsSourceOf(items, t, tokens) ensures Lex(t) == Some(tokens) {
      SourceIsReadBack(items);
    }
  }
}
