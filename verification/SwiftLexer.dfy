/**
 The tokens of a Swift source: white space, line comments and nested block comments only
 separate them. Any way of writing tokens down with such gaps is read back.
 */
module SwiftLexer {
  import opened Bytes
  import opened SwiftTokens

  predicate IsSpace(c: char) {
    || '\t' <= c <= '\r' || c == ' ' || c == '\U{a0}' || c == '\U{1680}' || '\U{2000}' <= c <= '\U{200a}'
    || c == '\U{2028}' || c == '\U{2029}' || c == '\U{202f}' || c == '\U{205f}' || c == '\U{3000}' || c == '\U{feff}'
  }

  predicate IsStart(c: char) { 'A' <= c <= 'Z' || 'a' <= c <= 'z' || c == '_' }

  predicate IsPart(c: char) { IsStart(c) || '0' <= c <= '9' }

  predicate IsIdentifier(t: string) { t != "" && IsStart(t[0]) && forall k | 0 <= k < |t| :: IsPart(t[k]) }

  predicate IsLiteralChar(c: char) { c != '"' && c != '\\' && c != '\n' && c != '\r' }

  const LINE := "//"
  const BLOCK := "/*"
  const BLOCK_END := "*/"
  const RAW := "#\""
  const MULTILINE := "\"\"\""

  // ---- Reading -----------------------------------------------------------------------------

  /** Behind the next line break, or the end. */
  function AfterLine(t: string): (rest: string)
    ensures |rest| <= |t|
  {
    if t == "" then "" else if t[0] == '\n' then t[1..] else AfterLine(t[1..])
  }

  /** Behind the comment that leaves `depth` open. */
  function AfterComment(t: string, depth: nat): (rest: Option<string>)
    ensures rest.Some? ==> |rest.value| <= |t|
    decreases |t|
  {
    if depth == 0 then Some(t)
    else if t == "" then None
    else if BLOCK <= t then AfterComment(t[2..], depth + 1)
    else if BLOCK_END <= t then AfterComment(t[2..], depth - 1)
    else AfterComment(t[1..], depth)
  }

  /** The number of units up to the first that is not wanted. */
  function Span(t: string, wanted: char -> bool): (n: nat)
    ensures n <= |t| && (n < |t| ==> !wanted(t[n])) && forall k | 0 <= k < n :: wanted(t[k])
  {
    if t == "" || !wanted(t[0]) then 0 else 1 + Span(t[1..], wanted)
  }

  function With(token: Token, rest: Option<Tokens>): Option<Tokens> {
    if rest.None? then None else Some([token] + rest.value)
  }

  /** `tokens`; nothing when it throws. */
  function Lex(t: string): Option<Tokens>
    decreases |t|
  {
    if t == "" then Some([])
    else if IsSpace(t[0]) then Lex(t[1..])
    else if LINE <= t then Lex(AfterLine(t[1..]))
    else if BLOCK <= t then
      var rest := AfterComment(t[2..], 1);
      if rest.None? then None else Lex(rest.value)
    else if RAW <= t || MULTILINE <= t then None
    else if t[0] == '"' then
      var n := Span(t[1..], c => IsLiteralChar(c));
      if n + 1 < |t| && t[n + 1] == '"' then With(Literal(t[1..n + 1]), Lex(t[n + 2..])) else None
    else if t[0] == '`' then
      var n := Span(t[1..], c => c != '`');
      if n + 1 < |t| && IsIdentifier(t[1..n + 1]) then With(Plain(t[1..n + 1]), Lex(t[n + 2..])) else None
    else if IsStart(t[0]) then
      var n := Span(t[1..], c => IsPart(c));
      With(Plain(t[..n + 1]), Lex(t[n + 1..]))
    else With(Plain([t[0]]), Lex(t[1..]))
  }

  method SkipComment(text: string, start: nat) returns (end: Option<nat>)
    requires start <= |text|
    ensures var rest := AfterComment(text[start..], 1);
            if rest.None? then end.None? else end.Some? && start <= end.value <= |text| && text[end.value..] == rest.value
  {
    var index, depth: nat := start, 1;
    while index < |text| && depth > 0
      invariant start <= index <= |text| && AfterComment(text[index..], depth) == AfterComment(text[start..], 1)
      decreases |text| - index
    {
      assert text[index..][1..] == text[index + 1..];
      if BLOCK <= text[index..] {
        assert text[index..][2..] == text[index + 2..];
        depth, index := depth + 1, index + 2;
      } else if BLOCK_END <= text[index..] {
        assert text[index..][2..] == text[index + 2..];
        depth, index := depth - 1, index + 2;
      } else {
        index := index + 1;
      }
    }
    return if depth == 0 then Some(index) else None;
  }

  /** The first token of a text that starts with one. */
  method ReadToken(rest: string) returns (token: Token, size: Option<nat>)
    requires rest != "" && !IsSpace(rest[0]) && !(LINE <= rest) && !(BLOCK <= rest) && !(RAW <= rest) && !(MULTILINE <= rest)
    ensures size.None? ==> Lex(rest).None?
    ensures size.Some? ==> 0 < size.value <= |rest| && Lex(rest) == With(token, Lex(rest[size.value..]))
  {
    token := Plain([rest[0]]);
    if rest[0] == '"' {
      var n := Span(rest[1..], c => IsLiteralChar(c));
      if !(n + 1 < |rest| && rest[n + 1] == '"') { return token, None; }
      return Literal(rest[1..n + 1]), Some(n + 2);
    }
    if rest[0] == '`' {
      var n := Span(rest[1..], c => c != '`');
      if !(n + 1 < |rest| && IsIdentifier(rest[1..n + 1])) { return token, None; }
      return Plain(rest[1..n + 1]), Some(n + 2);
    }
    if IsStart(rest[0]) {
      var n := Span(rest[1..], c => IsPart(c));
      return Plain(rest[..n + 1]), Some(n + 1);
    }
    return token, Some(1);
  }

  method ReadTokens(text: string) returns (tokens: Option<Tokens>)
    ensures tokens == Lex(text)
  {
    hide Lex, IsIdentifier;
    var result: Tokens, index: nat := [], 0;
    assert text[0..] == text;
    assert Lex(text).Some? ==> [] + Lex(text).value == Lex(text).value;
    while index < |text|
      invariant index <= |text| && Lex(text) == Behind(result, Lex(text[index..]))
      decreases |text| - index
    {
      var rest := text[index..];
      if IsSpace(rest[0]) || LINE <= rest || BLOCK <= rest {
        var next := SkipGap(text, index);
        if next.None? { return None; }
        index := next.value;
      } else if RAW <= rest || MULTILINE <= rest {
        RawIsRejected(rest);
        return None;
      } else {
        var token, size := ReadToken(rest);
        if size.None? { return None; }
        assert rest[size.value..] == text[index + size.value..];
        BehindMore(result, token, Lex(rest[size.value..]));
        result, index := result + [token], index + size.value;
      }
    }
    NothingToRead();
    assert text[|text|..] == "" && result + [] == result;
    return Some(result);
  }

  lemma RawIsRejected(t: string)
    requires t != "" && !IsSpace(t[0]) && !(LINE <= t) && !(BLOCK <= t) && (RAW <= t || MULTILINE <= t)
    ensures Lex(t).None?
  {
  }

  /** Past one space or comment. */
  method SkipGap(text: string, index: nat) returns (next: Option<nat>)
    requires index < |text| && (IsSpace(text[index]) || LINE <= text[index..] || BLOCK <= text[index..])
    ensures next.None? ==> Lex(text[index..]).None?
    ensures next.Some? ==> index < next.value <= |text| && Lex(text[next.value..]) == Lex(text[index..])
  {
    hide IsIdentifier, AfterComment, AfterLine;
    var rest := text[index..];
    if IsSpace(rest[0]) {
      assert rest[1..] == text[index + 1..];
      return Some(index + 1);
    }
    if LINE <= rest {
      var left := AfterLine(rest[1..]);
      LineLeavesSuffix(rest[1..]);
      assert text[|text| - |left|..] == rest[1..][|rest| - 1 - |left|..];
      return Some(|text| - |left|);
    }
    assert rest[2..] == text[index + 2..];
    next := SkipComment(text, index + 2);
  }

  function Behind(result: Tokens, rest: Option<Tokens>): Option<Tokens> {
    if rest.None? then None else Some(result + rest.value)
  }

  lemma BehindMore(result: Tokens, token: Token, rest: Option<Tokens>)
    ensures Behind(result, With(token, rest)) == Behind(result + [token], rest)
  {
    if rest.Some? { assert result + ([token] + rest.value) == result + [token] + rest.value; }
  }

  lemma {:induction false} LineLeavesSuffix(t: string)
    ensures t[|t| - |AfterLine(t)|..] == AfterLine(t)
  {
    if t != "" && t[0] != '\n' {
      LineLeavesSuffix(t[1..]);
      assert t[|t| - |AfterLine(t)|..] == t[1..][|t[1..]| - |AfterLine(t)|..];
    }
  }

  // ---- Writing -----------------------------------------------------------------------------------

  /** A block comment: text and comments inside it. */
  datatype Comment = Comment(parts: seq<Part>)
  datatype Part = Text(text: string) | Nested(comment: Comment)

  /** What source is made of. */
  datatype Item =
    | Space(c: char)
    | LineComment(text: string, ended: bool)
    | BlockComment(comment: Comment)
    | Word(name: string, quoted: bool)
    | Mark(c: char)
    | Quoted(text: string)

  /** These two characters neither open nor close a comment. */
  predicate Apart(a: char, b: char) { !(a == '/' && b == '*') && !(a == '*' && b == '/') }

  /** Text that neither opens nor closes a comment, also with what stands behind it. */
  predicate IsCommentText(t: string, behind: string) {
    && t != "" && (forall k | 0 <= k < |t| - 1 :: Apart(t[k], t[k + 1]))
    && (behind != "" ==> Apart(t[|t| - 1], behind[0]))
  }

  predicate ValidComment(c: Comment)
    decreases c, 0
  {
    ValidParts(c.parts)
  }

  predicate ValidParts(parts: seq<Part>)
    decreases parts, 1
  {
    parts == [] || (ValidPart(parts[0], WriteParts(parts[1..]) + BLOCK_END) && ValidParts(parts[1..]))
  }

  predicate ValidPart(p: Part, behind: string)
    decreases p, 0
  {
    match p
    case Text(text) => IsCommentText(text, behind)
    case Nested(comment) => ValidComment(comment)
  }

  function WriteComment(c: Comment): string
    decreases c, 0
  {
    BLOCK + WriteParts(c.parts) + BLOCK_END
  }

  function WriteParts(parts: seq<Part>): string
    decreases parts, 1
  {
    if parts == [] then "" else WritePart(parts[0]) + WriteParts(parts[1..])
  }

  function WritePart(p: Part): string
    decreases p, 0
  {
    match p
    case Text(text) => text
    case Nested(comment) => WriteComment(comment)
  }

  function WriteItem(i: Item): string {
    match i
    case Space(c) => [c]
    case LineComment(text, ended) => LINE + text + if ended then "\n" else ""
    case BlockComment(comment) => WriteComment(comment)
    case Word(name, quoted) => if quoted then "`" + name + "`" else name
    case Mark(c) => [c]
    case Quoted(text) => "\"" + text + "\""
  }

  function Write(items: seq<Item>): string { if items == [] then "" else WriteItem(items[0]) + Write(items[1..]) }

  function ItemTokens(i: Item): Tokens {
    match i
    case Word(name, _) => [Plain(name)]
    case Mark(c) => [Plain([c])]
    case Quoted(text) => [Literal(text)]
    case _ => []
  }

  function TokensOf(items: seq<Item>): Tokens { if items == [] then [] else ItemTokens(items[0]) + TokensOf(items[1..]) }

  /** The item is one, and nothing that comes behind it changes it. */
  predicate ValidItem(i: Item, rest: string) {
    match i
    case Space(c) => IsSpace(c)
    case LineComment(text, ended) => '\n' !in text && (!ended ==> rest == "")
    case BlockComment(comment) => ValidComment(comment)
    case Word(name, quoted) => IsIdentifier(name) && (!quoted && rest != "" ==> !IsPart(rest[0]))
    case Mark(c) =>
      && !IsSpace(c) && !IsStart(c) && c != '"' && c != '`'
      && (rest != "" ==> !(c == '/' && (rest[0] == '/' || rest[0] == '*')) && !(c == '#' && rest[0] == '"'))
    case Quoted(text) =>
      (forall k | 0 <= k < |text| :: IsLiteralChar(text[k])) && (text == "" && rest != "" ==> rest[0] != '"')
  }

  predicate ValidSource(items: seq<Item>) {
    items == [] || (ValidItem(items[0], Write(items[1..])) && ValidSource(items[1..]))
  }

  // ---- Reading back --------------------------------------------------------------------------------

  lemma {:induction false} TextIsSkipped(t: string, rest: string, depth: nat)
    requires depth > 0 && (t == "" || IsCommentText(t, rest))
    ensures AfterComment(t + rest, depth) == AfterComment(rest, depth)
    decreases |t|
  {
    if t == "" {
      assert t + rest == rest;
    } else {
      var s := t + rest;
      assert s[1..] == t[1..] + rest;
      assert !(BLOCK <= s) && !(BLOCK_END <= s) by {
        if |s| > 1 { assert Apart(s[0], s[1]); }
      }
      forall k | 0 <= k < |t[1..]| - 1 ensures Apart(t[1..][k], t[1..][k + 1]) {
        assert t[1..][k] == t[k + 1] && t[1..][k + 1] == t[k + 1 + 1];
      }
      TextIsSkipped(t[1..], rest, depth);
    }
  }

  lemma {:induction false} CommentIsSkipped(c: Comment, rest: string, depth: nat)
    requires ValidComment(c) && depth > 0
    ensures AfterComment(WriteComment(c) + rest, depth) == AfterComment(rest, depth)
    decreases c, 0
  {
    var inner := WriteParts(c.parts) + (BLOCK_END + rest);
    var s := WriteComment(c) + rest;
    assert s == BLOCK + inner && s[2..] == inner;
    PartsAreSkipped(c.parts, rest, depth + 1);
    EndIsSkipped(rest, depth + 1);
  }

  /** Every comment that is skipped is one of these. */
  lemma SkippedIsComment(t: string, rest: string) returns (c: Comment)
    requires AfterComment(t, 1) == Some(rest)
    ensures ValidComment(c) && BLOCK + t == WriteComment(c) + rest
  {
    var parts, after := SkippedParts(t, 1);
    c := Comment(parts);
    assert AfterComment(after, 0) == Some(after);
    assert BLOCK + (WriteParts(parts) + BLOCK_END + rest) == BLOCK + WriteParts(parts) + BLOCK_END + rest;
  }

  lemma {:induction false} SkippedParts(t: string, depth: nat) returns (parts: seq<Part>, after: string)
    requires depth > 0 && AfterComment(t, depth).Some?
    ensures ValidParts(parts) && t == WriteParts(parts) + BLOCK_END + after && |after| < |t|
    ensures AfterComment(after, depth - 1) == AfterComment(t, depth)
    decreases |t|
  {
    hide ValidParts, WriteParts, OneCharMore;
    if BLOCK <= t {
      assert t == BLOCK + t[2..];
      var inner, between := SkippedParts(t[2..], depth + 1);
      var more, end := SkippedParts(between, depth);
      parts, after := [Nested(Comment(inner))] + more, end;
      NestedFirst(inner, more);
      InFront(BLOCK + WriteParts(inner) + BLOCK_END, WriteParts(more), BLOCK_END, end);
      InFront(BLOCK, WriteParts(inner), BLOCK_END, between);
    } else if BLOCK_END <= t {
      parts, after := [], t[2..];
      NoParts();
      assert t == "" + BLOCK_END + t[2..];
    } else {
      assert t == [t[0]] + t[1..];
      var more, end := SkippedParts(t[1..], depth);
      parts, after := OneCharMore(t[0], more), end;
      SecondChar(t, WriteParts(more), end);
      CharFirst(t[0], more);
      InFront([t[0]], WriteParts(more), BLOCK_END, end);
    }
  }

  lemma InFront(a: string, b: string, c: string, d: string)
    ensures a + (b + c + d) == (a + b) + c + d
  {
  }

  lemma SecondChar(t: string, more: string, end: string)
    requires t != "" && !(BLOCK <= t) && !(BLOCK_END <= t) && t[1..] == more + BLOCK_END + end
    ensures Apart(t[0], (more + BLOCK_END)[0])
  {
    var behind := more + BLOCK_END;
    assert t[1] == t[1..][0] == behind[0];
    PrefixOf(t, '/', '*');
    PrefixOf(t, '*', '/');
  }

  /** A character before these parts, in the text that they start with if they do. */
  function OneCharMore(c: char, parts: seq<Part>): seq<Part> {
    if parts != [] && parts[0].Text? then [Text([c] + parts[0].text)] + parts[1..] else [Text([c])] + parts
  }

  lemma NoParts()
    ensures ValidParts([]) && WriteParts([]) == ""
  {
  }

  lemma PartFirst(p: Part, more: seq<Part>)
    requires ValidPart(p, WriteParts(more) + BLOCK_END) && ValidParts(more)
    ensures ValidParts([p] + more) && WriteParts([p] + more) == WritePart(p) + WriteParts(more)
  {
    assert ([p] + more)[1..] == more;
  }

  lemma NestedFirst(inner: seq<Part>, more: seq<Part>)
    requires ValidParts(inner) && ValidParts(more)
    ensures var parts := [Nested(Comment(inner))] + more;
            ValidParts(parts) && WriteParts(parts) == BLOCK + WriteParts(inner) + BLOCK_END + WriteParts(more)
  {
    hide ValidParts, WriteParts;
    assert ValidComment(Comment(inner));
    PartFirst(Nested(Comment(inner)), more);
  }

  lemma CharFirst(c: char, more: seq<Part>)
    requires ValidParts(more) && Apart(c, (WriteParts(more) + BLOCK_END)[0])
    ensures ValidParts(OneCharMore(c, more)) && WriteParts(OneCharMore(c, more)) == [c] + WriteParts(more)
  {
    if more != [] && more[0].Text? {
      TextLonger(c, more[0].text, more[1..]);
      assert more == [Text(more[0].text)] + more[1..];
    } else {
      OneChar(c, WriteParts(more) + BLOCK_END);
      PartFirst(Text([c]), more);
    }
  }

  lemma OneChar(c: char, behind: string)
    requires behind != "" && Apart(c, behind[0])
    ensures ValidPart(Text([c]), behind)
  {
  }

  lemma TextLonger(c: char, text: string, rest: seq<Part>)
    requires ValidParts([Text(text)] + rest) && Apart(c, (WriteParts([Text(text)] + rest) + BLOCK_END)[0])
    ensures var parts := [Text([c] + text)] + rest;
            ValidParts(parts) && WriteParts(parts) == [c] + WriteParts([Text(text)] + rest)
  {
    var behind := WriteParts(rest) + BLOCK_END;
    FirstOfParts(Text(text), rest);
    hide ValidParts, WriteParts;
    PartFirst(Text(text), rest);
    assert WriteParts([Text(text)] + rest) + BLOCK_END == text + behind && (text + behind)[0] == text[0];
    LongerText(c, text, behind);
    PartFirst(Text([c] + text), rest);
    assert [c] + (text + WriteParts(rest)) == [c] + text + WriteParts(rest);
  }

  lemma FirstOfParts(p: Part, rest: seq<Part>)
    requires ValidParts([p] + rest)
    ensures ValidPart(p, WriteParts(rest) + BLOCK_END) && ValidParts(rest)
  {
    assert ([p] + rest)[1..] == rest;
  }

  lemma LongerText(c: char, text: string, behind: string)
    requires IsCommentText(text, behind) && Apart(c, text[0])
    ensures IsCommentText([c] + text, behind)
  {
    var more := [c] + text;
    forall k | 0 <= k < |more| - 1 ensures Apart(more[k], more[k + 1]) {
      assert more[k + 1] == text[k];
      if k > 0 { assert more[k] == text[k - 1] && Apart(text[k - 1], text[k - 1 + 1]); }
    }
  }

  lemma EndIsSkipped(rest: string, depth: nat)
    requires depth > 0
    ensures AfterComment(BLOCK_END + rest, depth) == AfterComment(rest, depth - 1)
  {
    var s := BLOCK_END + rest;
    assert s[2..] == rest && s[0] == '*' && s[1] == '/';
  }

  lemma PartsAreSkipped(parts: seq<Part>, rest: string, depth: nat)
    requires ValidParts(parts) && depth > 0
    ensures AfterComment(WriteParts(parts) + (BLOCK_END + rest), depth) == AfterComment(BLOCK_END + rest, depth)
    decreases parts, 1
  {
    if parts == [] {
      assert "" + (BLOCK_END + rest) == BLOCK_END + rest;
    } else {
      var behind := WriteParts(parts[1..]) + BLOCK_END;
      var more := WriteParts(parts[1..]) + (BLOCK_END + rest);
      assert WriteParts(parts) + (BLOCK_END + rest) == WritePart(parts[0]) + more;
      assert more == behind + rest && more[0] == behind[0];
      PartIsSkipped(parts[0], behind, more, depth);
      PartsAreSkipped(parts[1..], rest, depth);
    }
  }

  lemma PartIsSkipped(p: Part, behind: string, rest: string, depth: nat)
    requires ValidPart(p, behind) && depth > 0 && behind != "" && rest != "" && rest[0] == behind[0]
    ensures AfterComment(WritePart(p) + rest, depth) == AfterComment(rest, depth)
    decreases p, 0
  {
    match p
    case Text(text) => TextIsSkipped(text, rest, depth);
    case Nested(comment) => CommentIsSkipped(comment, rest, depth);
  }

  lemma {:induction false} LastLine(t: string)
    requires '\n' !in t
    ensures AfterLine(t) == ""
  {
    if t != "" { LastLine(t[1..]); }
  }

  lemma LastLineIsRead(text: string)
    requires '\n' !in text
    ensures Lex(LINE + text) == Lex("")
  {
    var s := LINE + text;
    assert s[1..] == "/" + text;
    LastLine(s[1..]);
  }

  lemma {:induction false} LineIsSkipped(t: string, rest: string)
    requires '\n' !in t
    ensures AfterLine(t + "\n" + rest) == rest
  {
    if t == "" {
      assert t + "\n" + rest == "\n" + rest;
    } else {
      assert (t + "\n" + rest)[1..] == t[1..] + "\n" + rest;
      LineIsSkipped(t[1..], rest);
    }
  }

  lemma SpanIs(t: string, before: string, after: string, wanted: char -> bool)
    requires t == before + after && (forall k | 0 <= k < |before| :: wanted(before[k])) && (after != "" ==> !wanted(after[0]))
    ensures Span(t, wanted) == |before|
  {
    var n := Span(t, wanted);
    assert forall k | 0 <= k < |before| :: t[k] == before[k];
    assert after != "" ==> t[|before|] == after[0];
  }

  lemma PrefixOf(s: string, a: char, b: char)
    ensures [a, b] <= s <==> |s| > 1 && s[0] == a && s[1] == b
  {
  }

  /** One item is read, or skipped, as what it is. */
  lemma ItemIsRead(i: Item, rest: string)
    requires ValidItem(i, rest) && Lex(rest).Some?
    ensures Lex(WriteItem(i) + rest) == Behind(ItemTokens(i), Lex(rest))
  {
    assert [] + Lex(rest).value == Lex(rest).value;
    match i
    case Space(c) => assert ([c] + rest)[1..] == rest;
    case LineComment(text, ended) =>
      if ended {
        LineCommentIsRead(text, rest);
        assert LINE + text + "\n" + rest == WriteItem(i) + rest;
      } else {
        LastLineIsRead(text);
        assert WriteItem(i) + rest == LINE + text;
      }
    case BlockComment(comment) => BlockCommentIsRead(comment, rest);
    case Word(name, quoted) => if quoted { QuotedWordIsRead(name, rest); } else { WordIsRead(name, rest); }
    case Mark(c) => MarkIsRead(c, rest);
    case Quoted(text) => LiteralIsRead(text, rest);
  }

  lemma LineCommentIsRead(text: string, rest: string)
    requires '\n' !in text
    ensures Lex(LINE + text + "\n" + rest) == Lex(rest)
  {
    hide IsIdentifier, AfterComment, AfterLine;
    var s, slashed := LINE + text + "\n" + rest, "/" + text;
    assert s[0] == '/' && s[1] == '/' && LINE <= s;
    assert s[1..] == slashed + "\n" + rest;
    LineIsSkipped(slashed, rest);
  }

  lemma BlockCommentIsRead(c: Comment, rest: string)
    requires ValidComment(c)
    ensures Lex(WriteComment(c) + rest) == Lex(rest)
  {
    hide IsIdentifier, AfterComment, AfterLine, WriteParts;
    var inner := WriteParts(c.parts) + (BLOCK_END + rest);
    var s := WriteComment(c) + rest;
    assert s == BLOCK + inner && s[2..] == inner && s[0] == '/' && s[1] == '*';
    PrefixOf(s, '/', '*');
    PrefixOf(s, '/', '/');
    PartsAreSkipped(c.parts, rest, 1);
    EndIsSkipped(rest, 1);
    NothingOpen(rest);
  }

  lemma NothingOpen(t: string)
    ensures AfterComment(t, 0) == Some(t)
  {
  }

  lemma WordStarts(s: string, n: nat)
    requires s != "" && IsStart(s[0]) && Span(s[1..], c => IsPart(c)) == n
    ensures Lex(s) == With(Plain(s[..n + 1]), Lex(s[n + 1..]))
  {
    hide AfterComment, AfterLine, IsIdentifier, Span;
  }

  lemma WordIsRead(name: string, rest: string)
    requires IsIdentifier(name) && (rest != "" ==> !IsPart(rest[0]))
    ensures Lex(name + rest) == With(Plain(name), Lex(rest))
  {
    hide Lex, Span;
    var s := name + rest;
    assert s[0] == name[0] && s[1..] == name[1..] + rest;
    SpanIs(s[1..], name[1..], rest, c => IsPart(c));
    WordStarts(s, |name| - 1);
    assert s[..|name|] == name && s[|name|..] == rest;
  }

  lemma QuotedWordIsRead(name: string, rest: string)
    requires IsIdentifier(name)
    ensures Lex("`" + name + "`" + rest) == With(Plain(name), Lex(rest))
  {
    hide AfterComment, AfterLine;
    var s := "`" + name + "`" + rest;
    QuotedParts(s, '`', name, rest);
    SpanIs(s[1..], name, "`" + rest, c => c != '`');
  }

  lemma LiteralIsRead(text: string, rest: string)
    requires (forall k | 0 <= k < |text| :: IsLiteralChar(text[k])) && (text == "" && rest != "" ==> rest[0] != '"')
    ensures Lex("\"" + text + "\"" + rest) == With(Literal(text), Lex(rest))
  {
    hide Lex, Span, IsLiteralChar;
    var s := "\"" + text + "\"" + rest;
    QuotedParts(s, '"', text, rest);
    QuoteEnds();
    SpanIs(s[1..], text, "\"" + rest, c => IsLiteralChar(c));
    NotMultiline(s, text, rest);
    LiteralStarts(s, |text|);
  }

  lemma QuoteEnds()
    ensures !IsLiteralChar('"')
  {
  }

  lemma QuotedParts(s: string, q: char, text: string, rest: string)
    requires s == [q] + text + [q] + rest
    ensures s != "" && s[0] == q && s[1..] == text + ([q] + rest) && |text| + 1 < |s| && s[|text| + 1] == q
    ensures s[1..|text| + 1] == text && s[|text| + 2..] == rest
  {
  }

  lemma NotMultiline(s: string, text: string, rest: string)
    requires s == "\"" + text + "\"" + rest
    requires (forall k | 0 <= k < |text| :: IsLiteralChar(text[k])) && (text == "" && rest != "" ==> rest[0] != '"')
    ensures !(MULTILINE <= s)
  {
    if text == "" {
      if rest != "" { assert s[2] == rest[0]; }
    } else {
      assert s[1] == text[0];
    }
  }

  lemma LiteralStarts(s: string, n: nat)
    requires s != "" && s[0] == '"' && !(MULTILINE <= s) && Span(s[1..], c => IsLiteralChar(c)) == n
    requires n + 1 < |s| && s[n + 1] == '"'
    ensures Lex(s) == With(Literal(s[1..n + 1]), Lex(s[n + 2..]))
  {
    hide AfterComment, AfterLine, IsIdentifier, Span;
  }

  lemma MarkIsRead(c: char, rest: string)
    requires ValidItem(Mark(c), rest)
    ensures Lex([c] + rest) == With(Plain([c]), Lex(rest))
  {
    hide AfterComment, AfterLine, IsIdentifier;
    var s := [c] + rest;
    assert s[1..] == rest;
    PrefixOf(s, '/', '/');
    PrefixOf(s, '/', '*');
    PrefixOf(s, '#', '"');
    assert !(MULTILINE <= s) by { assert s[0] != '"'; }
  }

  /** Whatever gaps and comments stand between them, the tokens of a source are read back. */
  lemma {:induction false} SourceIsReadBack(items: seq<Item>)
    requires ValidSource(items)
    ensures Lex(Write(items)) == Some(TokensOf(items))
    decreases |items|
  {
    hide Lex, ValidItem;
    if items == [] {
      NothingToRead();
    } else {
      SourceIsReadBack(items[1..]);
      ItemIsRead(items[0], Write(items[1..]));
    }
  }

  lemma NothingToRead()
    ensures Lex("") == Some([])
  {
  }
}
