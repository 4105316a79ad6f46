/** The literal package calls of a Swift manifest, and the dependency array that must hold them all. */
module SwiftDependencies {
  import opened Bytes
  import SwiftLexer
  import opened SwiftTokens

  const DOT := Plain(".")
  const COLON := Plain(":")
  const CALL := Plain("package")
  const MANIFEST := Plain("Package")
  const DEPENDENCIES := Plain("dependencies")
  const URL := Plain("url")
  const REVISION := Plain("revision")
  const PATH := Plain("path")
  const OPEN_LIST := Plain("[")
  const CLOSE_LIST := Plain("]")

  datatype Dependency = Dependency(url: string, revision: string)

  // ---- The end of a call ---------------------------------------------------------------------

  /** Where the round bracket closes that leaves `depth` open, counted from the start of `input`. */
  function Closes(input: Tokens, depth: nat, at: nat): Option<nat>
    requires at <= |input|
    decreases |input| - at
  {
    if at == |input| then None
    else if input[at] == OPEN then Closes(input, depth + 1, at + 1)
    else if input[at] == CLOSE && depth == 1 then Some(at)
    else Closes(input, if input[at] == CLOSE && depth > 0 then depth - 1 else depth, at + 1)
  }

  /** Nothing when there is no call here, or it has no end. */
  function EndOf(input: Tokens, start: nat): (end: Option<nat>)
    ensures end.Some? ==> start < end.value < |input| && input[end.value] == CLOSE
  {
    if start < |input| && input[start] == OPEN then ClosesBehind(input, 1, start + 1); Closes(input, 1, start + 1) else None
  }

  lemma {:induction false} ClosesBehind(input: Tokens, depth: nat, at: nat)
    requires at <= |input|
    ensures var end := Closes(input, depth, at); end.Some? ==> at <= end.value < |input| && input[end.value] == CLOSE
    decreases |input| - at
  {
    if at < |input| {
      ClosesBehind(input, depth + 1, at + 1);
      ClosesBehind(input, if input[at] == CLOSE && depth > 0 then depth - 1 else depth, at + 1);
    }
  }

  method CallEnd(input: Tokens, start: nat) returns (end: Option<nat>)
    ensures end == EndOf(input, start)
  {
    if !(start < |input| && input[start] == OPEN) { return None; }
    var depth := 0;
    for index := start to |input|
      invariant if index == start then depth == 0 else depth > 0 && Closes(input, 1, start + 1) == Closes(input, depth, index)
    {
      if input[index] == OPEN { depth := depth + 1; }
      if input[index] == CLOSE {
        depth := depth - 1;
        if depth == 0 { return Some(index); }
      }
    }
    return None;
  }

  /** Behind balanced trees the count is what it was. */
  lemma {:induction false} CountPastTree(t: Tree, input: Tokens, depth: nat, at: nat)
    requires Good(t) && depth > 0 && at + |Written(t)| <= |input| && input[at..at + |Written(t)|] == Written(t)
    ensures Closes(input, depth, at) == Closes(input, depth, at + |Written(t)|)
    decreases t, 0
  {
    var w := Written(t);
    match t
    case Leaf(token) =>
      assert input[at] == input[at..at + 1][0] == token;
    case Group(open, inside) =>
      assert input[at] == w[0] == open && input[at + |w| - 1] == w[|w| - 1] == Closing(open);
      assert input[at + 1..at + |w| - 1] == input[at..at + |w|][1..|w| - 1];
      assert w[1..|w| - 1] == AllWritten(inside);
      CountPastTrees(inside, input, if open == OPEN then depth + 1 else depth, at + 1);
  }

  lemma PartsOfSlice(input: Tokens, at: nat, first: Tokens, rest: Tokens)
    requires at + |first + rest| <= |input| && input[at..at + |first + rest|] == first + rest
    ensures input[at..at + |first|] == first && input[at + |first|..at + |first| + |rest|] == rest
  {
    assert input[at..at + |first|] == input[at..at + |first + rest|][..|first|];
    assert input[at + |first|..at + |first| + |rest|] == input[at..at + |first + rest|][|first|..];
  }

  lemma CountPastTrees(ts: seq<Tree>, input: Tokens, depth: nat, at: nat)
    requires AllGood(ts) && depth > 0 && at + |AllWritten(ts)| <= |input| && input[at..at + |AllWritten(ts)|] == AllWritten(ts)
    ensures Closes(input, depth, at) == Closes(input, depth, at + |AllWritten(ts)|)
    decreases ts, 1
  {
    if ts != [] {
      var first, rest := Written(ts[0]), AllWritten(ts[1..]);
      PartsOfSlice(input, at, first, rest);
      CountPastTree(ts[0], input, depth, at);
      CountPastTrees(ts[1..], input, depth, at + |first|);
    }
  }

  /** A call of balanced arguments ends at its own bracket, whatever follows. */
  lemma CallEndsAtItsBracket(before: Tokens, ts: seq<Tree>, after: Tokens)
    requires AllGood(ts)
    ensures EndOf(before + [OPEN] + AllWritten(ts) + [CLOSE] + after, |before|) == Some(|before| + 1 + |AllWritten(ts)|)
  {
    var input := before + [OPEN] + AllWritten(ts) + [CLOSE] + after;
    assert input[|before| + 1..|before| + 1 + |AllWritten(ts)|] == AllWritten(ts);
    CountPastTrees(ts, input, 1, |before| + 1);
  }

  // ---- One dependency ----------------------------------------------------------------------------

  predicate IsHex(c: char) { '0' <= c <= '9' || 'a' <= c <= 'f' }

  predicate IsSlug(c: char) { '0' <= c <= '9' || 'a' <= c <= 'z' || c == '-' }

  const URL_START := "https://github.com/aikdna/"
  const URL_END := ".git"

  predicate IsUrl(t: string) {
    && |t| > |URL_START| + |URL_END| && t[..|URL_START|] == URL_START && t[|t| - |URL_END|..] == URL_END
    && forall k | |URL_START| <= k < |t| - |URL_END| :: IsSlug(t[k])
  }

  predicate IsRevision(t: string) { |t| == 40 && forall k | 0 <= k < 40 :: IsHex(t[k]) }

  predicate IsArgument(arg: Tokens) {
    |arg| == 3 && arg[1] == COLON && arg[2].Literal? && (arg[0] == URL || arg[0] == REVISION)
  }

  function Values(args: seq<Tokens>): Option<Dependency> {
    if |args| != 2 || !IsArgument(args[0]) || !IsArgument(args[1]) || args[0][0] == args[1][0] then None
    else
      var url := if args[0][0] == URL then args[0][2].text else args[1][2].text;
      var revision := if args[0][0] == URL then args[1][2].text else args[0][2].text;
      if IsUrl(url) && IsRevision(revision) then Some(Dependency(url, revision)) else None
  }

  /** `dependency` */
  function ReadDependency(input: Tokens): Option<Dependency> {
    if |input| < 4 || input[0] != DOT || input[1] != CALL || EndOf(input, 2) != Some(|input| - 1) then None
    else
      var args := Rows(input[3..|input| - 1]);
      if args.None? || exists arg | arg in args.value :: arg != [] && arg[0] == PATH then None else Values(args.value)
  }

  // ---- A whole manifest ----------------------------------------------------------------------------

  /** The package calls of a list of tokens, in order. */
  function Calls(input: Tokens): Option<seq<Dependency>> {
    if |input| < 2 then Some([])
    else
      var rest := Calls(input[1..]);
      if input[0] != DOT || input[1] != CALL then rest
      else
        var end := EndOf(input, 2);
        if end.None? || rest.None? then None
        else
          var d := ReadDependency(input[..end.value + 1]);
          if d.None? then None else Some([d.value] + rest.value)
  }

  /** The arguments of each `Package(` call. */
  function Constructors(input: Tokens): Option<seq<seq<Tokens>>> {
    if |input| < 2 then Some([])
    else
      var rest := Constructors(input[1..]);
      if input[0] != MANIFEST || input[1] != OPEN then rest
      else
        var end := EndOf(input, 1);
        if end.None? || rest.None? then None
        else
          var rows := Rows(input[2..end.value]);
          if rows.None? then None else Some([rows.value] + rest.value)
  }

  predicate Declares(arg: Tokens) { |arg| >= 2 && arg[0] == DEPENDENCIES && arg[1] == COLON }

  function Declarations(args: seq<Tokens>): (found: seq<Tokens>)
    ensures forall k | 0 <= k < |found| :: Declares(found[k])
  {
    if args == [] then [] else (if Declares(args[0]) then [args[0]] else []) + Declarations(args[1..])
  }

  function ReadAll(rows: seq<Tokens>): Option<seq<Dependency>> {
    if rows == [] then Some([])
    else
      var d, rest := ReadDependency(rows[0]), ReadAll(rows[1..]);
      if d.None? || rest.None? then None else Some([d.value] + rest.value)
  }

  /** The array behind `dependencies:`. */
  function ReadArray(list: Tokens): Option<seq<Dependency>> {
    if |list| < 2 || list[0] != OPEN_LIST || list[|list| - 1] != CLOSE_LIST then None
    else
      var rows := Rows(list[1..|list| - 1]);
      if rows.None? then None else ReadAll(rows.value)
  }

  /** `swiftDependencies`, on tokens. */
  function Dependencies(input: Tokens): Option<seq<Dependency>> {
    var calls, constructors := Calls(input), Constructors(input);
    if calls.None? || constructors.None? || |constructors.value| != 1 then None
    else
      var declarations := Declarations(constructors.value[0]);
      if |declarations| != 1 then None
      else
        var actual := ReadArray(declarations[0][2..]);
        if actual == calls then actual else None
  }

  // ---- Rendering ---------------------------------------------------------------------------------------

  /** A dependency that can be written, and how: which argument first, and whether a comma ends them. */
  datatype Item = Item(dependency: Dependency, revisionFirst: bool, lastComma: bool) {
    predicate Valid() { IsUrl(dependency.url) && IsRevision(dependency.revision) }
  }

  function Argument(name: Token, value: string): seq<Tree> { [Leaf(name), Leaf(COLON), Leaf(Literal(value))] }

  function ArgumentTrees(i: Item): seq<Tree> {
    var url, revision := Argument(URL, i.dependency.url), Argument(REVISION, i.dependency.revision);
    (if i.revisionFirst then revision + [Leaf(COMMA)] + url else url + [Leaf(COMMA)] + revision)
    + if i.lastComma then [Leaf(COMMA)] else []
  }

  function CallTrees(i: Item): seq<Tree> { [Leaf(DOT), Leaf(CALL), Group(OPEN, ArgumentTrees(i))] }

  function CallTokens(i: Item): Tokens { [DOT, CALL, OPEN] + AllWritten(ArgumentTrees(i)) + [CLOSE] }

  /** Rows of trees with commas between them, and perhaps one behind. */
  function Listed(rows: seq<seq<Tree>>, lastComma: bool): seq<Tree> {
    if rows == [] then []
    else if |rows| == 1 then rows[0] + if lastComma then [Leaf(COMMA)] else []
    else rows[0] + [Leaf(COMMA)] + Listed(rows[1..], lastComma)
  }

  ghost predicate IsTreeRow(row: seq<Tree>) { row != [] && AllGood(row) && Leaf(COMMA) !in row }

  lemma {:induction false} RowOfTrees(row: seq<Tree>, rest: seq<Tree>, before: Tokens)
    requires Leaf(COMMA) !in row
    ensures TreeRows(row + rest, before) == TreeRows(rest, before + AllWritten(row))
    decreases |row|
  {
    if row == [] {
      assert row + rest == rest && before + [] == before;
    } else {
      assert (row + rest)[1..] == row[1..] + rest;
      RowOfTrees(row[1..], rest, before + Written(row[0]));
      assert before + Written(row[0]) + AllWritten(row[1..]) == before + AllWritten(row);
    }
  }

  function AllRows(rows: seq<seq<Tree>>): seq<Tokens> { seq(|rows|, k requires 0 <= k < |rows| => AllWritten(rows[k])) }

  lemma RowIsWritten(row: seq<Tree>)
    requires row != []
    ensures AllWritten(row) != []
  {
    assert Written(row[0]) != [];
  }

  lemma AllRowsFirst(rows: seq<seq<Tree>>)
    requires rows != []
    ensures AllRows(rows) == [AllWritten(rows[0])] + AllRows(rows[1..])
  {
    hide AllWritten;
    var more := AllRows(rows[1..]);
    assert forall k | 0 < k < |rows| :: rows[k] == rows[1..][k - 1];
  }

  /** A row, and what is listed behind it. */
  lemma FirstRowSplits(row: seq<Tree>, more: seq<Tree>)
    requires row != [] && Leaf(COMMA) !in row
    ensures TreeRows(row, []) == [AllWritten(row)]
    ensures TreeRows(row + [Leaf(COMMA)] + more, []) == [AllWritten(row)] + TreeRows(more, [])
  {
    hide AllWritten, Written;
    var w, end := AllWritten(row), [Leaf(COMMA)] + more;
    RowIsWritten(row);
    assert [] + w == w && row + [] == row && row + [Leaf(COMMA)] + more == row + end && end[1..] == more;
    RowOfTrees(row, [], []);
    RowOfTrees(row, end, []);
  }

  /** Listed rows are split into the same rows. */
  lemma {:induction false} ListedRows(rows: seq<seq<Tree>>, lastComma: bool)
    requires forall k | 0 <= k < |rows| :: IsTreeRow(rows[k])
    ensures TreeRows(Listed(rows, lastComma), []) == AllRows(rows)
  {
    hide AllWritten, AllGood;
    if rows == [] {
      assert AllRows(rows) == [];
    } else {
      assert IsTreeRow(rows[0]);
      AllRowsFirst(rows);
      ListedRows(rows[1..], lastComma);
      FirstRowSplits(rows[0], Listed(rows[1..], lastComma));
      if |rows| == 1 {
        assert Listed(rows[1..], lastComma) == [];
        assert TreeRows([], []) == [];
        assert rows[0] + [Leaf(COMMA)] + [] == rows[0] + [Leaf(COMMA)];
        assert rows[0] + [] == rows[0];
      }
    }
  }

  lemma {:induction false} ListedAreGood(rows: seq<seq<Tree>>, lastComma: bool)
    requires forall k | 0 <= k < |rows| :: IsTreeRow(rows[k])
    ensures AllGood(Listed(rows, lastComma))
  {
    if rows != [] {
      assert IsTreeRow(rows[0]) && Good(Leaf(COMMA));
      ListedAreGood(rows[1..], lastComma);
    }
  }

  lemma ArgumentIsRead(name: Token, value: string)
    requires name == URL || name == REVISION
    ensures var a := Argument(name, value);
            IsTreeRow(a) && AllWritten(a) == [name, COLON, Literal(value)]
  {
    var a := Argument(name, value);
    assert forall k | 0 <= k < 3 :: Good(a[k]);
    assert AllWritten(a[2..]) == [Literal(value)];
    assert AllWritten(a[1..]) == [COLON] + AllWritten(a[1..][1..]) && a[1..][1..] == a[2..];
    assert Leaf(COMMA) !in a;
  }

  lemma ArgumentsAreRead(i: Item)
    ensures AllGood(ArgumentTrees(i))
    ensures var url, revision := [URL, COLON, Literal(i.dependency.url)], [REVISION, COLON, Literal(i.dependency.revision)];
            Rows(AllWritten(ArgumentTrees(i))) == Some(if i.revisionFirst then [revision, url] else [url, revision])
  {
    hide Argument, IsTreeRow, IsUrl;
    ArgumentIsRead(URL, i.dependency.url);
    ArgumentIsRead(REVISION, i.dependency.revision);
    var url, revision := Argument(URL, i.dependency.url), Argument(REVISION, i.dependency.revision);
    var rows := if i.revisionFirst then [revision, url] else [url, revision];
    assert rows[1..] == [rows[1]];
    assert ArgumentTrees(i) == Listed(rows, i.lastComma);
    ListedRows(rows, i.lastComma);
    ListedAreGood(rows, i.lastComma);
    BalancedIsSplit(Listed(rows, i.lastComma));
    assert AllRows(rows) == [AllWritten(rows[0]), AllWritten(rows[1])];
  }

  /** A written dependency is read back. */
  lemma DependencyIsRead(i: Item)
    requires i.Valid()
    ensures ReadDependency(CallTokens(i)) == Some(i.dependency)
  {
    hide ArgumentTrees, IsUrl, IsRevision, Rows, AllWritten, EndOf;
    var args := AllWritten(ArgumentTrees(i));
    ArgumentsAreRead(i);
    CallEndsAtItsBracket([DOT, CALL], ArgumentTrees(i), []);
    assert CallTokens(i) == [DOT, CALL] + [OPEN] + args + [CLOSE] + [];
    assert CallTokens(i)[3..|CallTokens(i)| - 1] == args;
    NamesDiffer();
  }

  lemma NamesDiffer()
    ensures URL != REVISION && PATH != URL && PATH != REVISION && MANIFEST != CALL
  {
    assert |URL.text| == 3 && |REVISION.text| == 8 && |PATH.text| == 4;
    assert MANIFEST.text[0] != CALL.text[0];
  }

  // ---- What is not a call ------------------------------------------------------------------------------

  /** No package call starts here, whatever follows. */
  ghost predicate NoCall(x: Tokens) { forall k | 0 <= k < |x| :: x[k] == DOT ==> k + 1 < |x| && x[k + 1] != CALL }

  ghost predicate NoManifest(x: Tokens) { forall k | 0 <= k < |x| :: x[k] == MANIFEST ==> k + 1 < |x| && x[k + 1] != OPEN }

  lemma {:induction false} CallsBehind(x: Tokens, rest: Tokens)
    requires NoCall(x)
    ensures Calls(x + rest) == Calls(rest)
  {
    if x == [] {
      assert x + rest == rest;
    } else {
      assert (x + rest)[1..] == x[1..] + rest;
      assert x[0] == DOT ==> x[1] != CALL && (x + rest)[1] == x[1];
      forall k | 0 <= k < |x[1..]| ensures x[1..][k] == DOT ==> k + 1 < |x[1..]| && x[1..][k + 1] != CALL {
        assert x[1..][k] == x[k + 1];
      }
      CallsBehind(x[1..], rest);
    }
  }

  lemma {:induction false} ConstructorsBehind(x: Tokens, rest: Tokens)
    requires NoManifest(x)
    ensures Constructors(x + rest) == Constructors(rest)
  {
    if x == [] {
      assert x + rest == rest;
    } else {
      assert (x + rest)[1..] == x[1..] + rest;
      assert x[0] == MANIFEST ==> x[1] != OPEN && (x + rest)[1] == x[1];
      forall k | 0 <= k < |x[1..]| ensures x[1..][k] == MANIFEST ==> k + 1 < |x[1..]| && x[1..][k + 1] != OPEN {
        assert x[1..][k] == x[k + 1];
      }
      ConstructorsBehind(x[1..], rest);
    }
  }

  // ---- What a written manifest holds ----------------------------------------------------------------------

  /** These tokens hold these calls, whatever follows. */
  ghost predicate Gives(x: Tokens, ds: seq<Dependency>) {
    forall rest: Tokens {:trigger Calls(x + rest)} :: Calls(rest).Some? ==> Calls(x + rest) == Some(ds + Calls(rest).value)
  }

  lemma NoCallGivesNothing(x: Tokens)
    requires NoCall(x)
    ensures Gives(x, [])
  {
    forall rest: Tokens | Calls(rest).Some? ensures Calls(x + rest) == Some([] + Calls(rest).value) {
      CallsBehind(x, rest);
      assert [] + Calls(rest).value == Calls(rest).value;
    }
  }

  lemma GivesBoth(x: Tokens, a: seq<Dependency>, y: Tokens, b: seq<Dependency>)
    requires Gives(x, a) && Gives(y, b)
    ensures Gives(x + y, a + b)
  {
    forall rest: Tokens | Calls(rest).Some? ensures Calls(x + y + rest) == Some(a + b + Calls(rest).value) {
      assert x + y + rest == x + (y + rest);
      assert a + b + Calls(rest).value == a + (b + Calls(rest).value);
    }
  }

  lemma ArgumentTokens(i: Item)
    ensures DOT !in AllWritten(ArgumentTrees(i)) && MANIFEST !in AllWritten(ArgumentTrees(i))
  {
    hide ArgumentTrees, Rows, AllWritten, IsRow;
    ArgumentsAreRead(i);
    SplitIsExact(AllWritten(ArgumentTrees(i)));
    var args := AllWritten(ArgumentTrees(i));
    var url, revision := [URL, COLON, Literal(i.dependency.url)], [REVISION, COLON, Literal(i.dependency.revision)];
    var rows := if i.revisionFirst then [revision, url] else [url, revision];
    assert rows[1..] == [rows[1]];
    assert WithCommas(rows) == rows[0] + [COMMA] + rows[1];
    assert |MANIFEST.text| == 7 && |URL.text| == 3 && |REVISION.text| == 8;
  }

  /** No second call starts inside one. */
  lemma OneCallStarts(i: Item)
    ensures NoCall(CallTokens(i)[1..])
  {
    hide ArgumentTrees, AllWritten;
    ArgumentTokens(i);
    assert CallTokens(i)[1..] == [CALL, OPEN] + AllWritten(ArgumentTrees(i)) + [CLOSE];
  }

  lemma FirstCall(input: Tokens, end: nat, d: Dependency, more: seq<Dependency>)
    requires |input| >= 2 && input[0] == DOT && input[1] == CALL && EndOf(input, 2) == Some(end) && end < |input|
    requires ReadDependency(input[..end + 1]) == Some(d) && Calls(input[1..]) == Some(more)
    ensures Calls(input) == Some([d] + more)
  {
    hide EndOf, ReadDependency;
  }

  lemma CallGivesOne(i: Item, rest: Tokens)
    requires i.Valid() && Calls(rest).Some?
    ensures Calls(CallTokens(i) + rest) == Some([i.dependency] + Calls(rest).value)
  {
    hide ArgumentTrees, AllGood, AllWritten, IsUrl, IsRevision, ReadDependency, NoCall, EndOf, Rows, Calls;
    var x, args := CallTokens(i), AllWritten(ArgumentTrees(i));
    var input := x + rest;
    assert AllGood(ArgumentTrees(i)) by { ArgumentsAreRead(i); }
    DependencyIsRead(i);
    OneCallStarts(i);
    CallsBehind(x[1..], rest);
    assert input[1..] == x[1..] + rest;
    CallEndsAtItsBracket([DOT, CALL], ArgumentTrees(i), rest);
    assert input == [DOT, CALL] + [OPEN] + args + [CLOSE] + rest;
    assert input[..|x|] == x;
    FirstCall(input, |x| - 1, i.dependency, Calls(rest).value);
  }

  lemma CallGives(i: Item)
    requires i.Valid()
    ensures Gives(CallTokens(i), [i.dependency])
  {
    hide CallTokens, Calls;
    forall rest: Tokens | Calls(rest).Some? ensures Calls(CallTokens(i) + rest) == Some([i.dependency] + Calls(rest).value) {
      CallGivesOne(i, rest);
    }
  }

  lemma CallIsARow(i: Item)
    ensures IsTreeRow(CallTrees(i)) && AllWritten(CallTrees(i)) == CallTokens(i)
  {
    hide ArgumentTrees, AllWritten, Written, Good;
    ArgumentsAreRead(i);
    GroupIsGood(OPEN, ArgumentTrees(i));
    ThreeTrees(DOT, CALL, Group(OPEN, ArgumentTrees(i)));
  }

  lemma ThreeTrees(a: Token, b: Token, t: Tree)
    requires IsLeaf(a) && IsLeaf(b) && a != COMMA && b != COMMA && Good(t) && t != Leaf(COMMA)
    ensures var ts := [Leaf(a), Leaf(b), t]; IsTreeRow(ts) && AllWritten(ts) == [a, b] + Written(t)
  {
    hide Good;
    LeafIsGood(a);
    LeafIsGood(b);
    hide AllWritten, Written;
    FirstWritten(Leaf(a), [Leaf(b), t]);
    FirstWritten(Leaf(b), [t]);
    FirstWritten(t, []);
    assert [a] + ([b] + (Written(t) + [])) == [a, b] + Written(t);
    var ts := [Leaf(a), Leaf(b), t];
    assert forall k | 0 <= k < 3 :: Good(ts[k]);
  }

  lemma LeafIsGood(a: Token)
    requires IsLeaf(a)
    ensures Good(Leaf(a)) && Written(Leaf(a)) == [a] && AllWritten([]) == []
  {
  }

  lemma FirstWritten(t: Tree, rest: seq<Tree>)
    ensures AllWritten([t] + rest) == Written(t) + AllWritten(rest)
  {
    assert ([t] + rest)[1..] == rest;
  }

  function ItemRows(items: seq<Item>): seq<seq<Tree>> { seq(|items|, k requires 0 <= k < |items| => CallTrees(items[k])) }

  function DependenciesOf(items: seq<Item>): seq<Dependency> {
    seq(|items|, k requires 0 <= k < |items| => items[k].dependency)
  }

  ghost predicate AllValid(items: seq<Item>) { forall k | 0 <= k < |items| :: items[k].Valid() }

  lemma {:induction false} RowsAreReadAll(items: seq<Item>)
    requires AllValid(items)
    ensures ReadAll(AllRows(ItemRows(items))) == Some(DependenciesOf(items))
  {
    hide Item.Valid, ReadDependency, CallTrees, CallTokens;
    if items == [] {
      assert AllRows(ItemRows(items)) == [] && DependenciesOf(items) == [];
    } else {
      CallIsARow(items[0]);
      DependencyIsRead(items[0]);
      RowsAreReadAll(items[1..]);
      var rest := AllRows(ItemRows(items[1..]));
      assert AllRows(ItemRows(items)) == [CallTokens(items[0])] + rest;
      assert ([CallTokens(items[0])] + rest)[1..] == rest;
      assert DependenciesOf(items) == [items[0].dependency] + DependenciesOf(items[1..]);
    }
  }

  /** The array of the items is read back. */
  lemma ArrayIsRead(items: seq<Item>, lastComma: bool)
    requires AllValid(items)
    ensures var list := [OPEN_LIST] + AllWritten(Listed(ItemRows(items), lastComma)) + [CLOSE_LIST];
            ReadArray(list) == Some(DependenciesOf(items)) && AllGood(Listed(ItemRows(items), lastComma))
  {
    hide CallTrees, Listed, IsTreeRow, ReadAll;
    var rows := ItemRows(items);
    forall k | 0 <= k < |rows| ensures IsTreeRow(rows[k]) { CallIsARow(items[k]); }
    ListedRows(rows, lastComma);
    ListedAreGood(rows, lastComma);
    BalancedIsSplit(Listed(rows, lastComma));
    RowsAreReadAll(items);
    var list := [OPEN_LIST] + AllWritten(Listed(rows, lastComma)) + [CLOSE_LIST];
    assert list[1..|list| - 1] == AllWritten(Listed(rows, lastComma));
  }

  /** What listed rows hold is what each of them holds. */
  lemma {:induction false} ListedGives(rows: seq<seq<Tree>>, lastComma: bool, ds: seq<seq<Dependency>>)
    requires |rows| == |ds| && forall k | 0 <= k < |rows| :: Gives(AllWritten(rows[k]), ds[k])
    ensures Gives(AllWritten(Listed(rows, lastComma)), Concat(ds))
  {
    hide Gives, Calls;
    NothingGives();
    if rows != [] {
      var w, comma := AllWritten(rows[0]), [COMMA];
      CommaIsOne();
      if |rows| == 1 {
        WrittenSum(rows[0], if lastComma then [Leaf(COMMA)] else []);
        GivesBoth(w, ds[0], if lastComma then comma else [], []);
        assert w + [] == w && ds[0] + [] == ds[0] == Concat(ds) by { assert ds[1..] == []; }
        assert rows[0] + [] == rows[0];
      } else {
        ListedGives(rows[1..], lastComma, ds[1..]);
        var more := AllWritten(Listed(rows[1..], lastComma));
        WrittenSum(rows[0] + [Leaf(COMMA)], Listed(rows[1..], lastComma));
        WrittenSum(rows[0], [Leaf(COMMA)]);
        GivesBoth(w, ds[0], comma, []);
        GivesBoth(w + comma, ds[0] + [], more, Concat(ds[1..]));
        assert ds[0] + [] + Concat(ds[1..]) == Concat(ds);
      }
    }
  }

  function Concat(ds: seq<seq<Dependency>>): seq<Dependency> { if ds == [] then [] else ds[0] + Concat(ds[1..]) }

  lemma NothingGives()
    ensures Gives([], []) && Gives([COMMA], [])
  {
    NoCallGivesNothing([]);
    NoCallGivesNothing([COMMA]);
  }

  lemma CommaIsOne()
    ensures AllWritten([Leaf(COMMA)]) == [COMMA] && AllWritten([]) == []
  {
    assert Written(Leaf(COMMA)) == [COMMA];
  }

  // ---- A written manifest is read back -------------------------------------------------------------------

  /**
   A manifest: one `Package` call whose `n`-th argument is the dependency array, with other
   arguments, and other tokens before and behind, that hold no package call.
   */
  datatype Manifest = Manifest(
    before: Tokens, rows: seq<seq<Tree>>, n: nat, items: seq<Item>, itemsComma: bool, lastComma: bool, after: Tokens)

  function ArrayTrees(m: Manifest): seq<Tree> {
    [Leaf(DEPENDENCIES), Leaf(COLON), Group(OPEN_LIST, Listed(ItemRows(m.items), m.itemsComma))]
  }

  function ManifestTokens(m: Manifest): Tokens {
    m.before + [MANIFEST, OPEN] + AllWritten(Listed(m.rows, m.lastComma)) + [CLOSE] + m.after
  }

  ghost predicate Quiet(x: Tokens) { NoCall(x) && NoManifest(x) }

  ghost predicate ValidManifest(m: Manifest) {
    && Quiet(m.before) && Quiet(m.after) && AllValid(m.items) && m.n < |m.rows| && m.rows[m.n] == ArrayTrees(m)
    && forall k | 0 <= k < |m.rows| && k != m.n ::
         IsTreeRow(m.rows[k]) && Quiet(AllWritten(m.rows[k])) && !Declares(AllWritten(m.rows[k]))
  }

  lemma ArrayTokens(m: Manifest)
    requires AllValid(m.items)
    ensures IsTreeRow(ArrayTrees(m))
    ensures AllWritten(ArrayTrees(m))
         == [DEPENDENCIES, COLON, OPEN_LIST] + AllWritten(Listed(ItemRows(m.items), m.itemsComma)) + [CLOSE_LIST]
  {
    hide ItemRows, Listed, AllWritten, Written, Good, ReadArray, AllValid;
    ArrayIsRead(m.items, m.itemsComma);
    GroupIsGood(OPEN_LIST, Listed(ItemRows(m.items), m.itemsComma));
    ThreeTrees(DEPENDENCIES, COLON, Group(OPEN_LIST, Listed(ItemRows(m.items), m.itemsComma)));
  }

  lemma GroupIsGood(open: Token, inside: seq<Tree>)
    requires IsOpen(open) && AllGood(inside)
    ensures Good(Group(open, inside)) && Written(Group(open, inside)) == [open] + AllWritten(inside) + [Closing(open)]
  {
  }

  /** The array holds its calls. */
  lemma ArrayGives(m: Manifest)
    requires AllValid(m.items)
    ensures Gives(AllWritten(ArrayTrees(m)), DependenciesOf(m.items))
  {
    hide Gives, Listed, CallTrees, CallTokens, Item.Valid, ArrayTrees;
    ArrayTokens(m);
    var rows, ds := ItemRows(m.items), Singles(m.items);
    forall k | 0 <= k < |rows| ensures Gives(AllWritten(rows[k]), ds[k]) {
      CallIsARow(m.items[k]);
      CallGives(m.items[k]);
    }
    ListedGives(rows, m.itemsComma, ds);
    ConcatSingles(m.items);
    var inside := AllWritten(Listed(rows, m.itemsComma));
    NoCallGivesNothing([DEPENDENCIES, COLON, OPEN_LIST]);
    NoCallGivesNothing([CLOSE_LIST]);
    GivesBoth([DEPENDENCIES, COLON, OPEN_LIST], [], inside, DependenciesOf(m.items));
    GivesBoth([DEPENDENCIES, COLON, OPEN_LIST] + inside, [] + DependenciesOf(m.items), [CLOSE_LIST], []);
    assert [] + DependenciesOf(m.items) + [] == DependenciesOf(m.items);
  }

  function Singles(items: seq<Item>): seq<seq<Dependency>> {
    seq(|items|, k requires 0 <= k < |items| => [items[k].dependency])
  }

  lemma {:induction false} ConcatSingles(items: seq<Item>)
    ensures Concat(Singles(items)) == DependenciesOf(items)
  {
    if items != [] {
      ConcatSingles(items[1..]);
      assert Singles(items) == [[items[0].dependency]] + Singles(items[1..]);
      assert DependenciesOf(items) == [items[0].dependency] + DependenciesOf(items[1..]);
    }
  }

  lemma ManifestGives(m: Manifest)
    requires ValidManifest(m)
    ensures Calls(ManifestTokens(m)) == Some(DependenciesOf(m.items))
  {
    hide Gives, Listed, Quiet, ArrayTrees, NoManifest, Calls;
    var ds := seq(|m.rows|, k => if k == m.n then DependenciesOf(m.items) else []);
    forall k | 0 <= k < |m.rows| ensures Gives(AllWritten(m.rows[k]), ds[k]) {
      if k == m.n { ArrayGives(m); } else { QuietGivesNothing(AllWritten(m.rows[k])); }
    }
    ListedGives(m.rows, m.lastComma, ds);
    ConcatOne(ds, m.n);
    var inside := AllWritten(Listed(m.rows, m.lastComma));
    QuietGivesNothing(m.before);
    QuietGivesNothing(m.after);
    NoCallGivesNothing([MANIFEST, OPEN]);
    NoCallGivesNothing([CLOSE]);
    GivesBoth(m.before, [], [MANIFEST, OPEN], []);
    GivesBoth(m.before + [MANIFEST, OPEN], [] + [], inside, Concat(ds));
    GivesBoth(m.before + [MANIFEST, OPEN] + inside, [] + [] + Concat(ds), [CLOSE], []);
    GivesBoth(m.before + [MANIFEST, OPEN] + inside + [CLOSE], [] + [] + Concat(ds) + [], m.after, []);
    assert [] + [] + Concat(ds) + [] + [] == Concat(ds);
    GivenAre(ManifestTokens(m), Concat(ds));
  }

  lemma QuietGivesNothing(x: Tokens)
    requires Quiet(x)
    ensures Gives(x, [])
  {
    NoCallGivesNothing(x);
  }

  lemma GivenAre(x: Tokens, ds: seq<Dependency>)
    requires Gives(x, ds)
    ensures Calls(x) == Some(ds)
  {
    assert x + [] == x && ds + [] == ds && Calls([]) == Some([]);
  }

  lemma {:induction false} ConcatNone(ds: seq<seq<Dependency>>)
    requires forall k | 0 <= k < |ds| :: ds[k] == []
    ensures Concat(ds) == []
  {
    if ds != [] { ConcatNone(ds[1..]); }
  }

  lemma {:induction false} ConcatOne(ds: seq<seq<Dependency>>, n: nat)
    requires n < |ds| && forall k | 0 <= k < |ds| && k != n :: ds[k] == []
    ensures Concat(ds) == ds[n]
  {
    if n == 0 {
      ConcatNone(ds[1..]);
      assert ds[0] + [] == ds[0];
    } else {
      ConcatOne(ds[1..], n - 1);
      assert [] + ds[n] == ds[n];
    }
  }

  // ---- The one `Package` call ------------------------------------------------------------------------------

  lemma NoManifestInBoth(x: Tokens, y: Tokens)
    requires NoManifest(x) && NoManifest(y)
    ensures NoManifest(x + y)
  {
  }

  lemma NoManifestWithout(x: Tokens)
    requires MANIFEST !in x
    ensures NoManifest(x)
  {
  }

  lemma {:induction false} ListedNoManifest(rows: seq<seq<Tree>>, lastComma: bool)
    requires forall k | 0 <= k < |rows| :: NoManifest(AllWritten(rows[k]))
    ensures NoManifest(AllWritten(Listed(rows, lastComma)))
  {
    hide NoManifest;
    NoManifestWithout([]);
    NoManifestWithout([COMMA]);
    CommaIsOne();
    if rows != [] {
      if |rows| == 1 {
        WrittenSum(rows[0], if lastComma then [Leaf(COMMA)] else []);
        NoManifestInBoth(AllWritten(rows[0]), if lastComma then [COMMA] else []);
      } else {
        ListedNoManifest(rows[1..], lastComma);
        WrittenSum(rows[0] + [Leaf(COMMA)], Listed(rows[1..], lastComma));
        WrittenSum(rows[0], [Leaf(COMMA)]);
        NoManifestInBoth(AllWritten(rows[0]), [COMMA]);
        NoManifestInBoth(AllWritten(rows[0]) + [COMMA], AllWritten(Listed(rows[1..], lastComma)));
      }
    }
  }

  lemma ArrayNoManifest(m: Manifest)
    requires AllValid(m.items)
    ensures NoManifest(AllWritten(ArrayTrees(m)))
  {
    hide NoManifest, Listed, CallTrees, ArrayTrees, ArgumentTrees;
    ArrayTokens(m);
    var rows := ItemRows(m.items);
    NamesDiffer();
    forall k | 0 <= k < |rows| ensures NoManifest(AllWritten(rows[k])) {
      CallIsARow(m.items[k]);
      ArgumentTokens(m.items[k]);
      NoManifestWithout(CallTokens(m.items[k]));
    }
    ListedNoManifest(rows, m.itemsComma);
    var inside := AllWritten(Listed(rows, m.itemsComma));
    assert |MANIFEST.text| == 7 && |DEPENDENCIES.text| == 12;
    NoManifestWithout([DEPENDENCIES, COLON, OPEN_LIST]);
    NoManifestWithout([CLOSE_LIST]);
    NoManifestInBoth([DEPENDENCIES, COLON, OPEN_LIST], inside);
    NoManifestInBoth([DEPENDENCIES, COLON, OPEN_LIST] + inside, [CLOSE_LIST]);
  }

  lemma RowsOfManifest(m: Manifest)
    requires ValidManifest(m)
    ensures AllGood(Listed(m.rows, m.lastComma)) && Rows(AllWritten(Listed(m.rows, m.lastComma))) == Some(AllRows(m.rows))
    ensures NoManifest(AllWritten(Listed(m.rows, m.lastComma)))
  {
    hide ArrayTrees, NoManifest, NoCall, IsTreeRow, Listed, Rows;
    ArrayTokens(m);
    ArrayNoManifest(m);
    forall k | 0 <= k < |m.rows| ensures IsTreeRow(m.rows[k]) && NoManifest(AllWritten(m.rows[k])) {}
    ListedRows(m.rows, m.lastComma);
    ListedAreGood(m.rows, m.lastComma);
    BalancedIsSplit(Listed(m.rows, m.lastComma));
    ListedNoManifest(m.rows, m.lastComma);
  }

  lemma OneConstructor(m: Manifest)
    requires ValidManifest(m)
    ensures Constructors(ManifestTokens(m)) == Some([AllRows(m.rows)])
  {
    hide Listed, NoManifest, NoCall, Rows, AllRows, ArrayTrees, AllWritten, EndOf, Declares, IsTreeRow;
    RowsOfManifest(m);
    var trees := Listed(m.rows, m.lastComma);
    var inside := AllWritten(trees);
    var call := [MANIFEST, OPEN] + inside + [CLOSE] + m.after;
    var tail := [OPEN] + inside + [CLOSE] + m.after;
    assert ManifestTokens(m) == m.before + call;
    ConstructorsBehind(m.before, call);
    NoManifestWithout([OPEN]);
    NoManifestWithout([CLOSE]);
    NoManifestInBoth([OPEN], inside);
    NoManifestInBoth([OPEN] + inside, [CLOSE]);
    NoManifestInBoth([OPEN] + inside + [CLOSE], m.after);
    ConstructorsBehind(tail, []);
    assert tail + [] == tail && call[1..] == tail;
    CallEndsAtItsBracket([MANIFEST], trees, m.after);
    assert call == [MANIFEST] + [OPEN] + inside + [CLOSE] + m.after;
    assert EndOf(call, 1) == Some(2 + |inside|);
    assert call[2..2 + |inside|] == inside;
    assert Constructors(tail) == Some([]);
    CallIsConstructor(call, 2 + |inside|, inside, AllRows(m.rows));
  }

  lemma CallIsConstructor(call: Tokens, end: nat, inside: Tokens, rows: seq<Tokens>)
    requires |call| > 2 && call[0] == MANIFEST && call[1] == OPEN && EndOf(call, 1) == Some(end) && 2 <= end <= |call|
    requires call[2..end] == inside && Rows(inside) == Some(rows) && Constructors(call[1..]) == Some([])
    ensures Constructors(call) == Some([rows])
  {
    hide Rows, EndOf;
    assert [rows] + [] == [rows];
  }

  lemma {:induction false} OneDeclaration(rows: seq<Tokens>, n: nat)
    requires n < |rows| && Declares(rows[n]) && forall k | 0 <= k < |rows| && k != n :: !Declares(rows[k])
    ensures Declarations(rows) == [rows[n]]
  {
    if n == 0 {
      NoDeclaration(rows[1..]);
    } else {
      OneDeclaration(rows[1..], n - 1);
    }
  }

  lemma {:induction false} NoDeclaration(rows: seq<Tokens>)
    requires forall k | 0 <= k < |rows| :: !Declares(rows[k])
    ensures Declarations(rows) == []
  {
    if rows != [] { NoDeclaration(rows[1..]); }
  }

  /** Whatever manifest is written, its dependencies are read back, in order. */
  lemma ManifestIsReadBack(m: Manifest)
    requires ValidManifest(m)
    ensures Dependencies(ManifestTokens(m)) == Some(DependenciesOf(m.items))
  {
    hide ManifestTokens, Calls, Constructors, Listed, Quiet, ArrayTrees, ReadArray;
    ManifestGives(m);
    OneConstructor(m);
    ArrayTokens(m);
    ArrayIsRead(m.items, m.itemsComma);
    var rows := AllRows(m.rows);
    OneDeclaration(rows, m.n);
    var inside := AllWritten(Listed(ItemRows(m.items), m.itemsComma));
    assert rows[m.n] == [DEPENDENCIES, COLON, OPEN_LIST] + inside + [CLOSE_LIST];
    assert rows[m.n][2..] == [OPEN_LIST] + inside + [CLOSE_LIST];
    assert Declarations(rows)[0] == rows[m.n];
    DependenciesAre(ManifestTokens(m), rows, rows[m.n], DependenciesOf(m.items));
  }

  lemma DependenciesAre(input: Tokens, rows: seq<Tokens>, declaration: Tokens, ds: seq<Dependency>)
    requires Calls(input) == Some(ds) && Constructors(input) == Some([rows]) && Declarations(rows) == [declaration]
    requires |declaration| >= 2 && ReadArray(declaration[2..]) == Some(ds)
    ensures Dependencies(input) == Some(ds)
  {
    hide Calls, Constructors, Declarations, ReadArray;
    var constructors := Constructors(input);
    assert constructors.value[0] == rows;
    assert Declarations(constructors.value[0])[0] == declaration;
  }

  /** `swiftDependencies` */
  function ReadSource(text: string): Option<seq<Dependency>> {
    var input := SwiftLexer.Lex(text);
    if input.None? then None else Dependencies(input.value)
  }

  /** A source that writes a manifest down, with any gaps and comments, gives back its dependencies. */
  lemma SourceIsReadBack(m: Manifest, items: seq<SwiftLexer.Item>)
    requires ValidManifest(m) && SwiftLexer.ValidSource(items) && SwiftLexer.TokensOf(items) == ManifestTokens(m)
    ensures ReadSource(SwiftLexer.Write(items)) == Some(DependenciesOf(m.items))
  {
    hide ValidManifest, ManifestTokens, Dependencies;
    SwiftLexer.SourceIsReadBack(items);
    ManifestIsReadBack(m);
  }
}
