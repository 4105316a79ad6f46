/** Exactly which manifests are read, and as which dependencies. */
module SwiftManifests {
  import opened Bytes
  import opened SwiftTokens
  import opened SwiftDependencies
  import SwiftLexer
  import SwiftSources

  // ---- Places of a list -------------------------------------------------------------------------------

  ghost function Later(places: seq<nat>): (later: seq<nat>)
    ensures |later| == |places| && forall k | 0 <= k < |places| :: later[k] == places[k] + 1
  {
    seq(|places|, k requires 0 <= k < |places| => places[k] + 1)
  }

  /** Where something starts. */
  ghost function Places(input: Tokens, starts: Tokens -> bool): (places: seq<nat>)
    ensures forall k | 0 <= k < |places| :: places[k] < |input|
  {
    if input == [] then [] else (if starts(input) then [0] else []) + Later(Places(input[1..], starts))
  }

  /** All the places, in order. */
  lemma {:induction false} PlacesAre(input: Tokens, starts: Tokens -> bool)
    ensures forall j, k | 0 <= j < k < |Places(input, starts)| :: Places(input, starts)[j] < Places(input, starts)[k]
    ensures forall p: nat :: p in Places(input, starts) <==> p < |input| && starts(input[p..])
  {
    if input != [] {
      var places, rest := Places(input, starts), Places(input[1..], starts);
      PlacesAre(input[1..], starts);
      assert input[0..] == input;
      forall p: nat ensures p in places <==> p < |input| && starts(input[p..]) {
        if p > 0 {
          LaterPlaces(rest, p - 1);
          assert p < |input| ==> input[1..][p - 1..] == input[p..];
        }
        LaterPlaces(rest, 0);
      }
    }
  }

  lemma LaterPlaces(places: seq<nat>, p: nat)
    ensures p + 1 in Later(places) <==> p in places
    ensures 0 !in Later(places)
  {
    if p in places {
      var k :| 0 <= k < |places| && places[k] == p;
      assert Later(places)[k] == p + 1;
    }
  }

  ghost predicate AreAt<T>(input: Tokens, places: seq<nat>, found: seq<T>, holds: (Tokens, T) -> bool) {
    && |places| == |found|
    && forall k | 0 <= k < |places| :: places[k] <= |input| && holds(input[places[k]..], found[k])
  }

  /** These are found at all the places where something starts, in order. */
  ghost predicate AreIn<T>(input: Tokens, found: seq<T>, starts: Tokens -> bool, holds: (Tokens, T) -> bool) {
    AreAt(input, Places(input, starts), found, holds)
  }

  lemma AtLater<T>(input: Tokens, places: seq<nat>, found: seq<T>, holds: (Tokens, T) -> bool)
    requires input != []
    ensures AreAt(input, Later(places), found, holds) <==> AreAt(input[1..], places, found, holds)
  {
    forall k | 0 <= k < |places|
      ensures places[k] + 1 <= |input| <==> places[k] <= |input[1..]|
      ensures places[k] + 1 <= |input| ==> input[1..][places[k]..] == input[Later(places)[k]..]
    {
    }
  }

  lemma AtFirst<T>(input: Tokens, places: seq<nat>, found: seq<T>, holds: (Tokens, T) -> bool)
    ensures AreAt(input, [0] + places, found, holds) <==>
              found != [] && holds(input, found[0]) && AreAt(input, places, found[1..], holds)
  {
    var all := [0] + places;
    assert input[0..] == input && all[0] == 0;
    assert forall k | 0 <= k < |places| :: all[k + 1] == places[k];
    if found != [] && |found| == |all| {
      var more := found[1..];
      forall k | 0 <= k < |places|
        ensures places[k] <= |input| ==> (holds(input[places[k]..], more[k]) <==> holds(input[all[k + 1]..], found[k + 1]))
      {
      }
      assert forall k | 0 < k < |all| :: all[k] == places[k - 1] && found[k] == more[k - 1];
    }
  }

  /** What is found in a list is what starts with it, if something does, and what is found in the rest. */
  lemma InParts<T>(input: Tokens, found: seq<T>, starts: Tokens -> bool, holds: (Tokens, T) -> bool)
    requires input != []
    ensures AreIn(input, found, starts, holds) <==>
              if starts(input) then found != [] && holds(input, found[0]) && AreIn(input[1..], found[1..], starts, holds)
              else AreIn(input[1..], found, starts, holds)
  {
    hide AreAt;
    var rest := Places(input[1..], starts);
    if starts(input) {
      AtFirst(input, Later(rest), found, holds);
      if found != [] { AtLater(input, rest, found[1..], holds); }
    } else {
      assert [] + Later(rest) == Later(rest);
      AtLater(input, rest, found, holds);
    }
  }

  // ---- One package call -------------------------------------------------------------------------------

  /** A repository of the organization, by its public address. */
  ghost predicate IsPublicUrl(t: string) {
    exists name :: t == "https://github.com/aikdna/" + name + ".git" && IsRepositoryName(name)
  }

  ghost predicate IsRepositoryName(name: string) {
    name != "" && forall k | 0 <= k < |name| :: name[k] in SwiftSources.SMALL_LETTERS || name[k] in SwiftSources.DIGITS || name[k] == '-'
  }

  /** A commit in full. */
  ghost predicate IsCommit(t: string) { |t| == 40 && forall k | 0 <= k < 40 :: t[k] in SwiftSources.DIGITS || t[k] in "abcdef" }

  lemma CharactersAre(c: char)
    ensures IsSlug(c) <==> c in SwiftSources.SMALL_LETTERS || c in SwiftSources.DIGITS || c == '-'
    ensures IsHex(c) <==> c in SwiftSources.DIGITS || c in "abcdef"
  {
    SwiftSources.Run(SwiftSources.SMALL_LETTERS, 0x61, c);
    SwiftSources.Run(SwiftSources.DIGITS, 0x30, c);
    SwiftSources.Run("abcdef", 0x61, c);
  }

  lemma UrlParts(t: string, name: string)
    requires t == URL_START + name + URL_END
    ensures |t| == |URL_START| + |name| + |URL_END| && t[..|URL_START|] == URL_START && t[|t| - |URL_END|..] == URL_END
    ensures forall k | 0 <= k < |name| :: t[|URL_START| + k] == name[k]
  {
  }

  lemma UrlsAre(t: string)
    ensures IsUrl(t) <==> IsPublicUrl(t)
  {
    hide IsSlug;
    forall c ensures IsSlug(c) <==> c in SwiftSources.SMALL_LETTERS || c in SwiftSources.DIGITS || c == '-' { CharactersAre(c); }
    forall name | t == "https://github.com/aikdna/" + name + ".git" && IsRepositoryName(name) ensures IsUrl(t) {
      UrlParts(t, name);
      forall k | |URL_START| <= k < |t| - |URL_END| ensures IsSlug(t[k]) {
        assert t[k] == name[k - |URL_START|];
      }
    }
    if IsUrl(t) {
      var name := t[|URL_START|..|t| - |URL_END|];
      assert t == URL_START + name + URL_END;
    }
  }

  lemma CommitsAre(t: string)
    ensures IsRevision(t) <==> IsCommit(t)
  {
    hide IsHex;
    forall c ensures IsHex(c) <==> c in SwiftSources.DIGITS || c in "abcdef" { CharactersAre(c); }
  }

  ghost function ArgumentText(name: string, value: string): Tokens { [Plain(name), Plain(":"), Literal(value)] }

  /** The arguments in this order, and perhaps a comma behind them. */
  ghost function ArgumentsText(d: Dependency, revisionFirst: bool, lastComma: bool): Tokens {
    var url, revision := ArgumentText("url", d.url), ArgumentText("revision", d.revision);
    (if revisionFirst then revision + [Plain(",")] + url else url + [Plain(",")] + revision)
    + if lastComma then [Plain(",")] else []
  }

  ghost function CallText(d: Dependency, revisionFirst: bool, lastComma: bool): Tokens {
    [Plain("."), Plain("package"), Plain("(")] + ArgumentsText(d, revisionFirst, lastComma) + [Plain(")")]
  }

  /** A call of `.package` with the address and the commit of this dependency. */
  ghost predicate IsCallOf(call: Tokens, d: Dependency) {
    && IsPublicUrl(d.url) && IsCommit(d.revision)
    && exists revisionFirst, lastComma :: call == CallText(d, revisionFirst, lastComma)
  }

  ghost function Leaves(tokens: Tokens): seq<Tree> { seq(|tokens|, k requires 0 <= k < |tokens| => Leaf(tokens[k])) }

  lemma {:induction false} LeavesAreWritten(tokens: Tokens)
    ensures AllWritten(Leaves(tokens)) == tokens
  {
    if tokens != [] {
      LeavesAreWritten(tokens[1..]);
      assert Leaves(tokens)[1..] == Leaves(tokens[1..]);
      assert Written(Leaves(tokens)[0]) == [tokens[0]];
    }
  }

  lemma ItemIsCall(i: Item)
    ensures CallTokens(i) == CallText(i.dependency, i.revisionFirst, i.lastComma)
  {
    hide AllWritten;
    var text := ArgumentsText(i.dependency, i.revisionFirst, i.lastComma);
    LeavesAreWritten(text);
    assert ArgumentTrees(i) == Leaves(text);
  }

  lemma ReadIsCall(input: Tokens) returns (i: Item)
    requires ReadDependency(input).Some?
    ensures i.Valid() && i.dependency == ReadDependency(input).value && CallTokens(i) == input
  {
    hide IsUrl, IsRevision, Rows, IsRow, EndOf;
    var n, inside := |input| - 1, input[3..|input| - 1];
    assert input[2] == OPEN && input[n] == CLOSE by { EndHasBrackets(input); }
    var args := Rows(inside).value;
    SplitIsExact(inside);
    assert args == [args[0], args[1]] && args[1..] == [args[1]];
    assert WithCommas(args) == args[0] + [COMMA] + args[1];
    var d := ReadDependency(input).value;
    i := Item(d, args[0][0] == REVISION, inside != WithCommas(args));
    NamesDiffer();
    forall k | 0 <= k < 2 ensures args[k] == [args[k][0], Plain(":"), Literal(args[k][2].text)] {
      assert IsArgument(args[k]);
    }
    assert inside == ArgumentsText(d, i.revisionFirst, i.lastComma);
    assert input == [DOT, CALL, OPEN] + inside + [CLOSE];
    ItemIsCall(i);
  }

  lemma EndHasBrackets(input: Tokens)
    requires EndOf(input, 2) == Some(|input| - 1)
    ensures |input| > 2 && input[2] == OPEN && input[|input| - 1] == CLOSE
  {
  }

  /** A call is read as a dependency exactly when it is one of its calls. */
  lemma CallsOfDependencies(input: Tokens, d: Dependency)
    ensures ReadDependency(input) == Some(d) <==> IsCallOf(input, d)
  {
    hide ReadDependency, CallTokens, CallText, IsUrl, IsRevision, IsPublicUrl, IsCommit;
    UrlsAre(d.url);
    CommitsAre(d.revision);
    if ReadDependency(input) == Some(d) {
      var i := ReadIsCall(input);
      ItemIsCall(i);
    }
    if IsCallOf(input, d) {
      var revisionFirst, lastComma :| input == CallText(d, revisionFirst, lastComma);
      var i := Item(d, revisionFirst, lastComma);
      ItemIsCall(i);
      DependencyIsRead(i);
    }
  }

  // ---- All package calls ------------------------------------------------------------------------------

  ghost predicate StartsCall(rest: Tokens) { |rest| >= 2 && rest[0] == Plain(".") && rest[1] == Plain("package") }

  ghost predicate HoldsCall(rest: Tokens, d: Dependency) { exists call, after :: rest == call + after && IsCallOf(call, d) }

  lemma FirstCallIs(input: Tokens, d: Dependency)
    requires StartsCall(input)
    ensures HoldsCall(input, d) <==>
              EndOf(input, 2).Some? && ReadDependency(input[..EndOf(input, 2).value + 1]) == Some(d)
  {
    hide IsCallOf, EndOf, ReadDependency, CallText;
    if EndOf(input, 2).Some? {
      var end := EndOf(input, 2).value;
      CallsOfDependencies(input[..end + 1], d);
      assert input == input[..end + 1] + input[end + 1..];
    }
    forall call, after | input == call + after && IsCallOf(call, d)
      ensures EndOf(input, 2).Some? && input[..EndOf(input, 2).value + 1] == call
    {
      CallEnds(call, after, d);
    }
    forall call | IsCallOf(call, d) ensures ReadDependency(call) == Some(d) { CallsOfDependencies(call, d); }
  }

  lemma CallEnds(call: Tokens, after: Tokens, d: Dependency)
    requires IsCallOf(call, d)
    ensures EndOf(call + after, 2) == Some(|call| - 1) && (call + after)[..|call|] == call
  {
    hide EndOf, IsPublicUrl, IsCommit, ArgumentsText, AllWritten;
    var revisionFirst, lastComma :| call == CallText(d, revisionFirst, lastComma);
    var i := Item(d, revisionFirst, lastComma);
    ItemIsCall(i);
    ArgumentsAreRead(i);
    CallEndsAtItsBracket([DOT, CALL], ArgumentTrees(i), after);
    assert call + after == [DOT, CALL] + [OPEN] + AllWritten(ArgumentTrees(i)) + [CLOSE] + after;
  }

  /** The package calls that are read are all there are, in order. */
  lemma {:induction false} CallsAre(input: Tokens, ds: seq<Dependency>)
    ensures Calls(input) == Some(ds) <==> AreIn(input, ds, rest => StartsCall(rest), (rest, d) => HoldsCall(rest, d))
    decreases |input|
  {
    hide AreIn, HoldsCall, EndOf, ReadDependency;
    if |input| == 0 {
      NothingIn(ds, rest => StartsCall(rest), (rest, d) => HoldsCall(rest, d));
    } else {
      InParts(input, ds, rest => StartsCall(rest), (rest, d) => HoldsCall(rest, d));
      CallsAre(input[1..], ds);
      if ds != [] {
        CallsAre(input[1..], ds[1..]);
        assert ds == [ds[0]] + ds[1..];
        if StartsCall(input) { FirstCallIs(input, ds[0]); }
      }
      ShortHasNone(input);
    }
  }

  lemma ShortHasNone(input: Tokens)
    ensures |input| == 1 ==> Calls(input[1..]) == Some([])
  {
  }

  lemma NothingIn<T>(found: seq<T>, starts: Tokens -> bool, holds: (Tokens, T) -> bool)
    ensures AreIn([], found, starts, holds) <==> found == []
  {
  }

  // ---- The manifest call ------------------------------------------------------------------------------

  ghost predicate StartsManifest(rest: Tokens) { |rest| >= 2 && rest[0] == Plain("Package") && rest[1] == Plain("(") }

  /** A call of `Package` with balanced arguments, which are these rows. */
  ghost predicate HoldsArguments(rest: Tokens, rows: seq<Tokens>) {
    exists ts, after ::
      rest == [Plain("Package"), Plain("(")] + AllWritten(ts) + [Plain(")")] + after && AllGood(ts) && rows == TreeRows(ts, [])
  }

  lemma FirstArgumentsAre(input: Tokens, rows: seq<Tokens>)
    requires StartsManifest(input)
    ensures HoldsArguments(input, rows) <==>
              EndOf(input, 1).Some? && Rows(input[2..EndOf(input, 1).value]) == Some(rows)
  {
    hide EndOf, Rows, AllWritten, AllGood, TreeRows;
    if EndOf(input, 1).Some? && Rows(input[2..EndOf(input, 1).value]) == Some(rows) {
      var end := EndOf(input, 1).value;
      var ts := Balanced(input[2..end]);
      assert input == [Plain("Package"), Plain("(")] + AllWritten(ts) + [Plain(")")] + input[end + 1..];
    }
    forall ts, after
      | input == [Plain("Package"), Plain("(")] + AllWritten(ts) + [Plain(")")] + after && AllGood(ts) && rows == TreeRows(ts, [])
      ensures EndOf(input, 1) == Some(2 + |AllWritten(ts)|) && input[2..2 + |AllWritten(ts)|] == AllWritten(ts)
      ensures Rows(AllWritten(ts)) == Some(rows)
    {
      CallEndsAtItsBracket([MANIFEST], ts, after);
      assert input == [MANIFEST] + [OPEN] + AllWritten(ts) + [CLOSE] + after;
      BalancedIsSplit(ts);
    }
  }

  /** Tokens that are split are balanced, and their rows are those between top-level commas. */
  lemma Balanced(input: Tokens) returns (ts: seq<Tree>)
    requires Rows(input).Some?
    ensures AllGood(ts) && AllWritten(ts) == input && Rows(input) == Some(TreeRows(ts, []))
  {
    hide Rows, AllWritten, AllGood, TreeRows;
    SplitsExactlyBalanced(input);
    ts :| AllGood(ts) && AllWritten(ts) == input;
    BalancedIsSplit(ts);
  }

  /** The same for the calls of `Package`. */
  lemma {:induction false} ConstructorsAre(input: Tokens, all: seq<seq<Tokens>>)
    ensures Constructors(input) == Some(all)
            <==> AreIn(input, all, rest => StartsManifest(rest), (rest, rows) => HoldsArguments(rest, rows))
    decreases |input|
  {
    hide AreIn, HoldsArguments, EndOf, Rows;
    if |input| == 0 {
      NothingIn(all, rest => StartsManifest(rest), (rest, rows) => HoldsArguments(rest, rows));
    } else {
      InParts(input, all, rest => StartsManifest(rest), (rest, rows) => HoldsArguments(rest, rows));
      ConstructorsAre(input[1..], all);
      if all != [] {
        ConstructorsAre(input[1..], all[1..]);
        assert all == [all[0]] + all[1..];
        if StartsManifest(input) { FirstArgumentsAre(input, all[0]); }
      }
      ShortHasNoManifest(input);
    }
  }

  lemma ShortHasNoManifest(input: Tokens)
    ensures |input| == 1 ==> Constructors(input[1..]) == Some([])
  {
  }

  // ---- The dependency array -----------------------------------------------------------------------------

  ghost predicate IsDeclaration(row: Tokens) { |row| >= 2 && row[0] == Plain("dependencies") && row[1] == Plain(":") }

  ghost predicate IsOnlyDeclaration(rows: seq<Tokens>, n: int) {
    0 <= n < |rows| && IsDeclaration(rows[n]) && forall k | 0 <= k < |rows| && k != n :: !IsDeclaration(rows[k])
  }

  lemma {:induction false} DeclarationsAre(rows: seq<Tokens>)
    ensures |Declarations(rows)| == 1 <==> exists n :: IsOnlyDeclaration(rows, n)
    ensures forall n | IsOnlyDeclaration(rows, n) :: Declarations(rows) == [rows[n]]
  {
    forall n | IsOnlyDeclaration(rows, n) ensures Declarations(rows) == [rows[n]] { OneDeclaration(rows, n); }
    if |Declarations(rows)| == 1 { var n := TheDeclaration(rows); }
  }

  lemma {:induction false} TheDeclaration(rows: seq<Tokens>) returns (n: nat)
    requires |Declarations(rows)| == 1
    ensures IsOnlyDeclaration(rows, n)
  {
    if Declares(rows[0]) {
      n := 0;
      NoneDeclared(rows[1..]);
      assert forall k | 0 < k < |rows| :: rows[k] == rows[1..][k - 1];
    } else {
      var m := TheDeclaration(rows[1..]);
      n := m + 1;
      assert forall k | 0 < k < |rows| :: rows[k] == rows[1..][k - 1];
    }
  }

  lemma {:induction false} NoneDeclared(rows: seq<Tokens>)
    requires Declarations(rows) == []
    ensures forall k | 0 <= k < |rows| :: !IsDeclaration(rows[k])
  {
    if rows != [] {
      NoneDeclared(rows[1..]);
      assert forall k | 0 < k < |rows| :: rows[k] == rows[1..][k - 1];
    }
  }

  ghost predicate AreCallsOf(rows: seq<Tokens>, ds: seq<Dependency>) {
    |rows| == |ds| && forall k | 0 <= k < |rows| :: IsCallOf(rows[k], ds[k])
  }

  /** A list in square brackets whose rows are calls of these dependencies. */
  ghost predicate IsArrayOf(list: Tokens, ds: seq<Dependency>) {
    exists ts :: list == [Plain("[")] + AllWritten(ts) + [Plain("]")] && AllGood(ts) && AreCallsOf(TreeRows(ts, []), ds)
  }

  lemma {:induction false} AllAreCalls(rows: seq<Tokens>, ds: seq<Dependency>)
    ensures ReadAll(rows) == Some(ds) <==> AreCallsOf(rows, ds)
  {
    hide ReadDependency, IsCallOf;
    if rows != [] && ds != [] {
      AllAreCalls(rows[1..], ds[1..]);
      CallsOfDependencies(rows[0], ds[0]);
      assert ds == [ds[0]] + ds[1..];
      assert AreCallsOf(rows, ds) <==> IsCallOf(rows[0], ds[0]) && AreCallsOf(rows[1..], ds[1..]) by {
        assert forall k | 0 < k < |rows| && |rows| == |ds| :: rows[k] == rows[1..][k - 1] && ds[k] == ds[1..][k - 1];
      }
    }
  }

  lemma ArraysAre(list: Tokens, ds: seq<Dependency>)
    ensures ReadArray(list) == Some(ds) <==> IsArrayOf(list, ds)
  {
    hide Rows, ReadAll, AllWritten, AllGood, TreeRows, AreCallsOf;
    if ReadArray(list) == Some(ds) {
      var ts := Balanced(list[1..|list| - 1]);
      AllAreCalls(TreeRows(ts, []), ds);
      assert list == [Plain("[")] + AllWritten(ts) + [Plain("]")];
    }
    forall ts | list == [Plain("[")] + AllWritten(ts) + [Plain("]")] && AllGood(ts) && AreCallsOf(TreeRows(ts, []), ds)
      ensures ReadArray(list) == Some(ds)
    {
      assert list[1..|list| - 1] == AllWritten(ts);
      BalancedIsSplit(ts);
      AllAreCalls(TreeRows(ts, []), ds);
    }
  }

  // ---- The whole manifest ---------------------------------------------------------------------------------

  /** One `Package` call with one dependency array, which has all the package calls there are, in order. */
  ghost predicate IsManifestOf(input: Tokens, ds: seq<Dependency>) {
    && AreIn(input, ds, rest => StartsCall(rest), (rest, d) => HoldsCall(rest, d))
    && exists rows, n ::
         && AreIn(input, [rows], rest => StartsManifest(rest), (rest, r) => HoldsArguments(rest, r))
         && IsOnlyDeclaration(rows, n) && IsArrayOf(rows[n][2..], ds)
  }

  lemma ManifestsAre(input: Tokens, ds: seq<Dependency>)
    ensures Dependencies(input) == Some(ds) <==> IsManifestOf(input, ds)
  {
    hide Calls, Constructors, Declarations, ReadArray, AreIn, IsArrayOf, Declares, StartsCall, HoldsCall;
    CallsAre(input, ds);
    if Dependencies(input) == Some(ds) {
      var rows := Constructors(input).value[0];
      assert Constructors(input).value == [rows];
      ConstructorsAre(input, [rows]);
      DeclarationsAre(rows);
      var n :| IsOnlyDeclaration(rows, n);
      ArraysAre(rows[n][2..], ds);
    }
    forall rows, n
      | AreIn(input, [rows], rest => StartsManifest(rest), (rest, r) => HoldsArguments(rest, r))
        && IsOnlyDeclaration(rows, n) && IsArrayOf(rows[n][2..], ds) && Calls(input) == Some(ds)
      ensures Dependencies(input) == Some(ds)
    {
      ConstructorsAre(input, [rows]);
      DeclarationsAre(rows);
      ArraysAre(rows[n][2..], ds);
    }
  }

  /** A source is read as these dependencies exactly when its tokens, whatever stands between them, are a manifest of them. */
  lemma SourcesAre(text: string, ds: seq<Dependency>)
    ensures ReadSource(text) == Some(ds)
            <==> exists items, tokens :: SwiftSources.IsSourceOf(items, text, tokens) && IsManifestOf(tokens, ds)
  {
    hide Dependencies, SwiftLexer.Lex, IsManifestOf, SwiftSources.IsSourceOf;
    var input := SwiftLexer.Lex(text);
    if input.Some? {
      SwiftSources.TokensExactly(text, input.value);
      ManifestsAre(input.value, ds);
    }
    forall items, tokens | SwiftSources.IsSourceOf(items, text, tokens) && IsManifestOf(tokens, ds)
      ensures ReadSource(text) == Some(ds)
    {
      SwiftSources.TokensExactly(text, tokens);
      ManifestsAre(tokens, ds);
    }
  }
}
