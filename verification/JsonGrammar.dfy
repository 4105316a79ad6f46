/**
 The grammar of section 2 of RFC 8259, as syntax trees over a text: each node says
 where it stands, and `Spells` that the text there is one of its kind. The parser
 accepts exactly the texts that have a tree, and returns what the tree means.
 */
module JsonGrammar {
  import opened JsonValues
  import opened JsonParser

  /** How a character, or a surrogate pair, of a string is written. */
  datatype Kind = Raw | RawPair | Simple | Hex | HexPair

  datatype Tree =
    | Word(from: nat, to: nat, word: Value)
    | Number(from: nat, whole: nat, fraction: nat, to: nat)
    | String(from: nat, kinds: seq<Kind>, to: nat)
    | Array(from: nat, elements: seq<Element>, to: nat)
    | Object(from: nat, members: seq<Member>, to: nat)

  /** A tree and the white space around it. */
  datatype Element = Element(from: nat, tree: Tree, to: nat)

  /** White space, a quoted name, white space, a colon and an element. */
  datatype Member = Member(from: nat, quote: nat, kinds: seq<Kind>, close: nat, colon: nat, element: Element)

  // ---- Strings ----------------------------------------------------------------------

  function Width(k: Kind): nat {
    match k
    case Raw => 1
    case RawPair => 2
    case Simple => 2
    case Hex => 6
    case HexPair => 12
  }

  ghost predicate EscapedUnit(s: Text, i: nat) {
    i + 6 <= |s| && s[i] == BACKSLASH && s[i + 1] == SMALL_U && AllHex(s[i + 2..i + 6])
  }

  ghost function UnitOf(s: Text, i: nat): Unit
    requires EscapedUnit(s, i)
  {
    HexValue(s[i + 2..i + 6])
  }

  /** A character of this kind stands at `i`. */
  ghost predicate SpellsKind(s: Text, i: nat, k: Kind) {
    && i + Width(k) <= |s|
    && match k
       case Raw => s[i] > 0x1f && s[i] != QUOTE && s[i] != BACKSLASH && !IsHigh(s[i]) && !IsLow(s[i])
       case RawPair => IsHigh(s[i]) && IsLow(s[i + 1])
       case Simple => s[i] == BACKSLASH && IsSimple(s[i + 1])
       case Hex => EscapedUnit(s, i) && !IsHigh(UnitOf(s, i)) && !IsLow(UnitOf(s, i))
       case HexPair => EscapedUnit(s, i) && EscapedUnit(s, i + 6) && IsHigh(UnitOf(s, i)) && IsLow(UnitOf(s, i + 6))
  }

  ghost function KindMeaning(s: Text, i: nat, k: Kind): Text
    requires SpellsKind(s, i, k)
  {
    match k
    case Raw => [s[i]]
    case RawPair => [s[i], s[i + 1]]
    case Simple => [SimpleEscape(s[i + 1])]
    case Hex => [UnitOf(s, i)]
    case HexPair => [UnitOf(s, i), UnitOf(s, i + 6)]
  }

  /** From `i`, behind an opening quote, to behind the closing one. */
  ghost predicate SpellsUnits(s: Text, i: nat, kinds: seq<Kind>, to: nat)
    decreases |kinds|
  {
    if kinds == [] then UnitAt(s, i, QUOTE) && to == i + 1
    else SpellsKind(s, i, kinds[0]) && SpellsUnits(s, i + Width(kinds[0]), kinds[1..], to)
  }

  ghost function Units(s: Text, i: nat, kinds: seq<Kind>, to: nat): Text
    requires SpellsUnits(s, i, kinds, to)
    decreases |kinds|
  {
    if kinds == [] then [] else KindMeaning(s, i, kinds[0]) + Units(s, i + Width(kinds[0]), kinds[1..], to)
  }

  // ---- Numbers ----------------------------------------------------------------------

  /** An optional minus sign, and digits with no leading zero. */
  ghost predicate SpellsWhole(s: Text, from: nat, to: nat) {
    var start := if UnitAt(s, from, MINUS) then from + 1 else from;
    start < to && Digits(s, start, to) && (s[start] == ZERO ==> to == start + 1)
  }

  /** Nothing, or a point and digits. */
  ghost predicate SpellsFraction(s: Text, from: nat, to: nat) {
    from == to || (from + 1 < to && UnitAt(s, from, DOT) && Digits(s, from + 1, to))
  }

  /** Nothing, or an `e`, a sign or none, and digits. */
  ghost predicate SpellsExponent(s: Text, from: nat, to: nat) {
    || from == to
    || (&& (UnitAt(s, from, 0x65) || UnitAt(s, from, 0x45))
        && var start := if UnitAt(s, from + 1, PLUS) || UnitAt(s, from + 1, MINUS) then from + 2 else from + 1;
           start < to && Digits(s, start, to))
  }

  // ---- Trees --------------------------------------------------------------------------

  /** `depth` counts the objects and arrays around the tree. */
  ghost predicate Spells(r: Rules, s: Text, t: Tree, depth: nat)
    decreases t, 0
  {
    && t.from < t.to <= |s|
    && match t
       case Word(from, to, word) =>
         || (word == Bool(true) && StartsWith(s, from, TRUE) && to == from + 4)
         || (word == Bool(false) && StartsWith(s, from, FALSE) && to == from + 5)
         || (word == Null && StartsWith(s, from, NULL) && to == from + 4)
       case Number(from, whole, fraction, to) =>
         && SpellsWhole(s, from, whole) && SpellsFraction(s, whole, fraction) && SpellsExponent(s, fraction, to)
         && r.finite(s[from..to])
       case String(from, kinds, to) => s[from] == QUOTE && SpellsUnits(s, from + 1, kinds, to)
       case Array(from, elements, to) =>
         && depth < r.maxDepth && s[from] == OPEN_BRACKET
         && if elements == [] then Blank(s, from + 1, to - 1) && s[to - 1] == CLOSE_BRACKET
            else SpellsElements(r, s, from + 1, elements, to, depth + 1)
       case Object(from, members, to) =>
         && depth < r.maxDepth && s[from] == OPEN_BRACE
         && (if members == [] then Blank(s, from + 1, to - 1) && s[to - 1] == CLOSE_BRACE
             else SpellsMembers(r, s, from + 1, members, to, depth + 1))
         && NamesDiffer(s, members)
  }

  ghost predicate SpellsElement(r: Rules, s: Text, e: Element, depth: nat)
    decreases e, 1
  {
    Spells(r, s, e.tree, depth) && Blank(s, e.from, e.tree.from) && Blank(s, e.tree.to, e.to)
  }

  /** Elements from `i` on, with commas between them and a bracket before `to`. */
  ghost predicate SpellsElements(r: Rules, s: Text, i: nat, es: seq<Element>, to: nat, depth: nat)
    requires es != []
    decreases es, 2
  {
    && es[0].from == i
    && forall k | 0 <= k < |es| :: SpellsElement(r, s, es[k], depth) && Follows(s, es, k, to)
  }

  /** Behind element `k` there is a comma and the next one, or the end. */
  ghost predicate Follows(s: Text, es: seq<Element>, k: nat, to: nat)
    requires k < |es|
  {
    if k + 1 == |es| then UnitAt(s, es[k].to, CLOSE_BRACKET) && to == es[k].to + 1
    else UnitAt(s, es[k].to, COMMA) && es[k + 1].from == es[k].to + 1
  }

  ghost predicate SpellsName(s: Text, m: Member) {
    && Blank(s, m.from, m.quote) && UnitAt(s, m.quote, QUOTE) && SpellsUnits(s, m.quote + 1, m.kinds, m.close)
    && Blank(s, m.close, m.colon) && UnitAt(s, m.colon, COLON)
    && m.element.from == m.colon + 1
  }

  ghost predicate SpellsMember(r: Rules, s: Text, m: Member, depth: nat)
    decreases m, 1
  {
    SpellsName(s, m) && SpellsElement(r, s, m.element, depth)
  }

  /** Members from `i` on, with commas between them and a brace before `to`. */
  ghost predicate SpellsMembers(r: Rules, s: Text, i: nat, ms: seq<Member>, to: nat, depth: nat)
    requires ms != []
    decreases ms, 2
  {
    && ms[0].from == i
    && forall k | 0 <= k < |ms| :: SpellsMember(r, s, ms[k], depth) && MemberFollows(s, ms, k, to)
  }

  ghost predicate MemberFollows(s: Text, ms: seq<Member>, k: nat, to: nat)
    requires k < |ms|
  {
    if k + 1 == |ms| then UnitAt(s, ms[k].element.to, CLOSE_BRACE) && to == ms[k].element.to + 1
    else UnitAt(s, ms[k].element.to, COMMA) && ms[k + 1].from == ms[k].element.to + 1
  }

  ghost function NameOf(s: Text, m: Member): Text {
    if SpellsName(s, m) then Units(s, m.quote + 1, m.kinds, m.close) else []
  }

  /** No name appears twice. */
  ghost predicate NamesDiffer(s: Text, ms: seq<Member>) {
    forall j, k | 0 <= j < k < |ms| :: NameOf(s, ms[j]) != NameOf(s, ms[k])
  }

  /** The whole text is one element. */
  ghost predicate SpellsDocument(r: Rules, s: Text, e: Element) {
    e.from == 0 && e.to == |s| && SpellsElement(r, s, e, 0)
  }

  // ---- Meaning ------------------------------------------------------------------------

  ghost function Meaning(s: Text, t: Tree): Value
    decreases t, 0
  {
    match t
    case Word(_, _, word) => word
    case Number(from, _, _, to) => if from <= to <= |s| then Num(Convert(s[from..to])) else Null
    case String(from, kinds, to) => if SpellsUnits(s, from + 1, kinds, to) then Str(Units(s, from + 1, kinds, to)) else Null
    case Array(_, elements, _) => Arr(Items(s, elements))
    case Object(_, members, _) => Obj(Members(s, members, |members|))
  }

  ghost function ElementMeaning(s: Text, e: Element): Value
    decreases e, 1
  {
    Meaning(s, e.tree)
  }

  ghost function Items(s: Text, es: seq<Element>): seq<Value>
    decreases es, 1
  {
    seq(|es|, k requires 0 <= k < |es| => ElementMeaning(s, es[k]))
  }

  /** What the first `n` members mean. */
  ghost function Members(s: Text, ms: seq<Member>, n: nat): map<Text, Value>
    requires n <= |ms|
    decreases ms, 1, n
  {
    if n == 0 then map[] else MoreMembers(s, ms[n - 1], Members(s, ms, n - 1))
  }

  ghost function MoreMembers(s: Text, m: Member, found: map<Text, Value>): map<Text, Value>
    decreases m, 2
  {
    found[NameOf(s, m) := ElementMeaning(s, m.element)]
  }

  // ---- Every text with a tree is accepted ------------------------------------------------

  lemma {:induction false} SkipBlank(s: Text, i: nat, j: nat)
    requires Blank(s, i, j) && (j < |s| ==> !IsSpace(s[j]))
    ensures Skip(s, i) == j
    decreases j - i
  {
    if i < j { SkipBlank(s, i + 1, j); }
  }

  lemma {:induction false} SkipDigits(s: Text, i: nat, j: nat)
    requires Digits(s, i, j) && (j < |s| ==> !IsDigit(s[j]))
    ensures DigitsEnd(s, i) == j
    decreases j - i
  {
    if i < j { SkipDigits(s, i + 1, j); }
  }

  lemma PastCommaIs(s: Text, i: nat, comma: nat, after: nat, q: nat)
    requires Blank(s, i, comma) && UnitAt(s, comma, COMMA) && after == comma + 1
    requires Blank(s, after, q) && q < |s| && !IsSpace(s[q])
    ensures UnitAt(s, Skip(s, i), COMMA) && PastComma(s, i) == q
  {
    SkipBlank(s, i, comma);
    SkipBlank(s, after, q);
  }

  /** Behind a number nothing may follow that would make it longer. */
  ghost predicate Ends(s: Text, j: nat) {
    j >= |s| || IsSpace(s[j]) || s[j] == COMMA || s[j] == CLOSE_BRACE || s[j] == CLOSE_BRACKET
  }

  lemma NumberAccepted(s: Text, from: nat, whole: nat, fraction: nat, to: nat)
    requires SpellsWhole(s, from, whole) && SpellsFraction(s, whole, fraction) && SpellsExponent(s, fraction, to)
    requires to <= |s| && Ends(s, to)
    ensures NumberEnd(s, from) == to > from
  {
    SkipDigits(s, if UnitAt(s, from, MINUS) then from + 1 else from, whole);
    if whole < fraction { SkipDigits(s, whole + 1, fraction); }
    if fraction < to {
      var start := if UnitAt(s, fraction + 1, PLUS) || UnitAt(s, fraction + 1, MINUS) then fraction + 2 else fraction + 1;
      SkipDigits(s, start, to);
    }
  }

  lemma SurrogatesRejoin(high: Unit, low: Unit)
    requires IsHigh(high) && IsLow(low)
    ensures FromCodePoint(CodePoint(high, low)) == [high, low]
  {
  }

  lemma KindAccepted(s: Text, i: nat, k: Kind, found: Text)
    requires SpellsKind(s, i, k)
    ensures ParseUnits(s, i, found) == ParseUnits(s, i + Width(k), found + KindMeaning(s, i, k))
  {
    match k
    case Raw =>
    case RawPair => assert s[i..i + 2] == [s[i], s[i + 1]];
    case Simple => assert ParseEscape(s, i + 1) == Ok(KindMeaning(s, i, k), i + 2);
    case Hex => assert ParseEscape(s, i + 1) == Ok(KindMeaning(s, i, k), i + 6);
    case HexPair =>
      assert s[i + 6..i + 8] == [BACKSLASH, SMALL_U];
      SurrogatesRejoin(UnitOf(s, i), UnitOf(s, i + 6));
      assert ParseEscape(s, i + 1) == Ok(KindMeaning(s, i, k), i + 12);
  }

  lemma {:induction false} UnitsAccepted(s: Text, i: nat, kinds: seq<Kind>, to: nat, found: Text)
    requires SpellsUnits(s, i, kinds, to)
    ensures ParseUnits(s, i, found) == Ok(found + Units(s, i, kinds, to), to)
    decreases |kinds|
  {
    if kinds == [] {
      assert found + [] == found;
    } else {
      var more := found + KindMeaning(s, i, kinds[0]);
      KindAccepted(s, i, kinds[0], found);
      UnitsAccepted(s, i + Width(kinds[0]), kinds[1..], to, more);
      assert more + Units(s, i + Width(kinds[0]), kinds[1..], to) == found + Units(s, i, kinds, to);
    }
  }

  lemma TreeStart(r: Rules, s: Text, t: Tree, depth: nat)
    requires Spells(r, s, t, depth)
    ensures !IsSpace(s[t.from]) && s[t.from] != CLOSE_BRACKET && s[t.from] != CLOSE_BRACE
    ensures Skip(s, t.from) == t.from
    ensures t.Array? <==> s[t.from] == OPEN_BRACKET
    ensures t.Object? <==> s[t.from] == OPEN_BRACE
  {
    if t.Word? {
      assert s[t.from] == s[t.from..t.to][0];
    }
  }

  lemma WordAccepted(r: Rules, s: Text, t: Tree, depth: nat)
    requires Spells(r, s, t, depth) && t.Word?
    ensures ParseScalar(r, s, t.from) == Ok(t.word, t.to)
  {
    assert s[t.from] == s[t.from..t.to][0];
    if t.word == Null {
      assert StartsWith(s, t.from, NULL);
    }
  }

  lemma NumeralAccepted(r: Rules, s: Text, t: Tree, depth: nat)
    requires Spells(r, s, t, depth) && t.Number? && Ends(s, t.to)
    ensures ParseScalar(r, s, t.from) == Ok(Num(Convert(s[t.from..t.to])), t.to)
  {
    NumberAccepted(s, t.from, t.whole, t.fraction, t.to);
  }

  lemma StringAccepted(r: Rules, s: Text, t: Tree, depth: nat)
    requires Spells(r, s, t, depth) && t.String?
    ensures ParseScalar(r, s, t.from) == Ok(Str(Units(s, t.from + 1, t.kinds, t.to)), t.to)
  {
    UnitsAccepted(s, t.from + 1, t.kinds, t.to, []);
    assert [] + Units(s, t.from + 1, t.kinds, t.to) == Units(s, t.from + 1, t.kinds, t.to);
  }

  lemma {:induction false} TreeAccepted(r: Rules, s: Text, t: Tree, depth: nat)
    requires Spells(r, s, t, depth) && (t.Number? ==> Ends(s, t.to))
    ensures ParseValue(r, s, t.from, depth) == Ok(Meaning(s, t), t.to)
    decreases t, 0
  {
    TreeStart(r, s, t, depth);
    match t
    case Array(from, elements, to) => ArrayAccepted(r, s, t, depth);
    case Object(from, members, to) => ObjectAccepted(r, s, t, depth);
    case Word(_, _, _) => WordAccepted(r, s, t, depth);
    case Number(_, _, _, _) => NumeralAccepted(r, s, t, depth);
    case String(_, _, _) => StringAccepted(r, s, t, depth);
  }

  lemma ArrayAccepted(r: Rules, s: Text, t: Tree, depth: nat)
    requires t.Array? && Spells(r, s, t, depth)
    ensures ParseArray(r, s, Skip(s, t.from + 1), depth + 1) == Ok(Arr(Items(s, t.elements)), t.to)
    decreases t.elements, 3
  {
    hide ParseItems, ParseValue, Skip;
    if t.elements == [] {
      assert Items(s, t.elements) == [];
      SkipBlank(s, t.from + 1, t.to - 1);
    } else {
      assert SpellsElement(r, s, t.elements[0], depth + 1);
      ElementStart(r, s, t.elements[0], depth + 1);
      ElementsAccepted(r, s, t.from + 1, t.elements, t.to, depth + 1);
    }
  }

  lemma ObjectAccepted(r: Rules, s: Text, t: Tree, depth: nat)
    requires t.Object? && Spells(r, s, t, depth)
    ensures ParseObject(r, s, Skip(s, t.from + 1), depth + 1) == Ok(Obj(Members(s, t.members, |t.members|)), t.to)
    decreases t.members, 4
  {
    hide ParseMembers, ParseValue, Skip, SpellsMembers, NamesDiffer;
    if t.members == [] {
      SkipBlank(s, t.from + 1, t.to - 1);
    } else {
      assert SpellsMembers(r, s, t.from + 1, t.members, t.to, depth + 1) && NamesDiffer(s, t.members);
      FirstMember(r, s, t.from + 1, t.members, t.to, depth + 1);
      MembersAccepted(r, s, t.from + 1, t.members, t.to, depth + 1);
    }
  }

  lemma FirstMember(r: Rules, s: Text, i: nat, ms: seq<Member>, to: nat, depth: nat)
    requires ms != [] && SpellsMembers(r, s, i, ms, to, depth)
    ensures i <= |s| && Skip(s, i) == ms[0].quote && UnitAt(s, ms[0].quote, QUOTE)
  {
    assert SpellsMember(r, s, ms[0], depth);
    SkipBlank(s, i, ms[0].quote);
  }

  lemma ElementStart(r: Rules, s: Text, e: Element, depth: nat)
    requires SpellsElement(r, s, e, depth)
    ensures Skip(s, e.from) == e.tree.from < |s| && s[e.tree.from] != CLOSE_BRACKET && !IsSpace(s[e.tree.from])
  {
    TreeStart(r, s, e.tree, depth);
    SkipBlank(s, e.from, e.tree.from);
  }

  lemma {:induction false} ElementAccepted(r: Rules, s: Text, e: Element, depth: nat)
    requires SpellsElement(r, s, e, depth) && Ends(s, e.to) && (e.to < |s| ==> !IsSpace(s[e.to]))
    ensures ParseValue(r, s, e.from, depth) == ParseValue(r, s, e.tree.from, depth) == Ok(ElementMeaning(s, e), e.tree.to)
    ensures Skip(s, e.tree.to) == e.to
    decreases e, 1
  {
    ElementStart(r, s, e, depth);
    TreeStart(r, s, e.tree, depth);
    TreeAccepted(r, s, e.tree, depth);
    SkipBlank(s, e.tree.to, e.to);
  }

  /** The parser reads `items` from `starts` up to `nexts`, with commas between them and a bracket behind. */
  ghost predicate ItemsChain(r: Rules, s: Text, depth: nat, starts: seq<nat>, items: seq<Value>, nexts: seq<nat>) {
    && |starts| == |items| == |nexts| > 0
    && forall k | 0 <= k < |nexts| :: ItemRead(r, s, depth, starts, items, nexts, k)
  }

  ghost predicate ItemRead(r: Rules, s: Text, depth: nat, starts: seq<nat>, items: seq<Value>, nexts: seq<nat>, k: nat)
    requires |starts| == |items| == |nexts| > k
  {
    && starts[k] < |s| && nexts[k] <= |s| && ParseValue(r, s, starts[k], depth) == Ok(items[k], nexts[k])
    && if k + 1 == |nexts| then UnitAt(s, Skip(s, nexts[k]), CLOSE_BRACKET)
       else UnitAt(s, Skip(s, nexts[k]), COMMA) && PastComma(s, nexts[k]) == starts[k + 1]
  }

  lemma {:induction false} ChainParsed(r: Rules, s: Text, depth: nat, starts: seq<nat>, items: seq<Value>,
                                       nexts: seq<nat>, k: nat)
    requires ItemsChain(r, s, depth, starts, items, nexts) && k < |items|
    ensures nexts[|nexts| - 1] <= |s| && starts[k] <= |s|
    ensures ParseItems(r, s, starts[k], depth, items[..k]) == Ok(Arr(items), Skip(s, nexts[|nexts| - 1]) + 1)
    decreases |items| - k
  {
    hide ParseValue, Skip;
    assert ItemRead(r, s, depth, starts, items, nexts, k) && ItemRead(r, s, depth, starts, items, nexts, |nexts| - 1);
    var last, next := nexts[|nexts| - 1], nexts[k];
    assert items[..k + 1] == items[..k] + [items[k]];
    if k + 1 == |items| {
      assert items[..k + 1] == items && next == last;
    } else {
      ChainParsed(r, s, depth, starts, items, nexts, k + 1);
    }
  }

  lemma ElementsAccepted(r: Rules, s: Text, i: nat, es: seq<Element>, to: nat, depth: nat)
    requires es != [] && SpellsElements(r, s, i, es, to, depth)
    ensures es[0].tree.from < |s|
    ensures ParseItems(r, s, es[0].tree.from, depth, []) == Ok(Arr(Items(s, es)), to)
    decreases es, 2
  {
    hide Spells, ParseItems, ParseValue, PastComma, Skip;
    var starts: seq<nat> := seq(|es|, k requires 0 <= k < |es| => es[k].tree.from);
    var nexts: seq<nat> := seq(|es|, k requires 0 <= k < |es| => es[k].tree.to);
    var items := Items(s, es);
    forall k | 0 <= k < |es|
      ensures ItemRead(r, s, depth, starts, items, nexts, k)
    {
      OneElement(r, s, i, es, to, depth, k);
      assert Follows(s, es, k, to);
    }
    OneElement(r, s, i, es, to, depth, |es| - 1);
    assert Follows(s, es, |es| - 1, to);
    ChainParsed(r, s, depth, starts, items, nexts, 0);
    assert items[..0] == [];
  }

  lemma OneElement(r: Rules, s: Text, i: nat, es: seq<Element>, to: nat, depth: nat, k: nat)
    requires k < |es| && SpellsElements(r, s, i, es, to, depth)
    ensures var e := es[k];
            && e.tree.from < |s| && e.tree.to <= |s|
            && ParseValue(r, s, e.tree.from, depth) == Ok(ElementMeaning(s, e), e.tree.to)
            && Skip(s, e.tree.to) == e.to
            && (k + 1 < |es| ==> UnitAt(s, e.to, COMMA) && PastComma(s, e.tree.to) == es[k + 1].tree.from)
    decreases es, 1
  {
    hide Spells, ParseValue, Skip;
    var e := es[k];
    assert SpellsElement(r, s, e, depth) && Follows(s, es, k, to);
    ElementStart(r, s, e, depth);
    ElementAccepted(r, s, e, depth);
    if k + 1 < |es| {
      assert SpellsElement(r, s, es[k + 1], depth);
      ElementStart(r, s, es[k + 1], depth);
      PastCommaIs(s, e.tree.to, e.to, es[k + 1].from, es[k + 1].tree.from);
    }
  }

  lemma NameAccepted(s: Text, m: Member, taken: map<Text, Value>)
    requires SpellsName(s, m) && NameOf(s, m) !in taken
    ensures ParseName(s, m.quote, taken) == Ok(NameOf(s, m), m.colon + 1)
  {
    hide SpellsUnits, Units, Skip, ParseUnits;
    UnitsAccepted(s, m.quote + 1, m.kinds, m.close, []);
    assert [] + NameOf(s, m) == NameOf(s, m);
    SkipBlank(s, m.close, m.colon);
  }

  lemma {:induction false} EarlierNames(s: Text, ms: seq<Member>, k: nat, name: Text)
    requires k <= |ms| && forall j | 0 <= j < k :: NameOf(s, ms[j]) != name
    ensures name !in Members(s, ms, k)
    decreases k
  {
    if k > 0 { EarlierNames(s, ms, k - 1, name); }
  }

  /** The parser adds a member at each of `starts`, with commas between them and a brace behind. */
  ghost predicate MembersChain(r: Rules, s: Text, depth: nat, starts: seq<nat>, founds: seq<map<Text, Value>>,
                               nexts: seq<nat>) {
    && |starts| + 1 == |founds| == |nexts| + 1 > 1
    && forall k | 0 <= k < |nexts| :: MemberRead(r, s, depth, starts, founds, nexts, k)
  }

  ghost predicate MemberRead(r: Rules, s: Text, depth: nat, starts: seq<nat>, founds: seq<map<Text, Value>>,
                             nexts: seq<nat>, k: nat)
    requires |starts| + 1 == |founds| == |nexts| + 1 > k + 1
  {
    && starts[k] < |s| && nexts[k] <= |s|
    && ParseMember(r, s, starts[k], depth, founds[k]) == Ok(founds[k + 1], nexts[k])
    && if k + 1 == |nexts| then UnitAt(s, Skip(s, nexts[k]), CLOSE_BRACE)
       else UnitAt(s, Skip(s, nexts[k]), COMMA) && PastComma(s, nexts[k]) == starts[k + 1]
  }

  lemma {:induction false} MembersParsed(r: Rules, s: Text, depth: nat, starts: seq<nat>, founds: seq<map<Text, Value>>,
                                         nexts: seq<nat>, k: nat)
    requires MembersChain(r, s, depth, starts, founds, nexts) && k < |nexts|
    ensures nexts[|nexts| - 1] <= |s| && starts[k] <= |s|
    ensures ParseMembers(r, s, starts[k], depth, founds[k]) == Ok(Obj(founds[|nexts|]), Skip(s, nexts[|nexts| - 1]) + 1)
    decreases |nexts| - k
  {
    hide ParseMember, ParseValue, Skip;
    assert MemberRead(r, s, depth, starts, founds, nexts, k) && MemberRead(r, s, depth, starts, founds, nexts, |nexts| - 1);
    var last, next := nexts[|nexts| - 1], nexts[k];
    if k + 1 == |nexts| {
      assert next == last;
    } else {
      MembersParsed(r, s, depth, starts, founds, nexts, k + 1);
    }
  }

  lemma MembersAccepted(r: Rules, s: Text, i: nat, ms: seq<Member>, to: nat, depth: nat)
    requires ms != [] && SpellsMembers(r, s, i, ms, to, depth) && NamesDiffer(s, ms)
    ensures ms[0].quote < |s|
    ensures ParseMembers(r, s, ms[0].quote, depth, map[]) == Ok(Obj(Members(s, ms, |ms|)), to)
    decreases ms, 3
  {
    hide Spells, NamesDiffer, NameOf, ParseMembers, ParseValue, ParseMember, PastComma, Skip;
    EachMember(r, s, i, ms, to, depth, 0);
    MembersChained(r, s, i, ms, to, depth);
    EachMember(r, s, i, ms, to, depth, |ms| - 1);
    MembersParsed(r, s, depth, Quotes(ms), Founds(s, ms), Nexts(ms), 0);
  }

  ghost function Quotes(ms: seq<Member>): seq<nat> { seq(|ms|, k requires 0 <= k < |ms| => ms[k].quote) }

  ghost function Nexts(ms: seq<Member>): seq<nat> { seq(|ms|, k requires 0 <= k < |ms| => ms[k].element.tree.to) }

  ghost function Founds(s: Text, ms: seq<Member>): seq<map<Text, Value>> {
    seq(|ms| + 1, k requires 0 <= k <= |ms| => Members(s, ms, k))
  }

  lemma MembersChained(r: Rules, s: Text, i: nat, ms: seq<Member>, to: nat, depth: nat)
    requires ms != [] && SpellsMembers(r, s, i, ms, to, depth) && NamesDiffer(s, ms)
    ensures MembersChain(r, s, depth, Quotes(ms), Founds(s, ms), Nexts(ms))
    decreases ms, 2
  {
    hide Spells, SpellsMembers, SpellsMember, NamesDiffer, ParseMembers, ParseValue, ParseMember, PastComma, Skip, Members;
    forall k | 0 <= k < |ms|
      ensures MemberRead(r, s, depth, Quotes(ms), Founds(s, ms), Nexts(ms), k)
    {
      EachMember(r, s, i, ms, to, depth, k);
    }
  }

  lemma EachMember(r: Rules, s: Text, i: nat, ms: seq<Member>, to: nat, depth: nat, k: nat)
    requires k < |ms| && SpellsMembers(r, s, i, ms, to, depth) && NamesDiffer(s, ms)
    ensures var m := ms[k];
            var next := m.element.tree.to;
            && m.quote < |s| && next <= |s|
            && ParseMember(r, s, m.quote, depth, Members(s, ms, k)) == Ok(Members(s, ms, k + 1), next)
            && Skip(s, next) == m.element.to
            && if k + 1 < |ms| then UnitAt(s, m.element.to, COMMA) && PastComma(s, next) == ms[k + 1].quote
               else UnitAt(s, m.element.to, CLOSE_BRACE) && to == m.element.to + 1
    decreases ms, 1
  {
    hide Spells, ParseValue, ParseMember, ParseName, Skip, SpellsUnits, Units, NameOf;
    var m := ms[k];
    assert SpellsMember(r, s, m, depth) && MemberFollows(s, ms, k, to);
    EarlierNames(s, ms, k, NameOf(s, m));
    MemberAccepted(r, s, m, depth, Members(s, ms, k));
    if k + 1 < |ms| {
      assert SpellsMember(r, s, ms[k + 1], depth);
      PastCommaIs(s, m.element.tree.to, m.element.to, ms[k + 1].from, ms[k + 1].quote);
    }
  }

  lemma MemberAccepted(r: Rules, s: Text, m: Member, depth: nat, found: map<Text, Value>)
    requires SpellsMember(r, s, m, depth)
    requires NameOf(s, m) !in found && Ends(s, m.element.to) && (m.element.to < |s| ==> !IsSpace(s[m.element.to]))
    ensures ParseMember(r, s, m.quote, depth, found) == Ok(MoreMembers(s, m, found), m.element.tree.to)
    ensures Skip(s, m.element.tree.to) == m.element.to
    decreases m, 1
  {
    hide Spells, ParseUnits, SpellsUnits, Units, Skip;
    NameAccepted(s, m, found);
    ElementAccepted(r, s, m.element, depth);
  }

  lemma DocumentAccepted(r: Rules, s: Text, e: Element)
    requires SpellsDocument(r, s, e)
    ensures ParseDocument(r, s) == Ok(ElementMeaning(s, e), |s|)
  {
    ElementStart(r, s, e, 0);
    ElementAccepted(r, s, e, 0);
  }

  // ---- Every text that is accepted has a tree ---------------------------------------------

  lemma {:induction false} BlankSkipped(s: Text, i: nat)
    requires i <= |s|
    ensures Blank(s, i, Skip(s, i)) && (Skip(s, i) < |s| ==> !IsSpace(s[Skip(s, i)]))
    decreases |s| - i
  {
    if i < |s| && IsSpace(s[i]) { BlankSkipped(s, i + 1); }
  }

  lemma {:induction false} DigitsFound(s: Text, i: nat)
    requires i <= |s|
    ensures Digits(s, i, DigitsEnd(s, i))
    decreases |s| - i
  {
    if i < |s| && IsDigit(s[i]) { DigitsFound(s, i + 1); }
  }

  lemma NumberSpelled(s: Text, from: nat) returns (whole: nat, fraction: nat)
    requires from <= |s| && NumberEnd(s, from) > from
    ensures SpellsWhole(s, from, whole) && SpellsFraction(s, whole, fraction)
    ensures SpellsExponent(s, fraction, NumberEnd(s, from))
  {
    whole := WholeEnd(s, from);
    fraction := FractionEnd(s, whole);
    DigitsFound(s, if UnitAt(s, from, MINUS) then from + 1 else from);
    if UnitAt(s, whole, DOT) { DigitsFound(s, whole + 1); }
    if UnitAt(s, fraction, 0x65) || UnitAt(s, fraction, 0x45) {
      DigitsFound(s, if UnitAt(s, fraction + 1, PLUS) || UnitAt(s, fraction + 1, MINUS) then fraction + 2 else fraction + 1);
    }
  }

  lemma EscapeSpelled(s: Text, i: nat) returns (k: Kind)
    requires UnitAt(s, i, BACKSLASH) && ParseEscape(s, i + 1).Ok?
    ensures SpellsKind(s, i, k)
  {
    if IsSimple(s[i + 1]) {
      k := Simple;
    } else if IsHigh(HexValue(s[i + 2..i + 6])) {
      assert s[i + 6..i + 8] == [BACKSLASH, SMALL_U];
      assert s[i + 6] == s[i + 6..i + 8][0] && s[i + 7] == s[i + 6..i + 8][1];
      k := HexPair;
    } else {
      k := Hex;
    }
  }

  lemma {:induction false} UnitsSpelled(s: Text, i: nat, found: Text) returns (kinds: seq<Kind>)
    requires ParseUnits(s, i, found).Ok?
    ensures SpellsUnits(s, i, kinds, ParseUnits(s, i, found).next)
    ensures ParseUnits(s, i, found).value == found + Units(s, i, kinds, ParseUnits(s, i, found).next)
    decreases |s| - i
  {
    if s[i] == QUOTE {
      kinds := [];
    } else {
      var k: Kind := if IsHigh(s[i]) then RawPair else Raw;
      if s[i] == BACKSLASH { k := EscapeSpelled(s, i); }
      KindAccepted(s, i, k, found);
      var rest := UnitsSpelled(s, i + Width(k), found + KindMeaning(s, i, k));
      kinds := [k] + rest;
      assert kinds[1..] == rest;
    }
    UnitsAccepted(s, i, kinds, ParseUnits(s, i, found).next, found);
  }

  lemma ScalarSpelled(r: Rules, s: Text, i: nat, depth: nat) returns (t: Tree)
    requires i <= |s| && ParseScalar(r, s, i).Ok?
    ensures Spells(r, s, t, depth) && t.from == i && t.to == ParseScalar(r, s, i).next
    ensures Meaning(s, t) == ParseScalar(r, s, i).value
  {
    var p := ParseScalar(r, s, i);
    if UnitAt(s, i, QUOTE) {
      var kinds := UnitsSpelled(s, i + 1, []);
      t := String(i, kinds, p.next);
      assert [] + Units(s, i + 1, kinds, p.next) == Units(s, i + 1, kinds, p.next);
    } else if s[i] == MINUS || IsDigit(s[i]) {
      var whole, fraction := NumberSpelled(s, i);
      t := Number(i, whole, fraction, p.next);
    } else {
      t := Word(i, p.next, p.value);
    }
  }

  lemma {:induction false} ValueSpelled(r: Rules, s: Text, from: nat, depth: nat) returns (t: Tree)
    requires from <= |s| && ParseValue(r, s, from, depth).Ok?
    ensures Spells(r, s, t, depth) && t.from == Skip(s, from) && t.to == ParseValue(r, s, from, depth).next
    ensures Meaning(s, t) == ParseValue(r, s, from, depth).value
    decreases |s| - from, 1
  {
    var i := Skip(s, from);
    if UnitAt(s, i, OPEN_BRACE) {
      t := ObjectSpelled(r, s, i, depth);
    } else if UnitAt(s, i, OPEN_BRACKET) {
      t := ArraySpelled(r, s, i, depth);
    } else {
      t := ScalarSpelled(r, s, i, depth);
    }
  }

  lemma ArraySpelled(r: Rules, s: Text, i: nat, depth: nat) returns (t: Tree)
    requires UnitAt(s, i, OPEN_BRACKET) && depth < r.maxDepth
    requires ParseArray(r, s, Skip(s, i + 1), depth + 1).Ok?
    ensures Spells(r, s, t, depth) && t.from == i && t.to == ParseArray(r, s, Skip(s, i + 1), depth + 1).next
    ensures Meaning(s, t) == ParseArray(r, s, Skip(s, i + 1), depth + 1).value
    decreases |s| - i, 0
  {
    hide ParseItems, SpellsElements;
    var first := Skip(s, i + 1);
    var p := ParseArray(r, s, first, depth + 1);
    BlankSkipped(s, i + 1);
    assert Items(s, []) == [];
    if UnitAt(s, first, CLOSE_BRACKET) {
      t := Array(i, [], p.next);
    } else {
      var es := ItemsSpelled(r, s, first, depth + 1, i + 1, i + 1, []);
      t := Array(i, es, p.next);
    }
  }

  /** The elements read so far: each has a comma behind it, and the next one starts at `from`. */
  ghost predicate SpelledSoFar(r: Rules, s: Text, i: nat, es: seq<Element>, from: nat, depth: nat) {
    && (if es == [] then from else es[0].from) == i
    && forall k | 0 <= k < |es| :: SpellsElement(r, s, es[k], depth) && CommaBehind(s, es, k, from)
  }

  ghost predicate CommaBehind(s: Text, es: seq<Element>, k: nat, from: nat)
    requires k < |es|
  {
    UnitAt(s, es[k].to, COMMA) && (if k + 1 == |es| then from else es[k + 1].from) == es[k].to + 1
  }

  /** One more element is read; `e.to` is where the comma or bracket behind it stands. */
  lemma ElementSpelled(r: Rules, s: Text, i: nat, depth: nat, from: nat) returns (e: Element)
    requires i <= |s| && Blank(s, from, i) && ParseValue(r, s, i, depth).Ok?
    ensures SpellsElement(r, s, e, depth) && e.from == from && e.to == Skip(s, ParseValue(r, s, i, depth).next)
    ensures ElementMeaning(s, e) == ParseValue(r, s, i, depth).value
    decreases |s| - i, 2
  {
    var t := ValueSpelled(r, s, i, depth);
    BlankSkipped(s, i);
    BlankSkipped(s, t.to);
    e := Element(from, t, Skip(s, t.to));
  }

  lemma MoreElements(r: Rules, s: Text, start: nat, es: seq<Element>, e: Element, after: nat, depth: nat)
    requires SpelledSoFar(r, s, start, es, e.from, depth) && SpellsElement(r, s, e, depth) && after == e.to + 1
    ensures UnitAt(s, e.to, COMMA) ==> SpelledSoFar(r, s, start, es + [e], after, depth)
    ensures UnitAt(s, e.to, CLOSE_BRACKET) ==> SpellsElements(r, s, start, es + [e], after, depth)
  {
    var more := es + [e];
    assert more[0] == if es == [] then e else es[0];
    forall k | 0 <= k < |more|
      ensures SpellsElement(r, s, more[k], depth)
      ensures UnitAt(s, e.to, COMMA) ==> CommaBehind(s, more, k, after)
      ensures UnitAt(s, e.to, CLOSE_BRACKET) ==> Follows(s, more, k, after)
    {
      if k < |es| { assert CommaBehind(s, es, k, e.from); }
    }
  }

  lemma {:induction false} ItemsSpelled(r: Rules, s: Text, i: nat, depth: nat, start: nat, from: nat, done: seq<Element>)
    returns (es: seq<Element>)
    requires i <= |s| && Blank(s, from, i) && SpelledSoFar(r, s, start, done, from, depth)
    requires ParseItems(r, s, i, depth, Items(s, done)).Ok?
    ensures es != [] && SpellsElements(r, s, start, es, ParseItems(r, s, i, depth, Items(s, done)).next, depth)
    ensures ParseItems(r, s, i, depth, Items(s, done)).value == Arr(Items(s, es))
    decreases |s| - i, 3
  {
    hide ParseValue, Skip, SpellsElements, SpelledSoFar, SpellsElement, Blank;
    var e := ElementSpelled(r, s, i, depth, from);
    es := done + [e];
    MoreElements(r, s, start, done, e, e.to + 1, depth);
    assert Items(s, es) == Items(s, done) + [ElementMeaning(s, e)];
    if UnitAt(s, e.to, COMMA) {
      BlankSkipped(s, e.to + 1);
      es := ItemsSpelled(r, s, Skip(s, e.to + 1), depth, start, e.to + 1, es);
    }
  }

  /** The members read so far, as for elements. */
  ghost predicate MembersSoFar(r: Rules, s: Text, i: nat, ms: seq<Member>, from: nat, depth: nat) {
    && (if ms == [] then from else ms[0].from) == i
    && forall k | 0 <= k < |ms| :: SpellsMember(r, s, ms[k], depth) && CommaBehindMember(s, ms, k, from)
  }

  ghost predicate CommaBehindMember(s: Text, ms: seq<Member>, k: nat, from: nat)
    requires k < |ms|
  {
    UnitAt(s, ms[k].element.to, COMMA) && (if k + 1 == |ms| then from else ms[k + 1].from) == ms[k].element.to + 1
  }

  lemma MoreMembersSpelled(r: Rules, s: Text, start: nat, ms: seq<Member>, m: Member, after: nat, depth: nat)
    requires MembersSoFar(r, s, start, ms, m.from, depth) && SpellsMember(r, s, m, depth) && after == m.element.to + 1
    ensures UnitAt(s, m.element.to, COMMA) ==> MembersSoFar(r, s, start, ms + [m], after, depth)
    ensures UnitAt(s, m.element.to, CLOSE_BRACE) ==> SpellsMembers(r, s, start, ms + [m], after, depth)
  {
    var more := ms + [m];
    assert more[0] == if ms == [] then m else ms[0];
    forall k | 0 <= k < |more|
      ensures SpellsMember(r, s, more[k], depth)
      ensures UnitAt(s, m.element.to, COMMA) ==> CommaBehindMember(s, more, k, after)
      ensures UnitAt(s, m.element.to, CLOSE_BRACE) ==> MemberFollows(s, more, k, after)
    {
      if k < |ms| { assert CommaBehindMember(s, ms, k, m.from); }
    }
  }

  lemma {:induction false} MembersOfPrefix(s: Text, ms: seq<Member>, m: Member, n: nat)
    requires n <= |ms|
    ensures Members(s, ms + [m], n) == Members(s, ms, n)
    decreases n
  {
    if n > 0 { MembersOfPrefix(s, ms, m, n - 1); }
  }

  lemma {:induction false} NamesCollected(s: Text, ms: seq<Member>, j: nat, n: nat)
    requires j < n <= |ms|
    ensures NameOf(s, ms[j]) in Members(s, ms, n)
    decreases n
  {
    if j < n - 1 { NamesCollected(s, ms, j, n - 1); }
  }

  /** A member whose name is new is added at the end. */
  lemma OneMoreMember(s: Text, ms: seq<Member>, m: Member)
    requires NamesDiffer(s, ms) && NameOf(s, m) !in Members(s, ms, |ms|)
    ensures NamesDiffer(s, ms + [m])
    ensures Members(s, ms + [m], |ms + [m]|) == MoreMembers(s, m, Members(s, ms, |ms|))
  {
    hide NameOf, MoreMembers;
    var more := ms + [m];
    MembersOfPrefix(s, ms, m, |ms|);
    assert more[|more| - 1] == m;
    forall j, k | 0 <= j < k < |more| ensures NameOf(s, more[j]) != NameOf(s, more[k]) {
      NamesCollected(s, ms, j, |ms|);
    }
  }

  lemma MemberSpelled(r: Rules, s: Text, i: nat, depth: nat, from: nat, found: map<Text, Value>) returns (m: Member)
    requires i <= |s| && Blank(s, from, i) && ParseMember(r, s, i, depth, found).Ok?
    ensures SpellsMember(r, s, m, depth) && m.from == from
    ensures m.element.to == Skip(s, ParseMember(r, s, i, depth, found).next) && NameOf(s, m) !in found
    ensures ParseMember(r, s, i, depth, found).value == MoreMembers(s, m, found)
    decreases |s| - i, 2
  {
    hide ParseUnits, SpellsUnits, Units, Skip, ParseValue, SpellsElement;
    var kinds := UnitsSpelled(s, i + 1, []);
    var close := ParseUnits(s, i + 1, []).next;
    assert [] + Units(s, i + 1, kinds, close) == Units(s, i + 1, kinds, close);
    BlankSkipped(s, close);
    var colon := Skip(s, close);
    var e := ElementSpelled(r, s, colon + 1, depth, colon + 1);
    m := Member(from, i, kinds, close, colon, e);
  }

  lemma {:induction false} MembersSpelled(r: Rules, s: Text, i: nat, depth: nat, start: nat, from: nat, done: seq<Member>)
    returns (ms: seq<Member>)
    requires i <= |s| && Blank(s, from, i) && MembersSoFar(r, s, start, done, from, depth) && NamesDiffer(s, done)
    requires ParseMembers(r, s, i, depth, Members(s, done, |done|)).Ok?
    ensures ms != [] && SpellsMembers(r, s, start, ms, ParseMembers(r, s, i, depth, Members(s, done, |done|)).next, depth)
    ensures NamesDiffer(s, ms)
    ensures ParseMembers(r, s, i, depth, Members(s, done, |done|)).value == Obj(Members(s, ms, |ms|))
    decreases |s| - i, 3
  {
    hide ParseMember, ParseValue, Skip, SpellsMembers, MembersSoFar, SpellsMember, Blank, Members, NamesDiffer;
    var m := MemberSpelled(r, s, i, depth, from, Members(s, done, |done|));
    ms := done + [m];
    MoreMembersSpelled(r, s, start, done, m, m.element.to + 1, depth);
    OneMoreMember(s, done, m);
    if UnitAt(s, m.element.to, COMMA) {
      BlankSkipped(s, m.element.to + 1);
      ms := MembersSpelled(r, s, Skip(s, m.element.to + 1), depth, start, m.element.to + 1, ms);
    }
  }

  lemma ObjectSpelled(r: Rules, s: Text, i: nat, depth: nat) returns (t: Tree)
    requires UnitAt(s, i, OPEN_BRACE) && depth < r.maxDepth
    requires ParseObject(r, s, Skip(s, i + 1), depth + 1).Ok?
    ensures Spells(r, s, t, depth) && t.from == i && t.to == ParseObject(r, s, Skip(s, i + 1), depth + 1).next
    ensures Meaning(s, t) == ParseObject(r, s, Skip(s, i + 1), depth + 1).value
    decreases |s| - i, 0
  {
    hide ParseMembers, SpellsMembers;
    var first := Skip(s, i + 1);
    var p := ParseObject(r, s, first, depth + 1);
    BlankSkipped(s, i + 1);
    if UnitAt(s, first, CLOSE_BRACE) {
      t := Object(i, [], p.next);
    } else {
      var ms := MembersSpelled(r, s, first, depth + 1, i + 1, i + 1, []);
      t := Object(i, ms, p.next);
    }
  }

  /** The parser accepts exactly the documents that have a tree, and returns what the tree means. */
  lemma AcceptsExactlyDocuments(r: Rules, s: Text, v: Value)
    ensures ParseDocument(r, s) == Ok(v, |s|) <==> exists e :: SpellsDocument(r, s, e) && ElementMeaning(s, e) == v
    ensures ParseDocument(r, s).Ok? ==> ParseDocument(r, s).next == |s|
  {
    if ParseDocument(r, s).Ok? {
      BlankSkipped(s, 0);
      var e := ElementSpelled(r, s, Skip(s, 0), 0, 0);
      assert SpellsDocument(r, s, e);
    }
    forall e | SpellsDocument(r, s, e) ensures ParseDocument(r, s) == Ok(ElementMeaning(s, e), |s|) {
      DocumentAccepted(r, s, e);
    }
  }
}
