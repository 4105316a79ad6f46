/**
 The printer and the parser undo each other: what is printed for a value has a tree
 that means the value, at any place where the nesting limit leaves room for it.
 */
module JsonRoundTrip {
  import opened JsonValues
  import opened JsonParser
  import opened JsonGrammar
  import opened JsonPrinter

  /** Objects and arrays are nested at most `n` deep. */
  ghost predicate NestedAtMost(v: Value, n: nat)
    decreases v
  {
    match v
    case Arr(items) => n > 0 && forall k | 0 <= k < |items| :: NestedAtMost(items[k], n - 1)
    case Obj(members) => n > 0 && forall name | name in members :: NestedAtMost(members[name], n - 1)
    case _ => true
  }

  /** The host reads safe integers as finite numbers. */
  ghost predicate IntegersFinite(r: Rules) {
    forall n: int | -MAX_SAFE_INTEGER <= n <= MAX_SAFE_INTEGER :: r.finite(IntText(n))
  }

  lemma Split(s: Text, i: nat, a: Text, b: Text)
    requires StartsWith(s, i, a + b)
    ensures StartsWith(s, i, a) && StartsWith(s, i + |a|, b)
  {
    assert s[i..i + |a|] == s[i..i + |a + b|][..|a|] == a;
    assert s[i + |a|..i + |a| + |b|] == s[i..i + |a + b|][|a|..] == b;
  }

  lemma First(s: Text, i: nat, u: Unit, rest: Text)
    requires StartsWith(s, i, [u] + rest)
    ensures UnitAt(s, i, u) && StartsWith(s, i + 1, rest)
  {
    Split(s, i, [u], rest);
    assert s[i] == s[i..i + 1][0];
  }

  lemma UnitOfWord(s: Text, i: nat, word: Text, k: nat)
    requires StartsWith(s, i, word) && k < |word|
    ensures s[i + k] == word[k]
  {
    assert s[i + k] == s[i..i + |word|][k];
  }

  // ---- Strings ----------------------------------------------------------------------

  lemma HexOfControl(u: Unit)
    requires u < 0x20
    ensures var t := [ZERO, ZERO, HexLetter(u / 16), HexLetter(u % 16)]; AllHex(t) && HexValue(t) == u
  {
  }

  lemma UnitPrinted(s: Text, i: nat, u: Unit) returns (k: Kind)
    requires !IsHigh(u) && !IsLow(u) && StartsWith(s, i, Escape(u))
    ensures SpellsKind(s, i, k) && KindMeaning(s, i, k) == [u] && Width(k) == |Escape(u)|
  {
    var e := Escape(u);
    UnitOfWord(s, i, e, 0);
    k := if |e| == 1 then Raw else if |e| == 2 then Simple else Hex;
    if |e| > 1 { UnitOfWord(s, i, e, 1); }
    if |e| == 6 {
      HexOfControl(u);
      assert s[i + 2..i + 6] == e[2..6];
    }
  }

  lemma PairPrinted(s: Text, i: nat, high: Unit, low: Unit)
    requires IsHigh(high) && IsLow(low) && StartsWith(s, i, Escape(high) + Escape(low))
    ensures SpellsKind(s, i, RawPair) && KindMeaning(s, i, RawPair) == [high, low]
    ensures |Escape(high) + Escape(low)| == Width(RawPair)
  {
    First(s, i, high, [low]);
    First(s, i + 1, low, []);
  }

  lemma {:induction false} UnitsPrinted(s: Text, i: nat, t: Text) returns (kinds: seq<Kind>)
    requires ScalarText(t) && StartsWith(s, i, Escaped(t) + [QUOTE])
    ensures SpellsUnits(s, i, kinds, i + |Escaped(t)| + 1) && Units(s, i, kinds, i + |Escaped(t)| + 1) == t
    decreases |t|
  {
    hide Escape, SpellsKind, KindMeaning, Width, ScalarText, StartsWith;
    if t == [] {
      assert Escaped(t) + [QUOTE] == [QUOTE] + [];
      First(s, i, QUOTE, []);
      kinds := [];
    } else {
      var k, rest := HeadPrinted(s, i, t);
      var more := UnitsPrinted(s, i + Width(k), rest);
      kinds := [k] + more;
      assert kinds[1..] == more;
    }
  }

  /** The first character, or surrogate pair, and the rest. */
  lemma HeadPrinted(s: Text, i: nat, t: Text) returns (k: Kind, rest: Text)
    requires ScalarText(t) && t != [] && StartsWith(s, i, Escaped(t) + [QUOTE])
    ensures SpellsKind(s, i, k) && t == KindMeaning(s, i, k) + rest && ScalarText(rest) && |rest| < |t|
    ensures StartsWith(s, i + Width(k), Escaped(rest) + [QUOTE]) && |Escaped(t)| == Width(k) + |Escaped(rest)|
  {
    hide Escape, SpellsKind, KindMeaning, Width;
    var head := Escape(t[0]);
    if IsHigh(t[0]) {
      head, rest := head + Escape(t[1]), t[2..];
      assert t[1..][1..] == rest;
    } else {
      rest := t[1..];
    }
    assert Escaped(t) == head + Escaped(rest);
    assert Escaped(t) + [QUOTE] == head + (Escaped(rest) + [QUOTE]);
    Split(s, i, head, Escaped(rest) + [QUOTE]);
    if IsHigh(t[0]) {
      k := RawPair;
      PairPrinted(s, i, t[0], t[1]);
    } else {
      k := UnitPrinted(s, i, t[0]);
    }
  }

  lemma QuotedPrinted(s: Text, i: nat, t: Text) returns (kinds: seq<Kind>)
    requires ScalarText(t) && StartsWith(s, i, Quoted(t))
    ensures UnitAt(s, i, QUOTE) && SpellsUnits(s, i + 1, kinds, i + |Quoted(t)|)
    ensures Units(s, i + 1, kinds, i + |Quoted(t)|) == t
  {
    assert Quoted(t) == [QUOTE] + (Escaped(t) + [QUOTE]);
    First(s, i, QUOTE, Escaped(t) + [QUOTE]);
    kinds := UnitsPrinted(s, i + 1, t);
  }

  // ---- Values -------------------------------------------------------------------------

  lemma DigitsPrinted(s: Text, i: nat, digits: Text)
    requires AllDigits(digits) && StartsWith(s, i, digits)
    ensures Digits(s, i, i + |digits|)
  {
    forall k | i <= k < i + |digits| ensures IsDigit(s[k]) { UnitOfWord(s, i, digits, k - i); }
  }

  lemma IntegerPrinted(s: Text, i: nat, n: int)
    requires -MAX_SAFE_INTEGER <= n <= MAX_SAFE_INTEGER && StartsWith(s, i, IntText(n))
    ensures SpellsWhole(s, i, i + |IntText(n)|) && i < i + |IntText(n)| <= |s|
    ensures Convert(s[i..i + |IntText(n)|]) == Integer(n)
  {
    hide NatText, DigitsValue, Convert;
    IntTextConverts(n);
    if n < 0 {
      var digits := NatText(-n);
      First(s, i, MINUS, digits);
      DigitsPrinted(s, i + 1, digits);
      UnitOfWord(s, i + 1, digits, 0);
    } else {
      DigitsPrinted(s, i, NatText(n));
      UnitOfWord(s, i, NatText(n), 0);
    }
  }

  lemma WordPrinted(r: Rules, s: Text, i: nat, v: Value, depth: nat) returns (t: Tree)
    requires (v.Null? || v.Bool?) && StartsWith(s, i, Print(v))
    ensures Spells(r, s, t, depth) && t.from == i && t.to == i + |Print(v)| && Meaning(s, t) == v
  {
    t := Word(i, i + |Print(v)|, v);
  }

  lemma NumberPrinted(r: Rules, s: Text, i: nat, v: Value, depth: nat) returns (t: Tree)
    requires v.Num? && Plain(v) && StartsWith(s, i, Print(v)) && IntegersFinite(r)
    ensures Spells(r, s, t, depth) && t.from == i && t.to == i + |Print(v)| && Meaning(s, t) == v
  {
    hide IntText, Convert;
    var end := i + |Print(v)|;
    IntegerPrinted(s, i, v.number.n);
    t := Number(i, end, end, end);
  }

  lemma StringPrinted(r: Rules, s: Text, i: nat, v: Value, depth: nat) returns (t: Tree)
    requires v.Str? && Scalar(v) && StartsWith(s, i, Print(v))
    ensures Spells(r, s, t, depth) && t.from == i && t.to == i + |Print(v)| && Meaning(s, t) == v
  {
    hide SpellsUnits, Units, Escaped;
    var kinds := QuotedPrinted(s, i, v.text);
    t := String(i, kinds, i + |Print(v)|);
  }

  lemma {:induction false} TreePrinted(r: Rules, s: Text, i: nat, v: Value, depth: nat) returns (t: Tree)
    requires Plain(v) && Scalar(v) && StartsWith(s, i, Print(v)) && IntegersFinite(r)
    requires depth <= r.maxDepth && NestedAtMost(v, r.maxDepth - depth)
    ensures Spells(r, s, t, depth) && t.from == i && t.to == i + |Print(v)| && Meaning(s, t) == v
    decreases v, 1
  {
    hide Print, Spells, Meaning;
    match v
    case Num(_) =>
      t := NumberPrinted(r, s, i, v, depth);
    case Str(_) =>
      t := StringPrinted(r, s, i, v, depth);
    case Arr(_) =>
      t := ArrayPrinted(r, s, i, v, depth);
    case Obj(_) =>
      t := ObjectPrinted(r, s, i, v, depth);
    case _ =>
      t := WordPrinted(r, s, i, v, depth);
  }

  /** Text `n` of a list joined by commas, and what stands behind it. */
  lemma JoinedAt(s: Text, i: nat, texts: seq<Text>, n: nat, close: Unit)
    requires n < |texts| && StartsWith(s, i, Joined(texts[n..]) + [close])
    ensures StartsWith(s, i, texts[n])
    ensures n + 1 == |texts| ==> UnitAt(s, i + |texts[n]|, close) && |Joined(texts[n..])| == |texts[n]|
    ensures n + 1 < |texts| ==>
              && UnitAt(s, i + |texts[n]|, COMMA)
              && StartsWith(s, i + |texts[n]| + 1, Joined(texts[n + 1..]) + [close])
              && |Joined(texts[n..])| == |texts[n]| + 1 + |Joined(texts[n + 1..])|
  {
    var text, rest := texts[n], Joined(texts[n + 1..]) + [close];
    assert texts[n..][1..] == texts[n + 1..];
    if n + 1 == |texts| {
      Split(s, i, text, [close]);
      First(s, i + |text|, close, []);
    } else {
      assert Joined(texts[n..]) + [close] == text + ([COMMA] + rest);
      Split(s, i, text, [COMMA] + rest);
      First(s, i + |text|, COMMA, rest);
    }
  }

  lemma ArrayPrinted(r: Rules, s: Text, i: nat, v: Value, depth: nat) returns (t: Tree)
    requires v.Arr? && Plain(v) && Scalar(v) && StartsWith(s, i, Print(v)) && IntegersFinite(r)
    requires depth < r.maxDepth && NestedAtMost(v, r.maxDepth - depth)
    ensures Spells(r, s, t, depth) && t.from == i && t.to == i + |Print(v)| && Meaning(s, t) == v
    decreases v, 0
  {
    hide SpellsElements, ItemTexts;
    var texts, end := ItemTexts(v.items), i + |Print(v)|;
    assert Print(v) == [OPEN_BRACKET] + (Joined(texts) + [CLOSE_BRACKET]);
    First(s, i, OPEN_BRACKET, Joined(texts) + [CLOSE_BRACKET]);
    assert Items(s, []) == [];
    if v.items == [] {
      First(s, i + 1, CLOSE_BRACKET, []);
      t := Array(i, [], end);
    } else {
      assert v.items[..0] == [] && texts[0..] == texts;
      var es := ItemsPrinted(r, s, i + 1, v.items, 0, depth + 1, i + 1, []);
      t := Array(i, es, end);
    }
  }

  /** The items from `n` on; `done` are the elements of those before. */
  lemma ItemsPrinted(r: Rules, s: Text, i: nat, items: seq<Value>, n: nat, depth: nat, start: nat, done: seq<Element>)
    returns (es: seq<Element>)
    requires n < |items| && IntegersFinite(r) && depth <= r.maxDepth
    requires forall k | 0 <= k < |items| :: Plain(items[k]) && Scalar(items[k]) && NestedAtMost(items[k], r.maxDepth - depth)
    requires StartsWith(s, i, Joined(ItemTexts(items)[n..]) + [CLOSE_BRACKET])
    requires SpelledSoFar(r, s, start, done, i, depth) && Items(s, done) == items[..n]
    ensures es != [] && SpellsElements(r, s, start, es, i + |Joined(ItemTexts(items)[n..])| + 1, depth)
    ensures Items(s, es) == items
    decreases items, |items| - n
  {
    hide Spells, SpellsElements, SpelledSoFar, Print, Meaning, Joined, StartsWith, Plain, Scalar;
    JoinedAt(s, i, ItemTexts(items), n, CLOSE_BRACKET);
    assert ItemTexts(items)[n] == Print(items[n]);
    var t := TreePrinted(r, s, i, items[n], depth);
    var e := Element(i, t, t.to);
    es := done + [e];
    MoreElements(r, s, start, done, e, e.to + 1, depth);
    assert Items(s, es) == Items(s, done) + [items[n]] == items[..n + 1];
    if n + 1 == |items| {
      assert items[..n + 1] == items;
    } else {
      es := ItemsPrinted(r, s, e.to + 1, items, n + 1, depth, start, es);
    }
  }

  lemma ObjectPrinted(r: Rules, s: Text, i: nat, v: Value, depth: nat) returns (t: Tree)
    requires v.Obj? && Plain(v) && Scalar(v) && StartsWith(s, i, Print(v)) && IntegersFinite(r)
    requires depth < r.maxDepth && NestedAtMost(v, r.maxDepth - depth)
    ensures Spells(r, s, t, depth) && t.from == i && t.to == i + |Print(v)| && Meaning(s, t) == v
    decreases v, 0
  {
    hide SpellsMembers, MemberTexts, Ordered, IntegersFinite, Quoted, Scalar, NestedAtMost, Spells, Joined, NamesDiffer, Members;
    var keys, texts, end := Ordered(v.members.Keys), MemberTexts(v), i + |Print(v)|;
    assert Print(v) == [OPEN_BRACE] + (Joined(texts) + [CLOSE_BRACE]);
    First(s, i, OPEN_BRACE, Joined(texts) + [CLOSE_BRACE]);
    if keys == [] {
      assert forall name | name in v.members :: name in keys;
      assert v.members == map[];
      assert texts == [];
      EmptyObjectPrinted(r, s, i, depth);
      t := Object(i, [], end);
    } else {
      assert texts[0..] == texts;
      NoMembers(s);
      var ms := MembersPrinted(r, s, i + 1, v, 0, depth + 1, i + 1, []);
      t := Object(i, ms, end);
      ObjectSpells(r, s, i, ms, end, depth);
    }
  }

  lemma NoMembers(s: Text)
    ensures Members(s, [], 0) == map[] && NamesDiffer(s, [])
  {
  }

  lemma EmptyObjectPrinted(r: Rules, s: Text, i: nat, depth: nat)
    requires depth < r.maxDepth && StartsWith(s, i, [OPEN_BRACE] + (Joined([]) + [CLOSE_BRACE]))
    ensures Spells(r, s, Object(i, [], i + 2), depth) && Members(s, [], 0) == map[] && Joined([]) == []
  {
    assert Joined([]) + [CLOSE_BRACE] == [CLOSE_BRACE];
    First(s, i, OPEN_BRACE, [CLOSE_BRACE]);
    First(s, i + 1, CLOSE_BRACE, []);
  }

  lemma ObjectSpells(r: Rules, s: Text, i: nat, ms: seq<Member>, end: nat, depth: nat)
    requires depth < r.maxDepth && UnitAt(s, i, OPEN_BRACE) && i + 1 < end <= |s| && ms != []
    requires SpellsMembers(r, s, i + 1, ms, end, depth + 1) && NamesDiffer(s, ms)
    ensures Spells(r, s, Object(i, ms, end), depth)
  {
    hide SpellsMembers, NamesDiffer;
  }

  /** The members whose names are among the first `n` in order. */
  ghost function FirstMembers(v: Value, n: nat): map<Text, Value>
    requires v.Obj? && n <= |Ordered(v.members.Keys)|
  {
    map name | name in v.members && name in Ordered(v.members.Keys)[..n] :: v.members[name]
  }

  lemma NextMember(v: Value, n: nat)
    requires v.Obj? && n < |Ordered(v.members.Keys)|
    ensures var name := Ordered(v.members.Keys)[n];
            && name in v.members && name !in FirstMembers(v, n)
            && FirstMembers(v, n + 1) == FirstMembers(v, n)[name := v.members[name]]
    ensures FirstMembers(v, |Ordered(v.members.Keys)|) == v.members
  {
    hide Ordered;
    var keys := Ordered(v.members.Keys);
    assert keys[..|keys|] == keys;
    assert keys[..n + 1] == keys[..n] + [keys[n]];
    forall j | 0 <= j < n ensures keys[j] != keys[n] { BeforeTotal(keys[j], keys[n]); }
  }

  lemma MembersPrinted(r: Rules, s: Text, i: nat, v: Value, n: nat, depth: nat, start: nat, done: seq<Member>)
    returns (ms: seq<Member>)
    requires v.Obj? && Plain(v) && Scalar(v) && IntegersFinite(r) && depth <= r.maxDepth
    requires NestedAtMost(v, r.maxDepth - depth + 1) && n < |Ordered(v.members.Keys)|
    requires StartsWith(s, i, Joined(MemberTexts(v)[n..]) + [CLOSE_BRACE])
    requires MembersSoFar(r, s, start, done, i, depth) && NamesDiffer(s, done)
    requires Members(s, done, |done|) == FirstMembers(v, n)
    ensures ms != [] && SpellsMembers(r, s, start, ms, i + |Joined(MemberTexts(v)[n..])| + 1, depth)
    ensures NamesDiffer(s, ms) && Members(s, ms, |ms|) == v.members
    decreases v, 0, |Ordered(v.members.Keys)| - n
  {
    hide SpellsMember, SpellsMembers, MembersSoFar, Print, Joined, StartsWith, Members, NamesDiffer, Ordered, FirstMembers;
    hide MemberTexts, Quoted;
    var keys := Ordered(v.members.Keys);
    var text := MemberTexts(v)[n];
    JoinedAt(s, i, MemberTexts(v), n, CLOSE_BRACE);
    NextMember(v, n);
    var m := MemberPrinted(r, s, i, v, n, depth);
    ms := done + [m];
    MoreMembersSpelled(r, s, start, done, m, m.element.to + 1, depth);
    OneMoreMember(s, done, m);
    assert |ms| > 0;
    if n + 1 < |keys| {
      ms := MembersPrinted(r, s, m.element.to + 1, v, n + 1, depth, start, ms);
    }
  }

  lemma MemberPrinted(r: Rules, s: Text, i: nat, v: Value, n: nat, depth: nat) returns (m: Member)
    requires v.Obj? && Plain(v) && Scalar(v) && IntegersFinite(r) && depth <= r.maxDepth
    requires NestedAtMost(v, r.maxDepth - depth + 1) && n < |Ordered(v.members.Keys)|
    requires StartsWith(s, i, MemberTexts(v)[n])
    ensures SpellsMember(r, s, m, depth) && m.from == i && m.element.to == i + |MemberTexts(v)[n]|
    ensures Ordered(v.members.Keys)[n] in v.members
    ensures NameOf(s, m) == Ordered(v.members.Keys)[n] && ElementMeaning(s, m.element) == v.members[NameOf(s, m)]
    decreases v, 0, 0
  {
    hide Ordered, Quoted, StartsWith, Print, Spells, Meaning, SpellsUnits, Units;
    var name := Ordered(v.members.Keys)[n];
    var text := Print(v.members[name]);
    assert MemberTexts(v)[n] == Quoted(name) + ([COLON] + text);
    Split(s, i, Quoted(name), [COLON] + text);
    First(s, i + |Quoted(name)|, COLON, text);
    var kinds := QuotedPrinted(s, i, name);
    var colon := i + |Quoted(name)|;
    var t := TreePrinted(r, s, colon + 1, v.members[name], depth);
    m := Member(i, i, kinds, colon, colon, Element(colon + 1, t, t.to));
  }

  // ---- Nesting ----------------------------------------------------------------------------

  /** A tree leaves the nesting limit to what it means. */
  lemma {:induction false} TreeIsNested(r: Rules, s: Text, t: Tree, depth: nat)
    requires Spells(r, s, t, depth) && depth <= r.maxDepth
    ensures NestedAtMost(Meaning(s, t), r.maxDepth - depth)
    decreases t, 1
  {
    hide SpellsUnits, Units, SpellsWhole, SpellsFraction, SpellsExponent, NamesDiffer, StartsWith, Blank, Convert, NameOf;
    hide SpellsMember, Follows, MemberFollows, AllDigits, IntText;
    match t
    case Array(from, elements, to) =>
      forall k | 0 <= k < |elements| ensures NestedAtMost(ElementMeaning(s, elements[k]), r.maxDepth - depth - 1) {
        assert SpellsElement(r, s, elements[k], depth + 1);
        TreeIsNested(r, s, elements[k].tree, depth + 1);
      }
    case Object(from, members, to) =>
      MembersAreNested(r, s, members, |members|, depth + 1);
    case _ =>
  }

  lemma {:induction false} MembersAreNested(r: Rules, s: Text, ms: seq<Member>, n: nat, depth: nat)
    requires n <= |ms| && depth <= r.maxDepth && forall k | 0 <= k < |ms| :: SpellsMember(r, s, ms[k], depth)
    ensures forall name | name in Members(s, ms, n) :: NestedAtMost(Members(s, ms, n)[name], r.maxDepth - depth)
    decreases ms, 0, n
  {
    hide Spells, Meaning, NestedAtMost, SpellsName, NameOf;
    if n > 0 {
      assert SpellsMember(r, s, ms[n - 1], depth);
      assert SpellsElement(r, s, ms[n - 1].element, depth);
      TreeIsNested(r, s, ms[n - 1].element.tree, depth);
      MembersAreNested(r, s, ms, n - 1, depth);
      var before, name := Members(s, ms, n - 1), NameOf(s, ms[n - 1]);
      assert Members(s, ms, n) == before[name := ElementMeaning(s, ms[n - 1].element)];
    }
  }

  /** These rules allow all that the others do. */
  ghost predicate Looser(q: Rules, r: Rules) { r.maxDepth <= q.maxDepth && forall lexeme | r.finite(lexeme) :: q.finite(lexeme) }

  /** Looser rules take nothing away. */
  lemma {:induction false} LooserSpells(r: Rules, s: Text, t: Tree, depth: nat, q: Rules)
    requires Spells(r, s, t, depth) && Looser(q, r)
    ensures Spells(q, s, t, depth)
    decreases t
  {
    hide SpellsUnits, SpellsWhole, SpellsFraction, SpellsExponent, NamesDiffer, StartsWith, Blank, SpellsName, Follows, MemberFollows;
    match t
    case Array(from, elements, to) =>
      forall k | 0 <= k < |elements|
        ensures SpellsElement(q, s, elements[k], depth + 1)
      {
        assert SpellsElement(r, s, elements[k], depth + 1);
        LooserSpells(r, s, elements[k].tree, depth + 1, q);
      }
    case Object(from, members, to) =>
      forall k | 0 <= k < |members|
        ensures SpellsMember(q, s, members[k], depth + 1)
      {
        assert SpellsMember(r, s, members[k], depth + 1);
        assert SpellsElement(r, s, members[k].element, depth + 1);
        LooserSpells(r, s, members[k].element.tree, depth + 1, q);
        assert SpellsElement(q, s, members[k].element, depth + 1);
      }
    case _ =>
  }

  lemma DocumentUnderLooserRules(r: Rules, s: Text, e: Element, q: Rules)
    requires SpellsDocument(r, s, e) && Looser(q, r)
    ensures SpellsDocument(q, s, e) && NestedAtMost(ElementMeaning(s, e), r.maxDepth)
  {
    LooserSpells(r, s, e.tree, 0, q);
    TreeIsNested(r, s, e.tree, 0);
  }

  /** Whatever the limits are, a text means one value at most. */
  lemma MeaningIsUnique(r: Rules, q: Rules, s: Text, d: Element, e: Element)
    requires SpellsDocument(r, s, d) && SpellsDocument(q, s, e)
    ensures ElementMeaning(s, d) == ElementMeaning(s, e)
  {
    hide Spells, Meaning, ParseDocument, SpellsDocument;
    var both := Rules(r.maxDepth + q.maxDepth, (_: Text) => true);
    DocumentUnderLooserRules(r, s, d, both);
    DocumentUnderLooserRules(q, s, e, both);
    DocumentAccepted(both, s, d);
    DocumentAccepted(both, s, e);
  }

  lemma {:induction false} NestedAtMore(v: Value, n: nat, m: nat)
    requires NestedAtMost(v, n) && n <= m
    ensures NestedAtMost(v, m)
    decreases v
  {
    match v
    case Arr(items) => forall k | 0 <= k < |items| ensures NestedAtMost(items[k], m - 1) { NestedAtMore(items[k], n - 1, m - 1); }
    case Obj(members) =>
      forall name | name in members ensures NestedAtMost(members[name], m - 1) { NestedAtMore(members[name], n - 1, m - 1); }
    case _ =>
  }

  /** Every value is nested finitely deep. */
  lemma {:induction false} SomeNesting(v: Value) returns (n: nat)
    ensures NestedAtMost(v, n)
    decreases v, 1
  {
    match v
    case Arr(items) =>
      n := ItemsNesting(items);
      n := n + 1;
    case Obj(members) =>
      n := MembersNesting(v, members.Keys);
      n := n + 1;
    case _ =>
      n := 0;
  }

  lemma ItemsNesting(items: seq<Value>) returns (n: nat)
    ensures forall k | 0 <= k < |items| :: NestedAtMost(items[k], n)
    decreases items
  {
    n := 0;
    if items != [] {
      var last := |items| - 1;
      var m := SomeNesting(items[last]);
      n := ItemsNesting(items[..last]);
      forall k | 0 <= k < |items| ensures NestedAtMost(items[k], n + m) {
        NestedAtMore(items[k], if k == last then m else n, n + m);
      }
      n := n + m;
    }
  }

  lemma MembersNesting(v: Value, names: set<Text>) returns (n: nat)
    requires v.Obj? && names <= v.members.Keys
    ensures forall name | name in names :: NestedAtMost(v.members[name], n)
    decreases v, 0, names
  {
    n := 0;
    if names != {} {
      var name :| name in names;
      var m := SomeNesting(v.members[name]);
      n := MembersNesting(v, names - {name});
      forall other | other in names ensures NestedAtMost(v.members[other], n + m) {
        NestedAtMore(v.members[other], if other == name then m else n, n + m);
      }
      n := n + m;
    }
  }

  // ---- Round trips ---------------------------------------------------------------------------

  lemma PrintedIsParsed(r: Rules, v: Value)
    requires Plain(v) && Scalar(v) && IntegersFinite(r) && NestedAtMost(v, r.maxDepth)
    ensures ParseDocument(r, Print(v)) == Ok(v, |Print(v)|)
  {
    hide Print, NestedAtMost, ParseDocument, Scalar, Plain, Spells, Meaning, IntegersFinite;
    var s := Print(v);
    assert s[0..0 + |s|] == s;
    var t := TreePrinted(r, s, 0, v, 0);
    var e := Element(0, t, |s|);
    assert SpellsDocument(r, s, e);
    DocumentAccepted(r, s, e);
  }

  /**
   The parser reads back what was printed exactly when the nesting limit leaves room
   for the value, and it never reads anything else there.
   */
  lemma ParsesWhatWasPrinted(r: Rules, v: Value)
    requires Plain(v) && Scalar(v) && IntegersFinite(r)
    ensures ParseDocument(r, Print(v)) == Ok(v, |Print(v)|) <==> NestedAtMost(v, r.maxDepth)
    ensures ParseDocument(r, Print(v)).Ok? ==> ParseDocument(r, Print(v)).value == v
  {
    hide Print, ParseDocument, NestedAtMost, SpellsElement, Spells, Meaning, Scalar, Plain, IntText;
    if NestedAtMost(v, r.maxDepth) { PrintedIsParsed(r, v); }
    var p := ParseDocument(r, Print(v));
    if p.Ok? {
      AcceptsExactlyDocuments(r, Print(v), p.value);
      var e :| SpellsDocument(r, Print(v), e) && ElementMeaning(Print(v), e) == p.value;
      var n := SomeNesting(v);
      var higher := r.(maxDepth := r.maxDepth + n);
      NestedAtMore(v, n, higher.maxDepth);
      PrintedIsParsed(higher, v);
      DocumentUnderLooserRules(r, Print(v), e, higher);
      DocumentAccepted(higher, Print(v), e);
    }
  }

  /** Different values are printed differently. */
  lemma PrintingIsInjective(v: Value, w: Value)
    requires Plain(v) && Scalar(v) && Plain(w) && Scalar(w) && Print(v) == Print(w)
    ensures v == w
  {
    hide Print, NestedAtMost, ParseDocument, Scalar, Plain, IntText;
    var n := SomeNesting(v);
    var m := SomeNesting(w);
    var r := Rules(n + m, (_: Text) => true);
    NestedAtMore(v, n, n + m);
    NestedAtMore(w, m, n + m);
    PrintedIsParsed(r, v);
    PrintedIsParsed(r, w);
  }
}
