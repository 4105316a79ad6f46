/**
 `stableStringify`: JSON text with the members of every object in order, whatever order
 they came in. Objects are lists of members here, in the order of `Object.keys`.
 */
module StableJson {
  import opened JsonValues
  import opened JsonParser
  import opened JsonGrammar
  import opened JsonPrinter

  datatype JsTree =
    | JsNull
    | JsBool(b: bool)
    | JsNumber(number: Number)
    | JsString(text: Text)
    | JsArray(items: seq<JsTree>)
    | JsObject(members: seq<Property>)

  datatype Property = Property(name: Text, value: JsTree)

  predicate NamedOnce(members: seq<Property>) { forall j, k | 0 <= j < k < |members| :: members[j].name != members[k].name }

  /** No object has two members of the same name. */
  predicate Distinct(v: JsTree) {
    match v
    case JsArray(items) => forall k | 0 <= k < |items| :: Distinct(items[k])
    case JsObject(members) => NamedOnce(members) && forall k | 0 <= k < |members| :: Distinct(members[k].value)
    case _ => true
  }

  type JsValue = v: JsTree | Distinct(v) witness JsNull

  function Names(members: seq<Property>): (names: seq<Text>)
    ensures |names| == |members|
  {
    seq(|members|, k requires 0 <= k < |members| => members[k].name)
  }

  function NameSet(members: seq<Property>): set<Text> { set k | 0 <= k < |members| :: members[k].name }

  /** Where the member of a name stands. */
  function Find(members: seq<Property>, name: Text): (k: nat)
    requires name in NameSet(members)
    ensures k < |members| && members[k].name == name
  {
    if members[0].name == name then 0
    else
      assert name in NameSet(members[1..]) by {
        var k :| 0 <= k < |members| && members[k].name == name;
        assert members[1..][k - 1] == members[k];
      }
      Find(members[1..], name) + 1
  }

  /** The value, without the order of its members. */
  function Unordered(v: JsTree): Value {
    match v
    case JsNull => Null
    case JsBool(b) => Bool(b)
    case JsNumber(number) => Num(number)
    case JsString(text) => Str(text)
    case JsArray(items) => Arr(seq(|items|, k requires 0 <= k < |items| => Unordered(items[k])))
    case JsObject(members) => Obj(map name | name in NameSet(members) :: Unordered(members[Find(members, name)].value))
  }

  /** A value with its members in order. */
  ghost function InOrder(v: Value): (t: JsTree)
    ensures Distinct(t)
    decreases v
  {
    match v
    case Null => JsNull
    case Bool(b) => JsBool(b)
    case Num(number) => JsNumber(number)
    case Str(text) => JsString(text)
    case Arr(items) => JsArray(seq(|items|, k requires 0 <= k < |items| => InOrder(items[k])))
    case Obj(members) =>
      var keys := Ordered(members.Keys);
      OrderedOnce(keys);
      JsObject(seq(|keys|, k requires 0 <= k < |keys| => Property(keys[k], InOrder(members[keys[k]]))))
  }

  lemma OrderedOnce(keys: seq<Text>)
    requires Ascending(keys)
    ensures forall j, k | 0 <= j < k < |keys| :: keys[j] != keys[k]
  {
    hide Before;
    forall j, k | 0 <= j < k < |keys| ensures keys[j] != keys[k] {
      assert Before(keys[j], keys[k]);
      BeforeTotal(keys[j], keys[k]);
    }
  }

  lemma {:induction false} InOrderIsTheValue(v: Value)
    ensures Unordered(InOrder(v)) == v
    decreases v
  {
    hide Ordered, Find;
    match v
    case Arr(items) =>
      forall k | 0 <= k < |items| ensures Unordered(InOrder(items[k])) == items[k] { InOrderIsTheValue(items[k]); }
      assert Unordered(InOrder(v)).items == items;
    case Obj(members) =>
      forall name | name in members ensures Unordered(InOrder(members[name])) == members[name] { InOrderIsTheValue(members[name]); }
      var list, keys := InOrder(v).members, Ordered(members.Keys);
      forall name ensures name in NameSet(list) <==> name in members {
        if name in members {
          var k :| 0 <= k < |keys| && keys[k] == name;
          assert list[k].name == name;
        }
      }
      assert Unordered(InOrder(v)).members == members;
    case _ =>
  }

  // ---- The text --------------------------------------------------------------------------------

  function HexText(u: Unit): Text {
    [BACKSLASH, SMALL_U, HexLetter(u / 0x1000), HexLetter(u / 0x100 % 16), HexLetter(u / 16 % 16), HexLetter(u % 16)]
  }

  /** The units of a string as `JSON.stringify` writes them: an unpaired surrogate is escaped. */
  function WrittenUnits(t: Text): Text {
    if t == [] then []
    else if IsHigh(t[0]) && |t| > 1 && IsLow(t[1]) then [t[0], t[1]] + WrittenUnits(t[2..])
    else if IsHigh(t[0]) || IsLow(t[0]) then HexText(t[0]) + WrittenUnits(t[1..])
    else Escape(t[0]) + WrittenUnits(t[1..])
  }

  function StringText(t: Text): Text { [QUOTE] + WrittenUnits(t) + [QUOTE] }

  /** `number` writes the numbers that are not safe integers. */
  function NumberText(number: Text -> Text, n: Number): Text {
    match n
    case Integer(i) => IntText(i)
    case Other(lexeme) => number(lexeme)
  }

  function StableStringify(number: Text -> Text, v: JsTree): Text
    decreases v, 2
  {
    match v
    case JsNull => NULL
    case JsBool(b) => if b then TRUE else FALSE
    case JsNumber(n) => NumberText(number, n)
    case JsString(text) => StringText(text)
    case JsArray(items) => [OPEN_BRACKET] + Joined(ItemsTexts(number, items)) + [CLOSE_BRACKET]
    case JsObject(_) => [OPEN_BRACE] + Joined(PropertyTexts(number, v)) + [CLOSE_BRACE]
  }

  function ItemsTexts(number: Text -> Text, items: seq<JsTree>): (texts: seq<Text>)
    ensures |texts| == |items|
    decreases items, 0
  {
    seq(|items|, k requires 0 <= k < |items| => StableStringify(number, items[k]))
  }

  /** The members of an object, sorted by name. */
  function PropertyTexts(number: Text -> Text, v: JsTree): (texts: seq<Text>)
    requires v.JsObject?
    ensures |texts| == |v.members|
    decreases v, 1
  {
    SortKeeps(v.members);
    var keys := Sort(Names(v.members));
    seq(|keys|, k requires 0 <= k < |keys| => StringText(keys[k]) + [COLON] + PropertyText(number, v, keys[k]))
  }

  function PropertyText(number: Text -> Text, v: JsTree, key: Text): Text
    requires v.JsObject?
    decreases v, 0
  {
    if key in NameSet(v.members) then StableStringify(number, v.members[Find(v.members, key)].value) else []
  }

  lemma SortKeeps(members: seq<Property>)
    ensures |Sort(Names(members))| == |members|
    ensures forall t :: t in Sort(Names(members)) <==> t in NameSet(members)
  {
    var names := Names(members);
    assert |multiset(Sort(names))| == |multiset(names)|;
    forall t ensures t in Sort(names) <==> t in NameSet(members) {
      assert t in Sort(names) <==> t in multiset(Sort(names));
      assert t in names <==> t in multiset(names);
      if t in NameSet(members) {
        var k :| 0 <= k < |members| && members[k].name == t;
        assert names[k] == t;
      }
    }
  }

  // ---- It is the text of the value ----------------------------------------------------------------

  /** The canonical text of a value, whose objects have no order. */
  ghost function StableText(number: Text -> Text, v: Value): Text
    decreases v, 1
  {
    match v
    case Null => NULL
    case Bool(b) => if b then TRUE else FALSE
    case Num(n) => NumberText(number, n)
    case Str(text) => StringText(text)
    case Arr(items) => [OPEN_BRACKET] + Joined(ValueTexts(number, items)) + [CLOSE_BRACKET]
    case Obj(_) => [OPEN_BRACE] + Joined(StableMembers(number, v)) + [CLOSE_BRACE]
  }

  ghost function ValueTexts(number: Text -> Text, items: seq<Value>): (texts: seq<Text>)
    ensures |texts| == |items|
    decreases items, 0
  {
    seq(|items|, k requires 0 <= k < |items| => StableText(number, items[k]))
  }

  ghost function StableMembers(number: Text -> Text, v: Value): (texts: seq<Text>)
    requires v.Obj?
    ensures |texts| == |Ordered(v.members.Keys)|
    decreases v, 0
  {
    var keys := Ordered(v.members.Keys);
    seq(|keys|, k requires 0 <= k < |keys| => StringText(keys[k]) + [COLON] + StableText(number, v.members[keys[k]]))
  }

  lemma SortedIsOrdered(members: seq<Property>)
    requires NamedOnce(members)
    ensures Sort(Names(members)) == Ordered(NameSet(members))
  {
    var names := Names(members);
    SortAscends(names);
    SortKeeps(members);
    SameNames(Sort(names), Ordered(NameSet(members)));
  }

  /** At every depth the members are sorted, so their order does not matter. */
  lemma {:induction false} StableIsOfTheValue(number: Text -> Text, v: JsTree)
    requires Distinct(v)
    ensures StableStringify(number, v) == StableText(number, Unordered(v))
    decreases v, 2
  {
    hide StableStringify, StableText, Unordered, Distinct;
    if v.JsArray? {
      ItemsAreOfTheValue(number, v);
    } else if v.JsObject? {
      PropertiesAreOfTheValue(number, v);
    } else {
      LeafIsOfTheValue(number, v);
    }
  }

  lemma LeafIsOfTheValue(number: Text -> Text, v: JsTree)
    requires !v.JsArray? && !v.JsObject?
    ensures StableStringify(number, v) == StableText(number, Unordered(v))
  {
    hide StringText, NumberText;
  }

  lemma ItemsAreOfTheValue(number: Text -> Text, v: JsTree)
    requires v.JsArray? && Distinct(v)
    ensures StableStringify(number, v) == StableText(number, Unordered(v))
    decreases v, 1
  {
    hide Joined, ItemsTexts, ValueTexts, Distinct;
    TextsOfItems(number, v);
  }

  lemma TextsOfItems(number: Text -> Text, v: JsTree)
    requires v.JsArray? && Distinct(v)
    ensures ItemsTexts(number, v.items) == ValueTexts(number, Unordered(v).items)
    decreases v, 0
  {
    hide StableStringify, StableText;
    forall k | 0 <= k < |v.items|
      ensures StableStringify(number, v.items[k]) == StableText(number, Unordered(v).items[k])
    {
      StableIsOfTheValue(number, v.items[k]);
    }
  }

  lemma PropertiesAreOfTheValue(number: Text -> Text, v: JsTree)
    requires v.JsObject? && Distinct(v)
    ensures StableStringify(number, v) == StableText(number, Unordered(v))
    decreases v, 1
  {
    hide StableStringify, StableText, Unordered, PropertyTexts, StableMembers, Joined, Distinct;
    assert Unordered(v).Obj? by { UnorderedObject(v); }
    TextsOfProperties(number, v);
    ObjectText(number, v);
    ValueText(number, Unordered(v));
  }

  lemma UnorderedObject(v: JsTree)
    requires v.JsObject?
    ensures Unordered(v).Obj?
  {
  }

  lemma ObjectText(number: Text -> Text, v: JsTree)
    requires v.JsObject?
    ensures StableStringify(number, v) == [OPEN_BRACE] + Joined(PropertyTexts(number, v)) + [CLOSE_BRACE]
  {
    hide Joined, PropertyTexts;
  }

  lemma ValueText(number: Text -> Text, v: Value)
    requires v.Obj?
    ensures StableText(number, v) == [OPEN_BRACE] + Joined(StableMembers(number, v)) + [CLOSE_BRACE]
  {
    hide Joined, StableMembers;
  }

  lemma TextsOfProperties(number: Text -> Text, v: JsTree)
    requires v.JsObject? && Distinct(v)
    ensures PropertyTexts(number, v) == StableMembers(number, Unordered(v))
    decreases v, 0
  {
    hide StableStringify, StableText, StringText, Ordered, Sort, Names, Find;
    SortKeeps(v.members);
    SortedIsOrdered(v.members);
    var keys, values := Sort(Names(v.members)), Unordered(v).members;
    assert values.Keys == NameSet(v.members);
    forall k | 0 <= k < |keys| ensures PropertyText(number, v, keys[k]) == StableText(number, values[keys[k]]) {
      assert keys[k] in keys;
      StableIsOfTheValue(number, v.members[Find(v.members, keys[k])].value);
    }
  }

  /** For safe integers and well-formed strings it is the canonical JSON of RFC 8785. */
  lemma {:induction false} StableIsCanonical(number: Text -> Text, v: Value)
    requires Plain(v) && Scalar(v)
    ensures StableText(number, v) == Print(v)
    decreases v, 1
  {
    hide StringText, Joined, Ordered, ScalarText;
    match v
    case Str(text) => ScalarIsQuoted(text);
    case Arr(items) =>
      forall k | 0 <= k < |items| ensures StableText(number, items[k]) == Print(items[k]) {
        StableIsCanonical(number, items[k]);
      }
      assert ValueTexts(number, items) == ItemTexts(items);
    case Obj(members) => StableMembersAreCanonical(number, v);
    case _ =>
  }

  lemma StableMembersAreCanonical(number: Text -> Text, v: Value)
    requires v.Obj? && Plain(v) && Scalar(v)
    ensures StableMembers(number, v) == MemberTexts(v)
    decreases v, 0
  {
    hide StableText, Print, StringText, Ordered, ScalarText, Quoted;
    var keys := Ordered(v.members.Keys);
    forall k | 0 <= k < |keys|
      ensures StringText(keys[k]) == Quoted(keys[k]) && StableText(number, v.members[keys[k]]) == Print(v.members[keys[k]])
    {
      assert keys[k] in v.members;
      ScalarIsQuoted(keys[k]);
      StableIsCanonical(number, v.members[keys[k]]);
    }
  }

  lemma {:induction false} ScalarIsWritten(t: Text)
    requires ScalarText(t)
    ensures WrittenUnits(t) == Escaped(t)
  {
    if t != [] {
      if IsHigh(t[0]) {
        ScalarIsWritten(t[2..]);
        assert t[1..][1..] == t[2..];
        assert Escape(t[0]) == [t[0]] && Escape(t[1]) == [t[1]];
        assert [t[0]] + ([t[1]] + Escaped(t[2..])) == [t[0], t[1]] + Escaped(t[2..]);
      } else {
        ScalarIsWritten(t[1..]);
      }
    }
  }

  lemma ScalarIsQuoted(t: Text)
    requires ScalarText(t)
    ensures StringText(t) == Quoted(t)
  {
    ScalarIsWritten(t);
  }

  // ---- Documents that differ in how they are written --------------------------------------------

  /**
   These trees differ in white space, in the order of members, in how characters are escaped
   and in nothing else.
   */
  ghost predicate Rearranged(s: Text, x: Tree, t: Text, y: Tree)
    decreases x, 0
  {
    match x
    case Word(_, _, word) => y.Word? && word == y.word
    case Number(from, _, _, to) => y.Number? && from <= to <= |s| && y.from <= y.to <= |t| && s[from..to] == t[y.from..y.to]
    case String(_, _, _) => y.String? && Meaning(s, x) == Meaning(t, y)
    case Array(_, elements, _) =>
      && y.Array? && |elements| == |y.elements|
      && forall k | 0 <= k < |elements| :: Rearranged(s, elements[k].tree, t, y.elements[k].tree)
    case Object(_, members, _) =>
      && y.Object?
      && (forall j | 0 <= j < |members| :: HasCounterpart(s, members, j, t, y.members))
      && (forall k | 0 <= k < |y.members| :: IsNamed(s, members, NameOf(t, y.members[k])))
  }

  ghost predicate IsNamed(s: Text, ms: seq<Member>, name: Text) { exists j | 0 <= j < |ms| :: NameOf(s, ms[j]) == name }

  ghost predicate HasCounterpart(s: Text, ms: seq<Member>, j: nat, t: Text, ns: seq<Member>)
    requires j < |ms|
    decreases ms, 2
  {
    exists k: nat :: Counterpart(s, ms, j, t, ns, k)
  }

  /** Member `k` of the one object is member `j` of the other. */
  ghost predicate Counterpart(s: Text, ms: seq<Member>, j: nat, t: Text, ns: seq<Member>, k: nat)
    requires j < |ms|
    decreases ms, 1
  {
    k < |ns| && NameOf(s, ms[j]) == NameOf(t, ns[k]) && Rearranged(s, ms[j].element.tree, t, ns[k].element.tree)
  }

  lemma {:induction false} MemberMeans(s: Text, ms: seq<Member>, j: nat, n: nat)
    requires j < n <= |ms| && NamesDiffer(s, ms)
    ensures NameOf(s, ms[j]) in Members(s, ms, n)
    ensures Members(s, ms, n)[NameOf(s, ms[j])] == ElementMeaning(s, ms[j].element)
    decreases n
  {
    hide NameOf, ElementMeaning;
    if j < n - 1 { MemberMeans(s, ms, j, n - 1); }
  }

  lemma {:induction false} MembersAreNamed(s: Text, ms: seq<Member>, n: nat, name: Text)
    requires n <= |ms| && name in Members(s, ms, n)
    ensures exists j | 0 <= j < n :: NameOf(s, ms[j]) == name
    decreases n
  {
    hide NameOf, ElementMeaning;
    if n > 0 && name != NameOf(s, ms[n - 1]) { MembersAreNamed(s, ms, n - 1, name); }
  }

  /** No object of the tree names a member twice. */
  ghost predicate NamesDifferInside(s: Text, x: Tree)
    decreases x
  {
    match x
    case Array(_, elements, _) => forall k | 0 <= k < |elements| :: NamesDifferInside(s, elements[k].tree)
    case Object(_, members, _) =>
      NamesDiffer(s, members) && forall k | 0 <= k < |members| :: NamesDifferInside(s, members[k].element.tree)
    case _ => true
  }

  lemma {:induction false} SpelledNamesDiffer(r: Rules, s: Text, x: Tree, depth: nat)
    requires Spells(r, s, x, depth)
    ensures NamesDifferInside(s, x)
    decreases x
  {
    hide SpellsUnits, SpellsWhole, SpellsFraction, SpellsExponent, NamesDiffer, StartsWith, Blank, SpellsName, Follows, MemberFollows;
    match x
    case Array(_, elements, _) =>
      forall k | 0 <= k < |elements| ensures NamesDifferInside(s, elements[k].tree) {
        assert SpellsElement(r, s, elements[k], depth + 1);
        SpelledNamesDiffer(r, s, elements[k].tree, depth + 1);
      }
    case Object(_, members, _) =>
      forall k | 0 <= k < |members| ensures NamesDifferInside(s, members[k].element.tree) {
        assert SpellsMember(r, s, members[k], depth + 1);
        assert SpellsElement(r, s, members[k].element, depth + 1);
        SpelledNamesDiffer(r, s, members[k].element.tree, depth + 1);
      }
    case _ =>
  }

  lemma {:induction false} RearrangedMeansTheSame(s: Text, x: Tree, t: Text, y: Tree)
    requires Rearranged(s, x, t, y) && NamesDifferInside(s, x) && NamesDifferInside(t, y)
    ensures Meaning(s, x) == Meaning(t, y)
    decreases x
  {
    hide NameOf, NamesDiffer, Members, Units, SpellsUnits, Convert;
    match x
    case Array(_, elements, _) =>
      forall k | 0 <= k < |elements| ensures Items(s, elements)[k] == Items(t, y.elements)[k] {
        RearrangedMeansTheSame(s, elements[k].tree, t, y.elements[k].tree);
      }
      assert Items(s, elements) == Items(t, y.elements);
    case Object(_, members, _) =>
      forall j, k: nat | 0 <= j < |members| && Counterpart(s, members, j, t, y.members, k)
        ensures ElementMeaning(s, members[j].element) == ElementMeaning(t, y.members[k].element)
      {
        RearrangedMeansTheSame(s, members[j].element.tree, t, y.members[k].element.tree);
      }
      SameMembers(s, members, t, y.members);
    case _ =>
  }

  lemma SameMembers(s: Text, ms: seq<Member>, t: Text, ns: seq<Member>)
    requires NamesDiffer(s, ms) && NamesDiffer(t, ns)
    requires forall j | 0 <= j < |ms| :: HasCounterpart(s, ms, j, t, ns)
    requires forall k | 0 <= k < |ns| :: IsNamed(s, ms, NameOf(t, ns[k]))
    requires forall j, k: nat | 0 <= j < |ms| && Counterpart(s, ms, j, t, ns, k) ::
               ElementMeaning(s, ms[j].element) == ElementMeaning(t, ns[k].element)
    ensures Members(s, ms, |ms|) == Members(t, ns, |ns|)
  {
    hide NameOf, NamesDiffer, ElementMeaning, Members, Rearranged;
    var a, b := Members(s, ms, |ms|), Members(t, ns, |ns|);
    forall name | name in a ensures name in b && a[name] == b[name] {
      MembersAreNamed(s, ms, |ms|, name);
      var j :| 0 <= j < |ms| && NameOf(s, ms[j]) == name;
      assert HasCounterpart(s, ms, j, t, ns);
      var k: nat :| Counterpart(s, ms, j, t, ns, k);
      MemberMeans(s, ms, j, |ms|);
      MemberMeans(t, ns, k, |ns|);
    }
    forall name | name in b ensures name in a {
      MembersAreNamed(t, ns, |ns|, name);
      var k :| 0 <= k < |ns| && NameOf(t, ns[k]) == name;
      assert IsNamed(s, ms, NameOf(t, ns[k]));
      var j :| 0 <= j < |ms| && NameOf(s, ms[j]) == NameOf(t, ns[k]);
      MemberMeans(s, ms, j, |ms|);
    }
  }
}
