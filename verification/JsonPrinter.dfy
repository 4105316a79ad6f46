/**
 The canonical JSON of RFC 8785 as the capsule digest prints it, for values whose
 numbers are safe integers, and its agreement with the strict parser.
 */
module JsonPrinter {
  import opened JsonValues
  import opened JsonParser
  import opened Bytes

  // ---- What is printed --------------------------------------------------------------

  /** Every surrogate is one of a pair. */
  predicate ScalarText(t: Text) {
    t == [] || (if IsHigh(t[0]) then |t| > 1 && IsLow(t[1]) && ScalarText(t[2..]) else !IsLow(t[0]) && ScalarText(t[1..]))
  }

  lemma {:induction false} AsciiIsScalar(t: Text)
    requires forall k | 0 <= k < |t| :: t[k] < 0x80
    ensures ScalarText(t)
  {
    if t != [] { AsciiIsScalar(t[1..]); }
  }

  /** The order of sections 3.2.3 of RFC 8785: unit by unit, a proper prefix first. */
  predicate Before(a: Text, b: Text) {
    b != [] && (a == [] || a[0] < b[0] || (a[0] == b[0] && Before(a[1..], b[1..])))
  }

  ghost predicate Ascending(keys: seq<Text>) { forall j, k | 0 <= j < k < |keys| :: Before(keys[j], keys[k]) }

  /** Numbers are safe integers. */
  ghost predicate Plain(v: Value) {
    match v
    case Num(number) => number.Integer? && -MAX_SAFE_INTEGER <= number.n <= MAX_SAFE_INTEGER
    case Arr(items) => forall k | 0 <= k < |items| :: Plain(items[k])
    case Obj(members) => forall name | name in members :: Plain(members[name])
    case _ => true
  }

  /** No string or name has an unpaired surrogate. */
  ghost predicate Scalar(v: Value) {
    match v
    case Str(text) => ScalarText(text)
    case Arr(items) => forall k | 0 <= k < |items| :: Scalar(items[k])
    case Obj(members) => forall name | name in members :: ScalarText(name) && Scalar(members[name])
    case _ => true
  }

  function HexLetter(n: nat): Unit
    requires n < 16
  {
    if n < 10 then 0x30 + n else 0x57 + n
  }

  /** One unit as `JSON.stringify` writes it. */
  function Escape(u: Unit): (t: Text)
    ensures t != []
  {
    if u == QUOTE || u == BACKSLASH then [BACKSLASH, u]
    else if u == 0x08 then [BACKSLASH, 0x62]
    else if u == 0x09 then [BACKSLASH, 0x74]
    else if u == 0x0a then [BACKSLASH, 0x6e]
    else if u == 0x0c then [BACKSLASH, 0x66]
    else if u == 0x0d then [BACKSLASH, 0x72]
    else if u < 0x20 then [BACKSLASH, SMALL_U, ZERO, ZERO, HexLetter(u / 16), HexLetter(u % 16)]
    else [u]
  }

  function Escaped(t: Text): Text {
    if t == [] then [] else Escape(t[0]) + Escaped(t[1..])
  }

  function Quoted(t: Text): Text { [QUOTE] + Escaped(t) + [QUOTE] }

  function Joined(texts: seq<Text>): Text {
    if texts == [] then [] else if |texts| == 1 then texts[0] else texts[0] + [COMMA] + Joined(texts[1..])
  }

  // ---- Names in order ------------------------------------------------------------------

  lemma {:induction false} BeforeTotal(a: Text, b: Text)
    ensures Before(a, b) || a == b || Before(b, a)
    ensures !(Before(a, b) && Before(b, a)) && !Before(a, a)
  {
    if a != [] {
      BeforeTotal(a[1..], a[1..]);
      if b != [] {
        BeforeTotal(a[1..], b[1..]);
        if a[0] == b[0] && a[1..] == b[1..] { assert a == [a[0]] + a[1..] == b; }
      }
    }
  }

  lemma {:induction false} BeforeTransitive(a: Text, b: Text, c: Text)
    requires Before(a, b) && Before(b, c)
    ensures Before(a, c)
  {
    if a != [] && a[0] == b[0] == c[0] { BeforeTransitive(a[1..], b[1..], c[1..]); }
  }

  /** Where a new name belongs among sorted ones. */
  function Insert(keys: seq<Text>, key: Text): (more: seq<Text>)
    ensures multiset(more) == multiset(keys) + multiset{key}
  {
    if keys == [] || Before(key, keys[0]) then [key] + keys
    else
      assert keys == [keys[0]] + keys[1..];
      [keys[0]] + Insert(keys[1..], key)
  }

  /** `Array.prototype.sort` on strings. */
  function Sort(keys: seq<Text>): (sorted: seq<Text>)
    ensures multiset(sorted) == multiset(keys)
  {
    if keys == [] then [] else
      assert keys == [keys[0]] + keys[1..];
      Insert(Sort(keys[1..]), keys[0])
  }

  lemma {:induction false} InsertAscends(keys: seq<Text>, key: Text)
    requires Ascending(keys) && key !in keys
    ensures Ascending(Insert(keys, key))
  {
    var more := Insert(keys, key);
    if keys != [] {
      BeforeTotal(key, keys[0]);
      if Before(key, keys[0]) {
        forall j, k | 0 <= j < k < |more| ensures Before(more[j], more[k]) {
          if j == 0 && k > 1 { BeforeTransitive(key, keys[0], keys[k - 1]); }
        }
      } else {
        var rest := Insert(keys[1..], key);
        InsertAscends(keys[1..], key);
        forall j, k | 0 <= j < k < |more| ensures Before(more[j], more[k]) {
          if j == 0 {
            assert rest[k - 1] in multiset(rest);
            assert rest[k - 1] == key || rest[k - 1] in keys[1..];
          }
        }
      }
    }
  }

  lemma {:induction false} SortAscends(keys: seq<Text>)
    requires forall j, k | 0 <= j < k < |keys| :: keys[j] != keys[k]
    ensures Ascending(Sort(keys))
  {
    if keys != [] {
      SortAscends(keys[1..]);
      var rest := Sort(keys[1..]);
      assert forall t :: t in rest <==> t in multiset(rest);
      InsertAscends(rest, keys[0]);
    }
  }

  /** The first name in order comes before every other. */
  lemma FirstIsLeast(keys: seq<Text>, key: Text)
    requires Ascending(keys) && key in keys
    ensures key == keys[0] || Before(keys[0], key)
  {
    var k :| 0 <= k < |keys| && keys[k] == key;
    assert k == 0 || Before(keys[0], keys[k]);
  }

  lemma FirstIsShared(a: seq<Text>, b: seq<Text>)
    requires a != [] && b != [] && Ascending(a) && Ascending(b) && a[0] in b && b[0] in a
    ensures a[0] == b[0]
  {
    hide Ascending, Before;
    FirstIsLeast(a, b[0]);
    FirstIsLeast(b, a[0]);
    BeforeTotal(a[0], b[0]);
  }

  lemma RestAscends(keys: seq<Text>)
    requires keys != [] && Ascending(keys)
    ensures Ascending(keys[1..])
  {
    hide Before;
    var rest := keys[1..];
    forall j, k | 0 <= j < k < |rest| ensures Before(rest[j], rest[k]) {
      assert rest[j] == keys[j + 1] && rest[k] == keys[k + 1];
    }
  }

  lemma RestsAreShared(a: seq<Text>, b: seq<Text>)
    requires a != [] && b != [] && a[0] == b[0] && multiset(a) == multiset(b)
    ensures multiset(a[1..]) == multiset(b[1..])
  {
    assert a == [a[0]] + a[1..] && b == [b[0]] + b[1..];
    assert multiset(a[1..]) == multiset(a) - multiset{a[0]};
  }

  /** There is one way to put names in order. */
  lemma {:induction false} AscendingIsUnique(a: seq<Text>, b: seq<Text>)
    requires Ascending(a) && Ascending(b) && multiset(a) == multiset(b)
    ensures a == b
  {
    hide Before, Ascending;
    assert |a| == |b| by { assert |multiset(a)| == |multiset(b)|; }
    if a != [] {
      assert a[0] in multiset(b) && b[0] in multiset(a);
      FirstIsShared(a, b);
      RestAscends(a);
      RestAscends(b);
      RestsAreShared(a, b);
      AscendingIsUnique(a[1..], b[1..]);
      assert a == [a[0]] + a[1..];
    }
  }

  /** The names of an object in the order they are printed. */
  ghost function Ordered(names: set<Text>): (keys: seq<Text>)
    ensures Ascending(keys) && multiset(keys) == multiset(names)
    ensures forall t :: t in keys <==> t in names
  {
    if names == {} then [] else
      var name :| name in names;
      var rest := Ordered(names - {name});
      InsertAscends(rest, name);
      var keys := Insert(rest, name);
      assert forall t :: t in keys <==> t in multiset(keys);
      keys
  }

  lemma SameNames(a: seq<Text>, b: seq<Text>)
    requires Ascending(a) && Ascending(b) && forall t :: t in a <==> t in b
    ensures a == b
  {
    NoneTwice(a);
    NoneTwice(b);
    forall t ensures multiset(a)[t] == multiset(b)[t] {
      assert t in a <==> t in multiset(a);
      assert t in b <==> t in multiset(b);
    }
    assert multiset(a) == multiset(b);
    AscendingIsUnique(a, b);
  }

  lemma {:induction false} NoneTwice(a: seq<Text>)
    requires Ascending(a)
    ensures forall t :: multiset(a)[t] <= 1
  {
    if a != [] {
      NoneTwice(a[1..]);
      assert a == [a[0]] + a[1..];
      if a[0] in a[1..] {
        var k :| 0 <= k < |a[1..]| && a[1..][k] == a[0];
        assert Before(a[0], a[k + 1]);
        BeforeTotal(a[0], a[0]);
      }
      assert a[0] !in multiset(a[1..]);
    }
  }

  lemma OrderedIs(names: set<Text>, list: seq<Text>)
    requires Ascending(list) && names == set t | t in list
    ensures Ordered(names) == list
  {
    SameNames(Ordered(names), list);
  }

  // ---- Canonical text ----------------------------------------------------------------------

  ghost function Print(v: Value): Text
    requires Plain(v)
    decreases v
  {
    match v
    case Null => NULL
    case Bool(b) => if b then TRUE else FALSE
    case Num(number) => IntText(number.n)
    case Str(text) => Quoted(text)
    case Arr(items) => [OPEN_BRACKET] + Joined(ItemTexts(items)) + [CLOSE_BRACKET]
    case Obj(members) => [OPEN_BRACE] + Joined(MemberTexts(v)) + [CLOSE_BRACE]
  }

  // ---- Printing ------------------------------------------------------------------------------

  method AssertUnicodeScalarString(value: Text) returns (ok: bool)
    ensures ok == ScalarText(value)
  {
    var index := 0;
    while index < |value|
      invariant index <= |value| && ScalarText(value[index..]) == ScalarText(value)
    {
      var code := value[index];
      if IsHigh(code) {
        if !(index + 1 < |value| && IsLow(value[index + 1])) { return false; }
        assert value[index..][2..] == value[index + 2..];
        index := index + 1;
      } else {
        if IsLow(code) { return false; }
        assert value[index..][1..] == value[index + 1..];
      }
      index := index + 1;
    }
    return true;
  }

  /** `Object.keys` in some order, then `sort`. */
  method SortedKeys(members: map<Text, Value>) returns (keys: seq<Text>)
    ensures keys == Ordered(members.Keys)
  {
    var rest := members.Keys;
    keys := [];
    while rest != {}
      invariant forall j, k | 0 <= j < k < |keys| :: keys[j] != keys[k]
      invariant rest <= members.Keys && multiset(keys) == multiset(members.Keys - rest)
      decreases rest
    {
      var name :| name in rest;
      assert name !in multiset(keys);
      assert members.Keys - (rest - {name}) == members.Keys - rest + {name};
      keys, rest := keys + [name], rest - {name};
    }
    SortAscends(keys);
    keys := Sort(keys);
    assert members.Keys - rest == members.Keys;
    AscendingIsUnique(keys, Ordered(members.Keys));
  }

  /** What `serialize` returns; it throws when this is nothing. */
  ghost function Serialized(v: Value): Option<Text>
    requires Plain(v)
  {
    if Scalar(v) then Some(Print(v)) else None
  }

  method Serialize(current: Value) returns (text: Option<Text>)
    requires Plain(current)
    ensures text == Serialized(current)
    decreases current, 1
  {
    match current
    case Null => return Some(NULL);
    case Bool(b) => return Some(if b then TRUE else FALSE);
    case Num(number) => return Some(IntText(number.n));
    case Str(value) =>
      var ok := AssertUnicodeScalarString(value);
      return if ok then Some(Quoted(value)) else None;
    case Arr(elements) =>
      var items := SerializeItems(elements);
      return if items.Some? then Some([OPEN_BRACKET] + Joined(items.value) + [CLOSE_BRACKET]) else None;
    case Obj(_) =>
      var members := SerializeMembers(current);
      return if members.Some? then Some([OPEN_BRACE] + Joined(members.value) + [CLOSE_BRACE]) else None;
  }

  ghost function ItemTexts(items: seq<Value>): (texts: seq<Text>)
    requires forall k | 0 <= k < |items| :: Plain(items[k])
    ensures |texts| == |items|
    decreases items
  {
    seq(|items|, k requires 0 <= k < |items| => Print(items[k]))
  }

  /** The members of an object, in order. */
  ghost function MemberTexts(v: Value): (texts: seq<Text>)
    requires Plain(v) && v.Obj?
    ensures |texts| == |Ordered(v.members.Keys)|
    decreases v, 0
  {
    var keys := Ordered(v.members.Keys);
    seq(|keys|, k requires 0 <= k < |keys| => Quoted(keys[k]) + [COLON] + Print(v.members[keys[k]]))
  }

  method SerializeItems(elements: seq<Value>) returns (items: Option<seq<Text>>)
    requires forall k | 0 <= k < |elements| :: Plain(elements[k])
    ensures items == if forall k | 0 <= k < |elements| :: Scalar(elements[k]) then Some(ItemTexts(elements)) else None
    decreases elements, 0
  {
    var texts: seq<Text> := [];
    for index := 0 to |elements|
      invariant forall k | 0 <= k < index :: Scalar(elements[k])
      invariant texts == ItemTexts(elements)[..index]
    {
      var text := Serialize(elements[index]);
      if text.None? { return None; }
      texts := texts + [text.value];
    }
    assert ItemTexts(elements)[..|elements|] == ItemTexts(elements);
    return Some(texts);
  }

  method SerializeMembers(current: Value) returns (members: Option<seq<Text>>)
    requires Plain(current) && current.Obj?
    ensures members == if Scalar(current) then Some(MemberTexts(current)) else None
    decreases current, 0
  {
    hide Print, Ordered, Escaped, ScalarText, Insert, Sort;
    var keys := SortedKeys(current.members);
    var texts: seq<Text> := [];
    for index := 0 to |keys|
      invariant forall k | 0 <= k < index :: ScalarText(keys[k]) && Scalar(current.members[keys[k]])
      invariant texts == MemberTexts(current)[..index]
    {
      var ok := AssertUnicodeScalarString(keys[index]);
      if !ok { return None; }
      var text := Serialize(current.members[keys[index]]);
      if text.None? { return None; }
      texts := texts + [Quoted(keys[index]) + [COLON] + text.value];
    }
    assert MemberTexts(current)[..|keys|] == MemberTexts(current);
    return Some(texts);
  }
}
