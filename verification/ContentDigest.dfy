/**
 The canonical content digest of an asset's entries. Entry names are the bytes of their
 UTF-8 encoding; the digest is a function of which content each name has.
 */
module ContentDigest {
  import opened Bytes
  import opened JsonValues
  import opened JsonParser
  import opened JsonGrammar
  import opened JsonPrinter
  import opened StableJson
  import JsonRoundTrip

  /**
   The host's part: `sha256` in lower-case hexadecimal, the UTF-8 encoding of a text, `JSON.parse`
   on the bytes of an entry, and `JSON.stringify` of a number that is not a safe integer.
   */
  datatype Host = Host(sha256: Text -> Text, encode: Text -> Text, parse: Text -> Option<JsValue>, number: Text -> Text)

  /** `JSON.parse` reads what the grammar of JSON spells as what it means. */
  ghost predicate ReadsJson(h: Host) {
    forall r, s, e | SpellsDocument(r, s, e) ::
      h.parse(h.encode(s)).Some? && Unordered(h.parse(h.encode(s)).value) == ElementMeaning(s, e)
  }

  /** What a text means under some limits, if it is JSON. */
  ghost function Meant(t: Text): Option<Value> {
    if exists v :: Means(t, v) then
      var v :| Means(t, v);
      Some(v)
    else None
  }

  ghost predicate Means(t: Text, v: Value) { exists r, e :: SpellsDocument(r, t, e) && ElementMeaning(t, e) == v }

  /** A host that reads JSON: there is one. */
  lemma ReadingHost(sha256: Text -> Text) returns (h: Host)
    ensures ReadsJson(h) && h.sha256 == sha256
  {
    hide InOrder, Unordered, SpellsDocument, ElementMeaning;
    h := Host(
      sha256, (t: Text) => t, (t: Text) => if Meant(t).None? then None else Some(InOrder(Meant(t).value)), (t: Text) => t);
    forall r, s, e | SpellsDocument(r, s, e)
      ensures h.parse(h.encode(s)).Some? && Unordered(h.parse(h.encode(s)).value) == ElementMeaning(s, e)
    {
      assert Means(s, ElementMeaning(s, e));
      var v := Meant(s).value;
      var q, d :| SpellsDocument(q, s, d) && ElementMeaning(s, d) == v;
      JsonRoundTrip.MeaningIsUnique(r, q, s, e, d);
      InOrderIsTheValue(v);
    }
  }

  type Entries = map<Text, Text>

  const MANIFEST_NAME: Text := Ascii("kdna.json")
  const SIGNATURE_NAME: Text := Ascii("signature.kdsig")
  const RECEIPT_NAME: Text := Ascii("build-receipt.json")
  const FINDER_NAME: Text := Ascii(".DS_Store")
  const REPORTS: Text := Ascii("reports/")
  const JSON_ENDING: Text := Ascii(".json")

  const ASSET_DIGEST: Text := Ascii("asset_digest")
  const CONTAINER_SHA256: Text := Ascii("container_sha256")
  const CONTENT_DIGEST: Text := Ascii("content_digest")
  const SOURCE: Text := Ascii("_source")
  const AUTHORING: Text := Ascii("authoring")

  const DIGEST_PREFIX: Text := Ascii("sha256:")
  const NEWLINE: Unit := 0x0a

  // ---- Which entries, and which content ---------------------------------------------------

  predicate IsExcluded(name: Text) {
    name == FINDER_NAME || name == RECEIPT_NAME || name == SIGNATURE_NAME || REPORTS <= name
  }

  function Lower(u: Unit): Unit { if 0x41 <= u <= 0x5a then u + 0x20 else u }

  predicate IsJson(name: Text) {
    |name| >= |JSON_ENDING|
    && forall k | 0 <= k < |JSON_ENDING| :: Lower(name[|name| - |JSON_ENDING| + k]) == JSON_ENDING[k]
  }

  /** The own members that a spread copies. */
  function Spread(v: JsTree): (members: seq<Property>)
    ensures Distinct(v) ==> Distinct(JsObject(members))
  {
    match v
    case JsObject(members) => members
    case JsArray(items) =>
      NatTextsDiffer();
      seq(|items|, k requires 0 <= k < |items| => Property(NatText(k), items[k]))
    case JsString(text) =>
      NatTextsDiffer();
      seq(|text|, k requires 0 <= k < |text| => Property(NatText(k), JsString([text[k]])))
    case _ => []
  }

  lemma NatTextsDiffer()
    ensures forall j: nat, k: nat | NatText(j) == NatText(k) :: j == k
  {
    forall j: nat, k: nat | NatText(j) == NatText(k) ensures j == k {
      assert DigitsValue(NatText(j)) == DigitsValue(NatText(k));
    }
  }

  /** `delete` of these names. */
  function Without(members: seq<Property>, names: set<Text>): (kept: seq<Property>)
    ensures forall m | m in kept :: m in members && m.name !in names
    ensures forall m | m in members && m.name !in names :: m in kept
    ensures NamedOnce(members) ==> NamedOnce(kept)
  {
    if members == [] then []
    else
      var kept := Without(members[1..], names);
      assert members == [members[0]] + members[1..];
      assert NamedOnce(members) ==> forall m | m in kept :: m.name != members[0].name;
      if members[0].name in names then kept else [members[0]] + kept
  }

  /** An object or an array, in a value of either kind. */
  predicate IsRecord(v: JsTree) { v.JsObject? || v.JsArray? }

  const TAKEN: set<Text> := {ASSET_DIGEST, CONTAINER_SHA256, CONTENT_DIGEST, SOURCE}

  /** The manifest without what may only be known after the digest. */
  function ManifestForDigest(manifest: JsTree): JsTree {
    var copy := Without(Spread(manifest), TAKEN);
    if AUTHORING in NameSet(copy) && IsRecord(copy[Find(copy, AUTHORING)].value) then
      var at := Find(copy, AUTHORING);
      JsObject(copy[at := Property(AUTHORING, JsObject(Without(Spread(copy[at].value), {CONTENT_DIGEST})))])
    else JsObject(copy)
  }

  /** The value of an entry that is hashed. */
  function Counted(name: Text, v: JsTree): JsTree { if name == MANIFEST_NAME then ManifestForDigest(v) else v }

  /** What is hashed for an entry; nothing when its JSON cannot be parsed. */
  function CanonicalContent(h: Host, name: Text, content: Text): Option<Text> {
    if !IsJson(name) then Some(content)
    else
      var parsed := h.parse(content);
      if parsed.None? then None else Some(h.encode(StableStringify(h.number, Counted(name, parsed.value))))
  }

  /** The names that count. */
  function Included(entries: Entries): set<Text> { set name | name in entries && !IsExcluded(name) }

  predicate Readable(h: Host, entries: Entries) {
    forall name | name in Included(entries) :: CanonicalContent(h, name, entries[name]).Some?
  }

  /** The canonical content of each name that counts. */
  function Canonical(h: Host, entries: Entries): Entries
    requires Readable(h, entries)
  {
    map name | name in Included(entries) :: CanonicalContent(h, name, entries[name]).value
  }

  // ---- The digest ----------------------------------------------------------------------------

  function Part(h: Host, name: Text, content: Text): Text { name + [COLON] + h.sha256(content) }

  ghost function Parts(h: Host, contents: Entries): (parts: seq<Text>)
    ensures |parts| == |Ordered(contents.Keys)|
  {
    var names := Ordered(contents.Keys);
    seq(|names|, k requires 0 <= k < |names| => Part(h, names[k], contents[names[k]]))
  }

  function Lines(parts: seq<Text>): Text {
    if parts == [] then [] else if |parts| == 1 then parts[0] else parts[0] + [NEWLINE] + Lines(parts[1..])
  }

  ghost function DigestOf(h: Host, contents: Entries): Text { DIGEST_PREFIX + h.sha256(Lines(Parts(h, contents))) }

  /** The content digest; nothing when it throws. */
  ghost function Digest(h: Host, entries: Entries): Option<Text> {
    if Readable(h, entries) then Some(DigestOf(h, Canonical(h, entries))) else None
  }

  /** What the loop collects from these names on. */
  function Collected(h: Host, names: seq<Text>, buffers: Entries): Option<seq<Text>>
    requires forall name | name in names :: name in buffers
  {
    if names == [] then Some([])
    else
      assert forall name | name in names[1..] :: name in names;
      var rest := Collected(h, names[1..], buffers);
      if IsExcluded(names[0]) then rest
      else
        var content := CanonicalContent(h, names[0], buffers[names[0]]);
        if content.None? || rest.None? then None else Some([Part(h, names[0], content.value)] + rest.value)
  }

  /** `names` are the entries in the order in which they were put in. */
  method ContentDigestFromEntryBuffers(h: Host, names: seq<Text>, buffers: Entries) returns (digest: Option<Text>)
    requires (forall j, k | 0 <= j < k < |names| :: names[j] != names[k]) && (set name | name in names) == buffers.Keys
    ensures digest == Digest(h, buffers)
  {
    hide CanonicalContent, IsExcluded, Part, Readable, Canonical, Ordered, Sort, Insert, Lines, Digest;
    var sorted := Sort(names);
    SortAscends(names);
    SortedNames(names);
    DigestOfCollected(h, sorted, buffers);
    var parts: seq<Text> := [];
    assert sorted[0..] == sorted;
    assert Collected(h, sorted, buffers).Some? ==>
        [] + Collected(h, sorted, buffers).value == Collected(h, sorted, buffers).value;
    for i := 0 to |sorted|
      invariant Collected(h, sorted, buffers)
             == (var rest := Collected(h, sorted[i..], buffers); if rest.None? then None else Some(parts + rest.value))
    {
      var entryName := sorted[i];
      assert sorted[i..][1..] == sorted[i + 1..];
      if IsExcluded(entryName) { continue; }
      var digestBuf := CanonicalContent(h, entryName, buffers[entryName]);
      if digestBuf.None? { return None; }
      ghost var rest := Collected(h, sorted[i + 1..], buffers);
      var part := Part(h, entryName, digestBuf.value);
      assert rest.Some? ==> parts + ([part] + rest.value) == parts + [part] + rest.value;
      parts := parts + [part];
    }
    assert sorted[|sorted|..] == [] && parts + [] == parts;
    return Some(DIGEST_PREFIX + h.sha256(Lines(parts)));
  }

  lemma DigestOfCollected(h: Host, sorted: seq<Text>, buffers: Entries)
    requires Ascending(sorted) && forall t :: t in sorted <==> t in buffers
    ensures var parts := Collected(h, sorted, buffers);
            Digest(h, buffers) == if parts.None? then None else Some(DIGEST_PREFIX + h.sha256(Lines(parts.value)))
  {
    hide CanonicalContent, IsExcluded, Part, Readable, Canonical, Ordered, Lines;
    CollectedIsThose(h, sorted, buffers);
  }

  lemma SortedNames(names: seq<Text>)
    ensures forall t :: t in Sort(names) <==> t in names
  {
    assert forall t :: t in Sort(names) <==> t in multiset(Sort(names));
    assert forall t :: t in names <==> t in multiset(names);
  }

  /** The names that count, in the order of the list. */
  function Counting(names: seq<Text>): (kept: seq<Text>)
    ensures forall t :: t in kept <==> t in names && !IsExcluded(t)
  {
    if names == [] then []
    else
      assert names == [names[0]] + names[1..];
      if IsExcluded(names[0]) then Counting(names[1..]) else [names[0]] + Counting(names[1..])
  }

  lemma {:induction false} CountingAscends(names: seq<Text>)
    requires Ascending(names)
    ensures Ascending(Counting(names))
  {
    hide IsExcluded;
    if names != [] {
      CountingAscends(names[1..]);
      var rest := Counting(names[1..]);
      forall k | 0 <= k < |rest| ensures Before(names[0], rest[k]) {
        assert rest[k] in names[1..];
      }
    }
  }

  lemma {:induction false} CollectedParts(h: Host, names: seq<Text>, buffers: Entries)
    requires forall name | name in names :: name in buffers
    ensures Collected(h, names, buffers).Some? <==>
              forall name | name in Counting(names) :: CanonicalContent(h, name, buffers[name]).Some?
    ensures Collected(h, names, buffers).Some? ==>
              && |Collected(h, names, buffers).value| == |Counting(names)|
              && forall k | 0 <= k < |Counting(names)| ::
                   Collected(h, names, buffers).value[k]
                   == Part(h, Counting(names)[k], CanonicalContent(h, Counting(names)[k], buffers[Counting(names)[k]]).value)
  {
    hide IsExcluded, CanonicalContent, Part;
    if names != [] {
      assert forall name | name in names[1..] :: name in names;
      CollectedParts(h, names[1..], buffers);
    }
  }

  lemma CollectedIsThose(h: Host, sorted: seq<Text>, buffers: Entries)
    requires Ascending(sorted) && forall t :: t in sorted <==> t in buffers
    ensures Collected(h, sorted, buffers)
         == if Readable(h, buffers) then Some(Parts(h, Canonical(h, buffers))) else None
  {
    hide CanonicalContent, IsExcluded, Part, Collected;
    CollectedParts(h, sorted, buffers);
    CountingAscends(sorted);
    assert forall t :: t in Counting(sorted) <==> t in Included(buffers);
    if Readable(h, buffers) {
      SameNames(Counting(sorted), Ordered(Canonical(h, buffers).Keys));
      assert Collected(h, sorted, buffers).value == Parts(h, Canonical(h, buffers));
    }
  }

  // ---- What the digest does not depend on ----------------------------------------------------------

  /** These entries count the same: the same names, with the same canonical content. */
  ghost predicate SameContent(h: Host, a: Entries, b: Entries) {
    && Included(a) == Included(b)
    && forall name | name in Included(a) :: CanonicalContent(h, name, a[name]) == CanonicalContent(h, name, b[name])
  }

  lemma SameContentSameDigest(h: Host, a: Entries, b: Entries)
    requires SameContent(h, a, b)
    ensures Digest(h, a) == Digest(h, b)
  {
    hide CanonicalContent, DigestOf;
    if Readable(h, a) { assert Canonical(h, a) == Canonical(h, b); }
  }

  /** An entry that does not count can be added, replaced or taken away. */
  lemma ExcludedEntriesDoNotCount(h: Host, entries: Entries, name: Text, content: Text)
    requires IsExcluded(name)
    ensures Digest(h, entries[name := content]) == Digest(h, entries)
    ensures Digest(h, entries - {name}) == Digest(h, entries)
  {
    hide CanonicalContent, IsExcluded, Digest;
    assert Included(entries[name := content]) == Included(entries) == Included(entries - {name});
    SameContentSameDigest(h, entries[name := content], entries);
    SameContentSameDigest(h, entries - {name}, entries);
  }

  // ---- What JSON entries count for -------------------------------------------------------------------

  /** The members of a value without their order. */
  function SpreadValue(v: Value): map<Text, Value> {
    match v
    case Obj(members) => members
    case Arr(items) => Indexed(items)
    case Str(text) => Indexed(seq(|text|, k requires 0 <= k < |text| => Str([text[k]])))
    case _ => map[]
  }

  /** The items of a list under their indices. */
  function Indexed(items: seq<Value>): map<Text, Value> {
    if items == [] then map[]
    else
      var last := |items| - 1;
      Indexed(items[..last])[NatText(last) := items[last]]
  }

  predicate IsObject(v: Value) { v.Obj? || v.Arr? }

  /** The value of a manifest that counts. */
  function ManifestValue(manifest: Value): Value {
    var copy := SpreadValue(manifest) - TAKEN;
    if AUTHORING in copy && IsObject(copy[AUTHORING])
    then Obj(copy[AUTHORING := Obj(SpreadValue(copy[AUTHORING]) - {CONTENT_DIGEST})])
    else Obj(copy)
  }

  function CountedValue(name: Text, v: Value): Value { if name == MANIFEST_NAME then ManifestValue(v) else v }

  /** The members of an object, without their order. */
  function AsMap(members: seq<Property>): map<Text, Value> { Unordered(JsObject(members)).members }

  /** These are the members, each once and with its value. */
  lemma AsMapIs(members: seq<Property>, values: map<Text, Value>)
    requires NamedOnce(members) && NameSet(members) == values.Keys
    requires forall k | 0 <= k < |members| :: members[k].name in values && values[members[k].name] == Unordered(members[k].value)
    ensures AsMap(members) == values
  {
    hide Find;
    forall name | name in values ensures name in AsMap(members) && AsMap(members)[name] == values[name] {
      assert name in NameSet(members);
      var k := Find(members, name);
      assert members[k].name == name;
    }
  }

  lemma MemberOfMap(members: seq<Property>, k: nat)
    requires NamedOnce(members) && k < |members|
    ensures members[k].name in AsMap(members) && AsMap(members)[members[k].name] == Unordered(members[k].value)
    ensures AsMap(members).Keys == NameSet(members) && Find(members, members[k].name) == k
  {
    hide Find;
    assert members[k].name in NameSet(members);
  }

  lemma KeysOfMap(members: seq<Property>)
    ensures AsMap(members).Keys == NameSet(members)
  {
    hide Find;
  }

  lemma SpreadIsOfTheValue(v: JsTree)
    requires Distinct(v)
    ensures AsMap(Spread(v)) == SpreadValue(Unordered(v))
  {
    match v
    case JsObject(members) => assert AsMap(members) == Unordered(v).members;
    case JsArray(items) => ArraySpreads(v);
    case JsString(text) => StringSpreads(v);
    case _ => assert AsMap([]) == map[];
  }

  lemma {:induction false} IndexedIs(items: seq<Value>)
    ensures forall k | 0 <= k < |items| :: NatText(k) in Indexed(items) && Indexed(items)[NatText(k)] == items[k]
    ensures forall name | name in Indexed(items) :: exists k | 0 <= k < |items| :: name == NatText(k)
  {
    hide NatText;
    NatTextsDiffer();
    if items != [] {
      var last := |items| - 1;
      IndexedIs(items[..last]);
      forall k | 0 <= k < |items| ensures NatText(k) in Indexed(items) && Indexed(items)[NatText(k)] == items[k] {
        if k < last { assert items[..last][k] == items[k] && NatText(k) != NatText(last); }
      }
    }
  }

  /** Members under their indices are those of the list. */
  lemma {:induction false} IndexedMembers(members: seq<Property>, items: seq<Value>)
    requires NamedOnce(members) && |members| == |items|
    requires forall k | 0 <= k < |items| :: members[k].name == NatText(k) && Unordered(members[k].value) == items[k]
    ensures AsMap(members) == Indexed(items)
  {
    hide NatText, AsMap, Indexed, Unordered;
    IndexedIs(items);
    forall name | name in Indexed(items) ensures name in NameSet(members) {
      var k :| 0 <= k < |items| && name == NatText(k);
      assert members[k].name == name;
    }
    forall k | 0 <= k < |members| ensures members[k].name in Indexed(items) {
      assert NatText(k) in Indexed(items);
    }
    AsMapIs(members, Indexed(items));
  }

  lemma ArraySpreads(v: JsTree)
    requires v.JsArray? && Distinct(v)
    ensures AsMap(Spread(v)) == SpreadValue(Unordered(v))
  {
    hide NatText, AsMap, Indexed;
    assert Distinct(JsObject(Spread(v)));
    IndexedMembers(Spread(v), Unordered(v).items);
  }

  lemma StringSpreads(v: JsTree)
    requires v.JsString?
    ensures AsMap(Spread(v)) == SpreadValue(Unordered(v))
  {
    hide NatText, AsMap, Indexed;
    assert Distinct(JsObject(Spread(v)));
    IndexedMembers(Spread(v), seq(|v.text|, k requires 0 <= k < |v.text| => Str([v.text[k]])));
  }

  lemma WithoutIsOfTheValue(members: seq<Property>, names: set<Text>)
    requires NamedOnce(members)
    ensures AsMap(Without(members, names)) == AsMap(members) - names
  {
    hide AsMap, Without;
    var kept, values := Without(members, names), AsMap(members) - names;
    KeysOfMap(members);
    forall k | 0 <= k < |kept| ensures kept[k].name in values && values[kept[k].name] == Unordered(kept[k].value) {
      assert kept[k] in kept;
      var j :| 0 <= j < |members| && members[j] == kept[k];
      MemberOfMap(members, j);
    }
    forall name | name in values ensures name in NameSet(kept) {
      assert name in NameSet(members);
      var j :| 0 <= j < |members| && members[j].name == name;
      assert members[j] in kept;
      var k :| 0 <= k < |kept| && kept[k] == members[j];
    }
    AsMapIs(kept, values);
  }

  lemma UpdateIsOfTheValue(members: seq<Property>, at: nat, v: JsTree)
    requires NamedOnce(members) && at < |members|
    ensures var more := members[at := Property(members[at].name, v)];
            NamedOnce(more) && AsMap(more) == AsMap(members)[members[at].name := Unordered(v)]
  {
    hide AsMap;
    var more := members[at := Property(members[at].name, v)];
    var values := AsMap(members)[members[at].name := Unordered(v)];
    KeysOfMap(members);
    forall k | 0 <= k < |more| ensures more[k].name in values && values[more[k].name] == Unordered(more[k].value) {
      MemberOfMap(members, k);
    }
    forall name ensures name in NameSet(more) <==> name in NameSet(members) {
      if name in NameSet(members) {
        var k :| 0 <= k < |members| && members[k].name == name;
        assert more[k].name == name;
      }
    }
    MemberOfMap(members, at);
    AsMapIs(more, values);
  }

  lemma WithoutIsDistinct(members: seq<Property>, names: set<Text>)
    requires Distinct(JsObject(members))
    ensures Distinct(JsObject(Without(members, names)))
  {
    var kept := Without(members, names);
    forall k | 0 <= k < |kept| ensures Distinct(kept[k].value) {
      assert kept[k] in kept;
    }
  }

  /** What counts of a manifest is what counts of its value. */
  lemma ManifestIsOfTheValue(v: JsTree)
    requires Distinct(v)
    ensures Distinct(ManifestForDigest(v)) && Unordered(ManifestForDigest(v)) == ManifestValue(Unordered(v))
  {
    hide Spread, SpreadValue, Without, Find, AsMap;
    var spread := Spread(v);
    var copy := Without(spread, TAKEN);
    SpreadIsOfTheValue(v);
    WithoutIsOfTheValue(spread, TAKEN);
    WithoutIsDistinct(spread, TAKEN);
    KeysOfMap(copy);
    ObjectIs(copy);
    if AUTHORING in NameSet(copy) {
      var at := Find(copy, AUTHORING);
      MemberOfMap(copy, at);
      RecordIs(copy[at].value);
      if IsRecord(copy[at].value) { AuthoringIsOfTheValue(v, copy, at); }
    }
  }

  lemma ObjectIs(members: seq<Property>)
    ensures Unordered(JsObject(members)) == Obj(AsMap(members))
  {
  }

  lemma RecordIs(v: JsTree)
    ensures IsRecord(v) <==> IsObject(Unordered(v))
  {
  }

  lemma AuthoringIsOfTheValue(v: JsTree, copy: seq<Property>, at: nat)
    requires Distinct(JsObject(copy)) && at < |copy| && copy[at].name == AUTHORING
    ensures var stripped := JsObject(Without(Spread(copy[at].value), {CONTENT_DIGEST}));
            var more := JsObject(copy[at := Property(AUTHORING, stripped)]);
            && Distinct(more)
            && Unordered(more) == Obj(AsMap(copy)[AUTHORING := Obj(SpreadValue(Unordered(copy[at].value)) - {CONTENT_DIGEST})])
  {
    hide Spread, SpreadValue, Without, Find, AsMap;
    var authoring := Spread(copy[at].value);
    var stripped := JsObject(Without(authoring, {CONTENT_DIGEST}));
    SpreadIsOfTheValue(copy[at].value);
    WithoutIsOfTheValue(authoring, {CONTENT_DIGEST});
    WithoutIsDistinct(authoring, {CONTENT_DIGEST});
    ObjectIs(stripped.members);
    UpdateIsOfTheValue(copy, at, stripped);
    ObjectIs(copy[at := Property(AUTHORING, stripped)]);
  }

  /** The text of a JSON entry that is hashed is that of its value. */
  lemma ContentIsOfTheValue(h: Host, name: Text, content: Text)
    requires IsJson(name)
    ensures CanonicalContent(h, name, content) ==
              (var parsed := h.parse(content);
               if parsed.None? then None
               else Some(h.encode(StableText(h.number, CountedValue(name, Unordered(parsed.value))))))
  {
    hide StableStringify, StableText, Unordered, Distinct, ManifestForDigest, ManifestValue;
    if h.parse(content).Some? {
      var v: JsTree := h.parse(content).value;
      ManifestIsOfTheValue(v);
      StableIsOfTheValue(h.number, Counted(name, v));
    }
  }

  /** A JSON entry counts by its value, whatever the order of its members. */
  lemma ValuesCount(h: Host, entries: Entries, name: Text, content: Text)
    requires name in entries && IsJson(name) && h.parse(entries[name]).Some? && h.parse(content).Some?
    requires Unordered(h.parse(content).value) == Unordered(h.parse(entries[name]).value)
    ensures Digest(h, entries[name := content]) == Digest(h, entries)
  {
    hide Digest, CanonicalContent, IsExcluded, IsJson, Unordered, StableText, CountedValue;
    ContentIsOfTheValue(h, name, content);
    ContentIsOfTheValue(h, name, entries[name]);
    assert Included(entries[name := content]) == Included(entries);
    SameContentSameDigest(h, entries[name := content], entries);
  }

  /**
   Two documents that differ in white space, in the order of their members and in how they
   escape characters, and in nothing else, count the same.
   */
  lemma JsonCountsByItsValue(h: Host, entries: Entries, name: Text, r: Rules, s: Text, d: Element, q: Rules, t: Text, e: Element)
    requires ReadsJson(h) && name in entries && IsJson(name) && entries[name] == h.encode(s)
    requires SpellsDocument(r, s, d) && SpellsDocument(q, t, e) && Rearranged(s, d.tree, t, e.tree)
    ensures Digest(h, entries[name := h.encode(t)]) == Digest(h, entries)
  {
    hide Digest, Unordered, Spells, Meaning, Rearranged, NamesDifferInside, IsJson;
    SpelledNamesDiffer(r, s, d.tree, 0);
    SpelledNamesDiffer(q, t, e.tree, 0);
    RearrangedMeansTheSame(s, d.tree, t, e.tree);
    ValuesCount(h, entries, name, h.encode(t));
  }

  // ---- Writing the digest down -------------------------------------------------------------------------

  lemma ManifestNameCounts()
    ensures IsJson(MANIFEST_NAME) && !IsExcluded(MANIFEST_NAME)
  {
    assert |MANIFEST_NAME| == 9 && |FINDER_NAME| == 9 && |RECEIPT_NAME| == 18 && |SIGNATURE_NAME| == 15 && |REPORTS| == 8;
    assert MANIFEST_NAME[0] == 'k' as int && FINDER_NAME[0] == '.' as int && REPORTS[0] == 'r' as int;
  }

  lemma TakenNames()
    ensures AUTHORING !in TAKEN && CONTENT_DIGEST in TAKEN
  {
    assert |AUTHORING| == 9 && |ASSET_DIGEST| == 12 && |CONTAINER_SHA256| == 16 && |CONTENT_DIGEST| == 14 && |SOURCE| == 7;
  }

  /** The manifest with the digest written into it. */
  function WithDigest(manifest: map<Text, Value>, digest: Text): Value { Obj(manifest[CONTENT_DIGEST := Str(digest)]) }

  /** The manifest with the digest written into its authoring record, as a spread and a member. */
  function WithAuthoringDigest(manifest: map<Text, Value>, digest: Text): Value {
    var authoring := if AUTHORING in manifest then SpreadValue(manifest[AUTHORING]) else map[];
    Obj(manifest[AUTHORING := Obj(authoring[CONTENT_DIGEST := Str(digest)])])
  }

  lemma WrittenDigestIsTaken(manifest: map<Text, Value>, digest: Text)
    ensures ManifestValue(WithDigest(manifest, digest)) == ManifestValue(Obj(manifest))
  {
    TakenNames();
    assert manifest[CONTENT_DIGEST := Str(digest)] - TAKEN == manifest - TAKEN;
  }

  predicate HasRecord(manifest: map<Text, Value>) { AUTHORING in manifest && IsObject(manifest[AUTHORING]) }

  lemma AuthoringDigestIsTaken(manifest: map<Text, Value>, digest: Text)
    ensures ManifestValue(WithAuthoringDigest(manifest, digest)) == ManifestValue(Obj(manifest)) <==> HasRecord(manifest)
  {
    TakenNames();
    var authoring := if AUTHORING in manifest then SpreadValue(manifest[AUTHORING]) else map[];
    var written := authoring[CONTENT_DIGEST := Str(digest)];
    assert written - {CONTENT_DIGEST} == authoring - {CONTENT_DIGEST};
    var copy, other := manifest - TAKEN, manifest[AUTHORING := Obj(written)] - TAKEN;
    assert other == copy[AUTHORING := Obj(written)];
    var result := Obj(written - {CONTENT_DIGEST});
    assert ManifestValue(WithAuthoringDigest(manifest, digest)) == Obj(other[AUTHORING := result]);
    if !HasRecord(manifest) {
      assert ManifestValue(Obj(manifest)) == Obj(copy);
      assert AUTHORING in copy ==> copy[AUTHORING] != result;
      assert other[AUTHORING := result][AUTHORING] == result;
    } else {
      assert copy[AUTHORING := result] == other[AUTHORING := result];
    }
  }

  /** The manifest is the JSON of this value. */
  ghost predicate IsManifest(h: Host, content: Text, v: Value) {
    h.parse(content).Some? && Unordered(h.parse(content).value) == v
  }

  /** Manifests that count for the same value can take each other's place. */
  lemma ManifestsCount(h: Host, entries: Entries, v: Value, content: Text, w: Value)
    requires MANIFEST_NAME in entries && IsManifest(h, entries[MANIFEST_NAME], v) && IsManifest(h, content, w)
    requires ManifestValue(v) == ManifestValue(w)
    ensures Digest(h, entries[MANIFEST_NAME := content]) == Digest(h, entries)
  {
    hide Digest, CanonicalContent, IsExcluded, IsJson, Unordered, StableText, ManifestValue;
    ManifestNameCounts();
    ContentIsOfTheValue(h, MANIFEST_NAME, content);
    ContentIsOfTheValue(h, MANIFEST_NAME, entries[MANIFEST_NAME]);
    assert Included(entries[MANIFEST_NAME := content]) == Included(entries);
    SameContentSameDigest(h, entries[MANIFEST_NAME := content], entries);
  }

  /** Writing the digest into the manifest leaves it as it is. */
  lemma WrittenDigestDoesNotCount(h: Host, entries: Entries, manifest: map<Text, Value>, digest: Text, content: Text)
    requires MANIFEST_NAME in entries && IsManifest(h, entries[MANIFEST_NAME], Obj(manifest))
    requires IsManifest(h, content, WithDigest(manifest, digest))
    ensures Digest(h, entries[MANIFEST_NAME := content]) == Digest(h, entries)
  {
    hide IsManifest, Digest, WithDigest, ManifestValue;
    WrittenDigestIsTaken(manifest, digest);
    ManifestsCount(h, entries, Obj(manifest), content, WithDigest(manifest, digest));
  }

  lemma PrintedIsSpelled(r: Rules, v: Value, end: Text) returns (e: Element)
    requires Plain(v) && Scalar(v) && JsonRoundTrip.IntegersFinite(r) && JsonRoundTrip.NestedAtMost(v, r.maxDepth)
    requires end == [] || end == [NEWLINE]
    ensures SpellsDocument(r, Print(v) + end, e) && ElementMeaning(Print(v) + end, e) == v
  {
    hide Print, JsonRoundTrip.NestedAtMost, Scalar, Plain, Spells, Meaning, JsonRoundTrip.IntegersFinite;
    var s := Print(v) + end;
    assert s[0..0 + |Print(v)|] == Print(v);
    var t := JsonRoundTrip.TreePrinted(r, s, 0, v, 0);
    e := Element(0, t, |s|);
  }

  /** The bytes of a printed value, with or without a line end, are parsed as the value. */
  lemma PrintedIsParsed(h: Host, v: Value, end: Text)
    requires ReadsJson(h) && Plain(v) && Scalar(v) && (end == [] || end == [NEWLINE])
    ensures IsManifest(h, h.encode(Print(v) + end), v)
  {
    hide Print, Scalar, Plain, Unordered, SpellsDocument, ElementMeaning;
    var n := JsonRoundTrip.SomeNesting(v);
    var r := Rules(n, (_: Text) => true);
    var e := PrintedIsSpelled(r, v, end);
  }

  /** No two of the texts that these entries hash collide. */
  ghost predicate ToldApart(h: Host, a: Entries, b: Entries) {
    && Readable(h, a) && Readable(h, b)
    && Separates(h, Hashed(h, Canonical(h, a)) + Hashed(h, Canonical(h, b)))
  }

  lemma EqualDigestsEqualManifests(h: Host, entries: Entries, v: Value, content: Text, w: Value)
    requires ReadsJson(h) && MANIFEST_NAME in entries && IsManifest(h, entries[MANIFEST_NAME], v) && IsManifest(h, content, w)
    requires Plain(ManifestValue(v)) && Scalar(ManifestValue(v)) && Plain(ManifestValue(w)) && Scalar(ManifestValue(w))
    requires ToldApart(h, entries, entries[MANIFEST_NAME := content])
    requires Digest(h, entries[MANIFEST_NAME := content]) == Digest(h, entries)
    ensures ManifestValue(v) == ManifestValue(w)
  {
    hide CanonicalContent, IsExcluded, IsJson, Unordered, StableText, ManifestValue, Plain, Scalar, Print, DigestOf, Hashed, Separates;
    hide ReadsJson;
    var after := entries[MANIFEST_NAME := content];
    ManifestNameCounts();
    ContentIsOfTheValue(h, MANIFEST_NAME, content);
    ContentIsOfTheValue(h, MANIFEST_NAME, entries[MANIFEST_NAME]);
    assert Canonical(h, entries).Keys == Included(entries) == Included(after) == Canonical(h, after).Keys;
    SameNamesTellApart(h, Canonical(h, entries), Canonical(h, after));
    assert MANIFEST_NAME in Included(entries) && MANIFEST_NAME in Included(after);
    assert Canonical(h, entries)[MANIFEST_NAME] == Canonical(h, after)[MANIFEST_NAME];
    StableIsCanonical(h.number, ManifestValue(v));
    StableIsCanonical(h.number, ManifestValue(w));
    PrintedIsParsed(h, ManifestValue(v), []);
    PrintedIsParsed(h, ManifestValue(w), []);
    assert Print(ManifestValue(v)) + [] == Print(ManifestValue(v)) && Print(ManifestValue(w)) + [] == Print(ManifestValue(w));
  }

  /**
   Writing the digest into the authoring record leaves it as it is when the record was there
   before, as an object; otherwise it is another one, unless the hash collides.
   */
  lemma AuthoringDigestDoesNotCount(h: Host, entries: Entries, manifest: map<Text, Value>, digest: Text, content: Text)
    requires MANIFEST_NAME in entries && IsManifest(h, entries[MANIFEST_NAME], Obj(manifest))
    requires IsManifest(h, content, WithAuthoringDigest(manifest, digest))
    ensures HasRecord(manifest) ==> Digest(h, entries[MANIFEST_NAME := content]) == Digest(h, entries)
    ensures var counted, other := ManifestValue(Obj(manifest)), ManifestValue(WithAuthoringDigest(manifest, digest));
            && ReadsJson(h) && ToldApart(h, entries, entries[MANIFEST_NAME := content])
            && Plain(counted) && Scalar(counted) && Plain(other) && Scalar(other)
            && Digest(h, entries[MANIFEST_NAME := content]) == Digest(h, entries)
            ==> HasRecord(manifest)
  {
    hide IsManifest, Digest, WithAuthoringDigest, ManifestValue, Plain, Scalar, ToldApart, ReadsJson, HasRecord;
    AuthoringDigestIsTaken(manifest, digest);
    var v, w := Obj(manifest), WithAuthoringDigest(manifest, digest);
    if HasRecord(manifest) {
      ManifestsCount(h, entries, v, content, w);
    } else if ReadsJson(h) && ToldApart(h, entries, entries[MANIFEST_NAME := content])
      && Plain(ManifestValue(v)) && Scalar(ManifestValue(v)) && Plain(ManifestValue(w)) && Scalar(ManifestValue(w))
      && Digest(h, entries[MANIFEST_NAME := content]) == Digest(h, entries)
    {
      EqualDigestsEqualManifests(h, entries, v, content, w);
    }
  }

  // ---- What the digest tells apart ----------------------------------------------------------------------

  /** The hash of any text is 64 digits, and no two of these texts have the same hash. */
  ghost predicate Separates(h: Host, texts: set<Text>) {
    && (forall t :: |h.sha256(t)| == 64 && NEWLINE !in h.sha256(t))
    && (forall s, t | s in texts && t in texts && h.sha256(s) == h.sha256(t) :: s == t)
  }

  /** The texts that are hashed on the way to a digest. */
  ghost function Hashed(h: Host, contents: Entries): set<Text> { contents.Values + {Lines(Parts(h, contents))} }

  lemma FirstLineIs(a: Text, b: Text, x: Text, y: Text)
    requires NEWLINE !in a && NEWLINE !in b && a + [NEWLINE] + x == b + [NEWLINE] + y
    ensures a == b && x == y
  {
    var s, t := a + [NEWLINE] + x, b + [NEWLINE] + y;
    assert s[|a|] == NEWLINE && t[|b|] == NEWLINE;
    assert forall k | 0 <= k < |a| :: s[k] == a[k];
    assert forall k | 0 <= k < |b| :: t[k] == b[k];
    assert s[..|a|] == a && t[..|b|] == b && s[|a| + 1..] == x && t[|b| + 1..] == y;
  }

  /** A line that is not empty and has no break. */
  predicate IsLine(p: Text) { p != [] && NEWLINE !in p }

  lemma ManyLines(a: seq<Text>)
    requires |a| > 1
    ensures NEWLINE in Lines(a)
  {
    assert Lines(a)[|a[0]|] == NEWLINE;
  }

  lemma {:induction false} LinesAreExact(a: seq<Text>, b: seq<Text>)
    requires (forall k | 0 <= k < |a| :: IsLine(a[k])) && (forall k | 0 <= k < |b| :: IsLine(b[k])) && Lines(a) == Lines(b)
    ensures a == b
  {
    if |a| > 1 && |b| > 1 {
      assert a == [a[0]] + a[1..] && b == [b[0]] + b[1..];
      FirstLineIs(a[0], b[0], Lines(a[1..]), Lines(b[1..]));
      LinesAreExact(a[1..], b[1..]);
    } else {
      if |a| > 1 { ManyLines(a); }
      if |b| > 1 { ManyLines(b); }
    }
  }

  lemma PartIsExact(h: Host, n: Text, c: Text, m: Text, d: Text)
    requires Separates(h, {c, d}) && Part(h, n, c) == Part(h, m, d)
    ensures n == m && c == d
  {
    var p, q := Part(h, n, c), Part(h, m, d);
    assert p[..|p| - 65] == n && q[..|q| - 65] == m;
    assert p[|p| - 64..] == h.sha256(c) && q[|q| - 64..] == h.sha256(d);
  }

  /**
   With names without line breaks, and unless two of the texts that are hashed for them have
   the same hash, contents with the same digest are the same: every name, and what it has.
   */
  lemma DigestTellsApart(h: Host, a: Entries, b: Entries)
    requires Separates(h, Hashed(h, a) + Hashed(h, b))
    requires (forall n | n in a :: NEWLINE !in n) && (forall n | n in b :: NEWLINE !in n)
    requires DigestOf(h, a) == DigestOf(h, b)
    ensures a == b
  {
    hide Ordered, Parts, Lines, Part, Separates;
    var x, y := Parts(h, a), Parts(h, b);
    LinesAreShared(h, a, b);
    FewerSeparate(h, Hashed(h, a) + Hashed(h, b), {});
    FewerSeparate(h, Hashed(h, a) + Hashed(h, b), a.Values + b.Values);
    PartsAreLines(h, a);
    PartsAreLines(h, b);
    LinesAreExact(x, y);
    PartsAreExact(h, a, b);
  }

  lemma SameLines(h: Host, texts: set<Text>, s: Text, t: Text)
    requires Separates(h, texts) && s in texts && t in texts && h.sha256(s) == h.sha256(t)
    ensures s == t
  {
  }

  lemma PartsAreLines(h: Host, a: Entries)
    requires Separates(h, {}) && forall n | n in a :: NEWLINE !in n
    ensures forall k | 0 <= k < |Parts(h, a)| :: IsLine(Parts(h, a)[k])
  {
    hide Ordered;
    var names := Ordered(a.Keys);
    forall k | 0 <= k < |names| ensures IsLine(Parts(h, a)[k]) {
      assert names[k] in a;
    }
  }

  lemma FewerSeparate(h: Host, texts: set<Text>, some: set<Text>)
    requires Separates(h, texts) && some <= texts
    ensures Separates(h, some)
  {
  }

  /** What part `k` of a digest tells. */
  lemma EntryIsExact(h: Host, a: Entries, b: Entries, k: nat)
    requires Separates(h, a.Values + b.Values) && Parts(h, a) == Parts(h, b) && k < |Ordered(a.Keys)|
    ensures |Ordered(b.Keys)| == |Ordered(a.Keys)|
    ensures var n := Ordered(a.Keys)[k]; n == Ordered(b.Keys)[k] && n in a && n in b && a[n] == b[n]
  {
    var s, t := Ordered(a.Keys), Ordered(b.Keys);
    hide Ordered, Part, Separates;
    assert |s| == |Parts(h, a)| == |Parts(h, b)| == |t|;
    assert s[k] in s && t[k] in t;
    var c, d := a[s[k]], b[t[k]];
    assert c in a.Values && d in b.Values;
    assert Parts(h, a)[k] == Part(h, s[k], c) && Parts(h, b)[k] == Part(h, t[k], d);
    FewerSeparate(h, a.Values + b.Values, {c, d});
    PartIsExact(h, s[k], c, t[k], d);
  }

  lemma EntriesAreShared(h: Host, a: Entries, b: Entries)
    requires Separates(h, a.Values + b.Values) && Parts(h, a) == Parts(h, b)
    ensures forall n | n in a :: n in b && a[n] == b[n]
  {
    hide Ordered, Part, Parts, Separates;
    forall n | n in a ensures n in b && a[n] == b[n] {
      assert n in Ordered(a.Keys);
      var k :| 0 <= k < |Ordered(a.Keys)| && Ordered(a.Keys)[k] == n;
      EntryIsExact(h, a, b, k);
    }
  }

  lemma PartsAreExact(h: Host, a: Entries, b: Entries)
    requires Separates(h, a.Values + b.Values) && Parts(h, a) == Parts(h, b)
    ensures a == b
  {
    hide Parts, Separates;
    EntriesAreShared(h, a, b);
    FewerSeparate(h, a.Values + b.Values, b.Values + a.Values);
    EntriesAreShared(h, b, a);
  }

  lemma {:induction false} SameLengths(p: seq<Text>, q: seq<Text>)
    requires |p| == |q| && (forall k | 0 <= k < |p| :: |p[k]| == |q[k]|) && Lines(p) == Lines(q)
    ensures p == q
  {
    if |p| > 1 {
      var s, t := p[0] + [NEWLINE] + Lines(p[1..]), q[0] + [NEWLINE] + Lines(q[1..]);
      assert s[..|p[0]|] == p[0] && t[..|q[0]|] == q[0];
      assert s[|p[0]| + 1..] == Lines(p[1..]) && t[|q[0]| + 1..] == Lines(q[1..]);
      SameLengths(p[1..], q[1..]);
      assert p == [p[0]] + p[1..] && q == [q[0]] + q[1..];
    }
  }

  /** Contents under the same names, whatever they are, have the same digest only if they are the same. */
  lemma SameNamesTellApart(h: Host, a: Entries, b: Entries)
    requires a.Keys == b.Keys && Separates(h, Hashed(h, a) + Hashed(h, b)) && DigestOf(h, a) == DigestOf(h, b)
    ensures a == b
  {
    hide Ordered, Lines;
    var x, y := Parts(h, a), Parts(h, b);
    LinesAreShared(h, a, b);
    SameLengths(x, y);
    hide Parts, Part;
    FewerSeparate(h, Hashed(h, a) + Hashed(h, b), a.Values + b.Values);
    PartsAreExact(h, a, b);
  }

  /** The texts behind the same digest are the same. */
  lemma LinesAreShared(h: Host, a: Entries, b: Entries)
    requires Separates(h, Hashed(h, a) + Hashed(h, b)) && DigestOf(h, a) == DigestOf(h, b)
    ensures Lines(Parts(h, a)) == Lines(Parts(h, b))
  {
    hide Ordered, Parts, Lines, Separates;
    var x, y := Parts(h, a), Parts(h, b);
    assert DigestOf(h, a)[|DIGEST_PREFIX|..] == h.sha256(Lines(x)) && DigestOf(h, b)[|DIGEST_PREFIX|..] == h.sha256(Lines(y));
    SameLines(h, Hashed(h, a) + Hashed(h, b), Lines(x), Lines(y));
  }
}
