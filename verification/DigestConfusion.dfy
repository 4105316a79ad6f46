/**
 Which contents share their digest with others. The digest joins names and hashes with
 line breaks, and a name may hold line breaks, too.
 */
module DigestConfusion {
  import opened Bytes
  import opened JsonValues
  import opened JsonPrinter
  import opened StableJson
  import opened ContentDigest

  // ---- Joined lines -------------------------------------------------------------------------

  lemma {:induction false} LastLine(parts: seq<Text>)
    requires |parts| > 1
    ensures Lines(parts) == Lines(parts[..|parts| - 1]) + [NEWLINE] + parts[|parts| - 1]
  {
    var front, last := parts[..|parts| - 1], parts[|parts| - 1];
    if |parts| == 2 {
      assert parts[1..] == [last] && front == [parts[0]];
    } else {
      var rest := parts[1..];
      LastLine(rest);
      assert front[1..] == rest[..|rest| - 1] && front[0] == parts[0];
      assert parts[0] + [NEWLINE] + (Lines(front[1..]) + [NEWLINE] + last)
          == parts[0] + [NEWLINE] + Lines(front[1..]) + [NEWLINE] + last;
    }
  }

  lemma LinesStart(parts: seq<Text>)
    requires parts != []
    ensures parts[0] <= Lines(parts) && |parts[|parts| - 1]| <= |Lines(parts)|
    ensures |parts| > 1 ==> |Lines(parts)| > |parts[0]| + |parts[|parts| - 1]|
  {
    if |parts| > 1 {
      LastLine(parts);
      if |parts| > 2 {
        LinesStart(parts[..|parts| - 1]);
      } else {
        assert parts[..1] == [parts[0]];
      }
    }
  }

  // ---- One entry, or two ---------------------------------------------------------------------

  lemma DigestIsOfLines(h: Host, a: Entries)
    ensures DigestOf(h, a) == DIGEST_PREFIX + h.sha256(Lines(Parts(h, a)))
  {
  }

  lemma LinesOfOne(h: Host, x: Text, c: Text)
    ensures Lines(Parts(h, map[x := c])) == Part(h, x, c)
  {
    hide Part;
    var one: Entries := map[x := c];
    OrderedIs(one.Keys, [x]);
    assert Parts(h, one) == [Part(h, x, c)];
  }

  lemma LinesOfTwo(h: Host, x: Text, c: Text, y: Text, d: Text)
    requires Before(x, y)
    ensures Lines(Parts(h, map[x := c, y := d])) == Part(h, x, c) + [NEWLINE] + Part(h, y, d)
  {
    BeforeTotal(x, y);
    hide Part, Ordered, Before;
    var two: Entries := map[x := c, y := d];
    OrderedIs(two.Keys, [x, y]);
    var p, q := Part(h, x, c), Part(h, y, d);
    assert Parts(h, two) == [p, q];
    assert [p, q][1..] == [q];
  }

  lemma BothParts(h: Host, x: Text, c: Text, y: Text, d: Text)
    ensures Part(h, Part(h, x, c) + [NEWLINE] + y, d) == Part(h, x, c) + [NEWLINE] + Part(h, y, d)
  {
  }

  lemma {:induction false} BeforeLonger(a: Text, b: Text, more: Text)
    requires Before(a, b)
    ensures Before(a, b + more)
  {
    if a != [] && a[0] == b[0] {
      assert (b + more)[1..] == b[1..] + more;
      BeforeLonger(a[1..], b[1..], more);
    }
  }

  // ---- Contents that share their digest ---------------------------------------------------------

  /** The name holds an entry, and the start of another that comes behind it. */
  ghost predicate Holds(h: Host, name: Text, x: Text, content: Text, y: Text) {
    name == Part(h, x, content) + [NEWLINE] + y && Before(x, y)
  }

  ghost predicate HoldsEntry(h: Host, name: Text) { exists x, content, y :: Holds(h, name, x, content, y) }

  /** There are two entries, or one whose name holds another. */
  ghost predicate IsConfusable(h: Host, a: Entries) { |a| >= 2 || exists n | n in a :: HoldsEntry(h, n) }

  /** All entries as one: the lines of those before it are part of its name. */
  ghost function MergedName(h: Host, a: Entries): Text
    requires |a| >= 2
  {
    var parts := Parts(h, a);
    Lines(parts[..|parts| - 1]) + [NEWLINE] + LastName(a)
  }

  ghost function LastName(a: Entries): (name: Text)
    requires a != map[]
    ensures name in a
  {
    SizeOfOrdered(a);
    var names := Ordered(a.Keys);
    names[|names| - 1]
  }

  lemma SizeOfOrdered(a: Entries)
    ensures |Ordered(a.Keys)| == |a|
  {
    assert |multiset(Ordered(a.Keys))| == |multiset(a.Keys)| == |a.Keys|;
  }

  /** Two or more entries have the digest of the one that they make, whatever the hash does. */
  lemma MergedHasTheDigest(h: Host, a: Entries)
    requires |a| >= 2
    ensures var b: Entries := map[MergedName(h, a) := a[LastName(a)]];
            b != a && DigestOf(h, b) == DigestOf(h, a) && Hashed(h, b) <= Hashed(h, a)
  {
    hide Ordered, Before, Lines, DigestOf;
    SizeOfOrdered(a);
    var parts, c := Parts(h, a), a[LastName(a)];
    var front := Lines(parts[..|parts| - 1]);
    var name := MergedName(h, a);
    var b: Entries := map[name := c];
    LastLine(parts);
    assert front + [NEWLINE] + LastName(a) + [COLON] + h.sha256(c) == front + [NEWLINE] + (LastName(a) + [COLON] + h.sha256(c));
    assert Lines(parts) == Part(h, name, c);
    LinesOfOne(h, name, c);
    DigestIsOfLines(h, a);
    DigestIsOfLines(h, b);
    assert b.Values == {c} && c in a.Values;
    assert b.Keys == {name};
  }

  /** An entry whose name holds another has the digest of the two. */
  lemma HeldHasTheDigest(h: Host, name: Text, x: Text, c: Text, y: Text, d: Text)
    requires Holds(h, name, x, c, y)
    ensures DigestOf(h, map[x := c, y := d]) == DigestOf(h, map[name := d])
    ensures Hashed(h, map[x := c, y := d]) <= Hashed(h, map[name := d]) + {c}
  {
    BeforeTotal(x, y);
    hide Ordered, Before, Lines, Part, Parts, DigestOf;
    BothParts(h, x, c, y, d);
    LinesOfOne(h, name, d);
    LinesOfTwo(h, x, c, y, d);
    var two, one: Entries := map[x := c, y := d], map[name := d];
    DigestIsOfLines(h, two);
    DigestIsOfLines(h, one);
    assert one[name] in one.Values;
    assert two.Values <= {c, d};
  }

  /** Confusable contents, and others with the same digest; the hash does not collide for them if it did not before. */
  lemma ConfusedWith(h: Host, a: Entries) returns (b: Entries)
    requires IsConfusable(h, a)
    ensures b != a && DigestOf(h, b) == DigestOf(h, a)
    ensures Separates(h, Hashed(h, a)) ==> Separates(h, Hashed(h, a) + Hashed(h, b))
  {
    hide MergedName, LastName, DigestOf, Hashed, Holds;
    if |a| >= 2 {
      b := map[MergedName(h, a) := a[LastName(a)]];
      MergedHasTheDigest(h, a);
      assert Hashed(h, a) + Hashed(h, b) == Hashed(h, a);
    } else {
      var name :| name in a && HoldsEntry(h, name);
      var x, content, y :| Holds(h, name, x, content, y);
      OnlyEntry(a, name);
      var c := SameHash(h, Hashed(h, a), content);
      assert Holds(h, name, x, c, y) by { HoldsAnother(h, name, x, content, c, y); }
      b := map[x := c, y := a[name]];
      NamesOfHeld(h, name, x, c, y);
      HeldHasTheDigest(h, name, x, c, y, a[name]);
      if Separates(h, Hashed(h, a)) { MoreSeparate(h, Hashed(h, a), c, Hashed(h, b)); }
    }
  }

  lemma OnlyEntry(a: Entries, name: Text)
    requires |a| < 2 && name in a
    ensures a == map[name := a[name]]
  {
    forall other | other in a ensures other == name {
      if other != name { Fewer({name, other}, a.Keys); }
    }
  }

  lemma {:induction false} Fewer(a: set<Text>, b: set<Text>)
    requires a <= b
    ensures |a| <= |b|
  {
    assert b == a + (b - a);
  }

  lemma HoldsAnother(h: Host, name: Text, x: Text, c: Text, d: Text, y: Text)
    requires Holds(h, name, x, c, y) && h.sha256(c) == h.sha256(d)
    ensures Holds(h, name, x, d, y)
  {
  }

  lemma NamesOfHeld(h: Host, name: Text, x: Text, c: Text, y: Text)
    requires Holds(h, name, x, c, y)
    ensures x != y && x != name
  {
    BeforeTotal(x, y);
    assert |name| > |x|;
  }

  /** A text with this hash: one of these, if there is one. */
  lemma SameHash(h: Host, texts: set<Text>, content: Text) returns (c: Text)
    ensures h.sha256(c) == h.sha256(content)
    ensures c in texts || forall t | t in texts :: h.sha256(t) != h.sha256(c)
  {
    c := content;
    if t :| t in texts && h.sha256(t) == h.sha256(content) { c := t; }
  }

  lemma MoreSeparate(h: Host, texts: set<Text>, c: Text, more: set<Text>)
    requires Separates(h, texts) && more <= texts + {c}
    requires c in texts || forall t | t in texts :: h.sha256(t) != h.sha256(c)
    ensures Separates(h, texts + more)
  {
  }

  /** Other contents have their own digest, unless two of the hashed texts collide. */
  lemma OthersAreToldApart(h: Host, a: Entries, b: Entries)
    requires !IsConfusable(h, a) && Separates(h, Hashed(h, a) + Hashed(h, b)) && DigestOf(h, a) == DigestOf(h, b)
    ensures a == b
  {
    hide Ordered, Lines, Before, Part, Hashed, DigestOf, HoldsEntry;
    LinesAreShared(h, a, b);
    SizeOfOrdered(a);
    SizeOfOrdered(b);
    PartSizes(h, a, Hashed(h, a) + Hashed(h, b));
    PartSizes(h, b, Hashed(h, a) + Hashed(h, b));
    LinesOfNone();
    if |b| == 0 {
      if |a| > 0 { LinesStart(Parts(h, a)); }
      assert a == map[] && b == map[];
    } else if |a| == 0 {
      LinesStart(Parts(h, b));
      assert false;
    } else {
      OneIsToldApart(h, a, b);
    }
  }

  lemma LinesOfNone()
    ensures Lines([]) == []
  {
  }

  lemma PartSizes(h: Host, a: Entries, texts: set<Text>)
    requires Separates(h, texts)
    ensures forall k | 0 <= k < |Parts(h, a)| :: |Parts(h, a)[k]| >= 65
  {
    hide Ordered;
  }

  lemma OneIsToldApart(h: Host, a: Entries, b: Entries)
    requires |a| == 1 && |b| >= 1 && !IsConfusable(h, a) && Separates(h, Hashed(h, a) + Hashed(h, b))
    requires Lines(Parts(h, a)) == Lines(Parts(h, b))
    ensures a == b
  {
    hide Ordered, Before, Part, Parts, Lines, Separates;
    SizeOfOrdered(a);
    SizeOfOrdered(b);
    var n := LastName(a);
    OnlyEntry(a, n);
    LinesOfOne(h, n, a[n]);
    if |b| == 1 {
      var m := LastName(b);
      OnlyEntry(b, m);
      LinesOfOne(h, m, b[m]);
      FewerSeparate(h, Hashed(h, a) + Hashed(h, b), {a[n], b[m]});
      PartIsExact(h, n, a[n], m, b[m]);
    } else {
      NameHoldsEntry(h, n, a[n], b, Hashed(h, a) + Hashed(h, b));
    }
  }

  /** A line that is the lines of two entries or more has a name that holds the first of them. */
  lemma NameHoldsEntry(h: Host, n: Text, c: Text, b: Entries, texts: set<Text>)
    requires |b| >= 2 && Separates(h, texts) && Part(h, n, c) == Lines(Parts(h, b))
    ensures HoldsEntry(h, n)
  {
    hide Before, Lines;
    SizeOfOrdered(b);
    var names, parts := Ordered(b.Keys), Parts(h, b);
    assert names[0] in names && names[1] in names && Before(names[0], names[1]);
    var c0, c1, rest := b[names[0]], b[names[1]], parts[1..];
    assert parts[0] == Part(h, names[0], c0) && rest[0] == Part(h, names[1], c1);
    PartSizes(h, b, texts);
    LinesStart(rest);
    LinesOfMore(parts);
    NameOfLines(h, n, c, names[0], c0, names[1], c1, Lines(rest));
  }

  lemma NameOfLines(h: Host, n: Text, c: Text, x: Text, c0: Text, z: Text, c1: Text, rest: Text)
    requires (forall t :: |h.sha256(t)| == 64) && Before(x, z) && Part(h, z, c1) <= rest
    requires Part(h, n, c) == Part(h, x, c0) + [NEWLINE] + rest
    ensures HoldsEntry(h, n)
  {
    hide Before;
    var text, first := Part(h, n, c), Part(h, x, c0);
    var y, more := rest[..|rest| - 65], rest[|z|..|rest| - 65];
    assert text[..|text| - 65] == n;
    assert text[..|text| - 65] == first + [NEWLINE] + y;
    assert y == z + more by {
      assert rest[..|z|] == Part(h, z, c1)[..|z|] == z;
    }
    BeforeLonger(x, z, more);
    assert Holds(h, n, x, c0, y);
  }

  lemma LinesOfMore(parts: seq<Text>)
    requires |parts| > 1
    ensures Lines(parts) == parts[0] + [NEWLINE] + Lines(parts[1..])
  {
  }

  /**
   Contents share their digest with others, without a collision, exactly when they have two
   entries or more, or one whose name holds another.
   */
  lemma ConfusableExactly(h: Host, a: Entries)
    requires Separates(h, Hashed(h, a))
    ensures IsConfusable(h, a) <==>
              exists b :: b != a && DigestOf(h, b) == DigestOf(h, a) && Separates(h, Hashed(h, a) + Hashed(h, b))
  {
    hide IsConfusable, DigestOf, Hashed, Separates;
    if IsConfusable(h, a) {
      var b := ConfusedWith(h, a);
    }
    forall b | !IsConfusable(h, a) && DigestOf(h, b) == DigestOf(h, a) && Separates(h, Hashed(h, a) + Hashed(h, b))
      ensures b == a
    {
      OthersAreToldApart(h, a, b);
    }
  }

  /** With no line break in any name, that is: exactly when there are two entries or more. */
  lemma CleanNamesAreConfusable(h: Host, a: Entries)
    requires forall n | n in a :: NEWLINE !in n
    ensures IsConfusable(h, a) <==> |a| >= 2
  {
    forall n | n in a ensures !HoldsEntry(h, n) {
      if HoldsEntry(h, n) { HeldHasBreak(h, n); }
    }
  }

  lemma HeldHasBreak(h: Host, n: Text)
    requires HoldsEntry(h, n)
    ensures NEWLINE in n
  {
    var x, content, y :| Holds(h, n, x, content, y);
    assert n[|Part(h, x, content)|] == NEWLINE;
  }

  // ---- Assets that share their digest ------------------------------------------------------------

  lemma ReservedNames()
    ensures NEWLINE !in MANIFEST_NAME && NEWLINE !in FINDER_NAME && NEWLINE !in RECEIPT_NAME && NEWLINE !in SIGNATURE_NAME
    ensures |REPORTS| == 8 && COLON !in REPORTS && NEWLINE !in JSON_ENDING && |JSON_ENDING| == 5
  {
  }

  /** A name that starts with one that counts, and a colon, counts. */
  lemma MergedCounts(first: Text, rest: Text, last: Text)
    requires !IsExcluded(first)
    ensures var name := first + [COLON] + rest + [NEWLINE] + last;
            !IsExcluded(name) && name != MANIFEST_NAME && IsJson(name) == IsJson(last)
  {
    hide IsExcluded;
    ReservedNames();
    var name := first + [COLON] + rest + [NEWLINE] + last;
    assert name[|first + [COLON] + rest|] == NEWLINE;
    NotReports(first, rest + [NEWLINE] + last);
    assert name == first + [COLON] + (rest + [NEWLINE] + last);
    ExcludedNames(name);
    SameEnding(first + [COLON] + rest, last);
  }

  lemma ExcludedNames(name: Text)
    requires NEWLINE in name && !(REPORTS <= name)
    ensures !IsExcluded(name)
  {
    ReservedNames();
  }

  lemma NotReports(first: Text, rest: Text)
    requires !IsExcluded(first)
    ensures !(REPORTS <= first + [COLON] + rest)
  {
    ReservedNames();
    hide IsExcluded;
    StartOfMore(REPORTS, first, rest);
    CountsBeginOtherwise(first);
  }

  lemma CountsBeginOtherwise(name: Text)
    requires !IsExcluded(name)
    ensures !(REPORTS <= name)
  {
  }

  lemma StartOfMore(start: Text, first: Text, rest: Text)
    requires COLON !in start
    ensures start <= first + [COLON] + rest ==> start <= first
  {
    var name := first + [COLON] + rest;
    if |first| < |start| {
      assert name[|first|] == COLON;
    } else {
      assert name[..|start|] == first[..|start|];
    }
  }

  lemma SameEnding(front: Text, last: Text)
    ensures IsJson(front + [NEWLINE] + last) == IsJson(last)
  {
    ReservedNames();
    var name := front + [NEWLINE] + last;
    if |last| >= 5 {
      forall k | 0 <= k < 5
        ensures Lower(name[|name| - |JSON_ENDING| + k]) == JSON_ENDING[k]
           <==> Lower(last[|last| - |JSON_ENDING| + k]) == JSON_ENDING[k]
      {
      }
    } else if |name| >= 5 {
      var k := 4 - |last|;
      assert Lower(name[|name| - |JSON_ENDING| + k]) == NEWLINE && JSON_ENDING[k] in JSON_ENDING;
    }
  }

  lemma MergedNameStarts(h: Host, a: Entries) returns (rest: Text)
    requires |a| >= 2
    ensures Ordered(a.Keys) != [] && Ordered(a.Keys)[0] in a
    ensures MergedName(h, a) == Ordered(a.Keys)[0] + [COLON] + rest + [NEWLINE] + LastName(a)
  {
    hide Ordered, Lines, Before, IsExcluded;
    SizeOfOrdered(a);
    var names, parts := Ordered(a.Keys), Parts(h, a);
    assert names[0] in names;
    var front := parts[..|parts| - 1];
    LinesStart(front);
    assert front[0] == parts[0] == names[0] + [COLON] + h.sha256(a[names[0]]);
    var start := names[0] + [COLON];
    assert start <= Lines(front) by { assert start <= front[0]; }
    rest := Lines(front)[|start|..];
    assert Lines(front) == start + rest;
  }

  /** What the last entry that counts can be moved to under another name. */
  ghost predicate MovesTo(h: Host, entries: Entries, last: Text, content: Text)
    requires Readable(h, entries) && last in Canonical(h, entries)
  {
    forall name | name != MANIFEST_NAME && IsJson(name) == IsJson(last) ::
      CanonicalContent(h, name, content) == Some(Canonical(h, entries)[last])
  }

  /** An entry other than the manifest counts the same under every name of its kind. */
  lemma ContentMoves(h: Host, entries: Entries, last: Text)
    requires Readable(h, entries) && last in Canonical(h, entries) && last != MANIFEST_NAME
    ensures MovesTo(h, entries, last, entries[last])
  {
    hide StableStringify, ManifestForDigest, IsJson;
  }

  /** What counts of a manifest can stand elsewhere, as a text of its own. */
  lemma ManifestMoves(h: Host, entries: Entries, v: Value)
    requires ReadsJson(h) && Readable(h, entries) && MANIFEST_NAME in Canonical(h, entries)
    requires IsManifest(h, entries[MANIFEST_NAME], v) && Plain(ManifestValue(v)) && Scalar(ManifestValue(v))
    ensures MovesTo(h, entries, MANIFEST_NAME, h.encode(Print(ManifestValue(v))))
  {
    hide StableText, Unordered, ManifestValue, Print, Plain, Scalar, IsJson, ReadsJson, CanonicalContent;
    ManifestNameCounts();
    var counted := ManifestValue(v);
    PrintedIsParsed(h, counted, []);
    assert Print(counted) + [] == Print(counted);
    ContentIsOfTheValue(h, MANIFEST_NAME, entries[MANIFEST_NAME]);
    forall name | name != MANIFEST_NAME && IsJson(name)
      ensures CanonicalContent(h, name, h.encode(Print(counted))) == Some(Canonical(h, entries)[MANIFEST_NAME])
    {
      ContentIsOfTheValue(h, name, h.encode(Print(counted)));
    }
  }

  /** Two or more entries that count have the digest of one entry, under a name with line breaks. */
  lemma MergedAsset(h: Host, before: Entries, content: Text) returns (after: Entries)
    requires Readable(h, before) && |Canonical(h, before)| >= 2 && MovesTo(h, before, LastName(Canonical(h, before)), content)
    ensures Readable(h, after) && Canonical(h, after) != Canonical(h, before) && Digest(h, after) == Digest(h, before)
    ensures Hashed(h, Canonical(h, after)) <= Hashed(h, Canonical(h, before))
  {
    hide Ordered, Lines, IsExcluded, IsJson, CanonicalContent, DigestOf, Hashed, LastName, MergedName;
    var a := Canonical(h, before);
    var last, name := LastName(a), MergedName(h, a);
    var rest := MergedNameStarts(h, a);
    MergedCounts(Ordered(a.Keys)[0], rest, last);
    after := map[name := content];
    assert Included(after) == {name};
    assert Canonical(h, after) == map[name := a[last]];
    MergedHasTheDigest(h, a);
  }
}
