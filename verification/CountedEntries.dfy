/** Which entries of an asset count for its digest, and what counts of a manifest, by their names. */
module CountedEntries {
  import opened Bytes
  import opened JsonValues
  import opened JsonPrinter
  import opened StableJson
  import opened ContentDigest
  import DigestConfusion

  /** The entries that are left out: three by name, and the reports. */
  ghost predicate IsLeftOut(name: Text) {
    || name == Ascii(".DS_Store") || name == Ascii("build-receipt.json") || name == Ascii("signature.kdsig")
    || (|name| >= 8 && name[..8] == Ascii("reports/"))
  }

  lemma LeftOutExactly(name: Text)
    ensures IsExcluded(name) <==> IsLeftOut(name)
  {
    assert REPORTS <= name <==> |name| >= 8 && name[..8] == REPORTS;
  }

  /** In any letter case. */
  ghost predicate SaysJson(end: Text) {
    |end| == 5 && end[0] == '.' as int && end[1] in {'j' as int, 'J' as int} && end[2] in {'s' as int, 'S' as int}
    && end[3] in {'o' as int, 'O' as int} && end[4] in {'n' as int, 'N' as int}
  }

  lemma JsonNamesAre(name: Text)
    ensures IsJson(name) <==> |name| >= 5 && SaysJson(name[|name| - 5..])
  {
    if |name| >= 5 {
      var end, json := name[|name| - 5..], JSON_ENDING;
      assert |json| == 5 && json[0] == '.' as int && json[1] == 'j' as int && json[2] == 's' as int && json[3] == 'o' as int;
      assert json[4] == 'n' as int;
      assert forall k | 0 <= k < 5 :: end[k] == name[|name| - 5 + k];
      assert IsJson(name) <==> forall k | 0 <= k < 5 :: Lower(end[k]) == json[k];
      assert (forall k | 0 <= k < 5 :: Lower(end[k]) == json[k]) <==>
             (Lower(end[0]) == json[0] && Lower(end[1]) == json[1] && Lower(end[2]) == json[2] && Lower(end[3]) == json[3]
              && Lower(end[4]) == json[4]);
    }
  }

  /** What the digest knows before it is made does not count of a manifest. */
  ghost predicate IsTaken(name: Text) {
    name == Ascii("asset_digest") || name == Ascii("container_sha256") || name == Ascii("content_digest") || name == Ascii("_source")
  }

  /** What is left of a manifest: its other members, and of its authoring record, if it has one, all but the digest. */
  ghost predicate IsLeft(manifest: map<Text, Value>, left: map<Text, Value>) {
    && (forall name :: name in left <==> name in manifest && !IsTaken(name))
    && forall name | name in left ::
         if name == Ascii("authoring") && manifest[name].Obj? then
           left[name] == Obj(map n | n in manifest[name].members && n != Ascii("content_digest") :: manifest[name].members[n])
         else if name == Ascii("authoring") && manifest[name].Arr? then left[name].Obj?
         else left[name] == manifest[name]
  }

  lemma ManifestsAre(manifest: map<Text, Value>)
    ensures ManifestValue(Obj(manifest)).Obj? && IsLeft(manifest, ManifestValue(Obj(manifest)).members)
  {
    NamesAre();
    hide Ascii;
    var left := ManifestValue(Obj(manifest)).members;
    if AUTHORING in manifest && manifest[AUTHORING].Obj? {
      var record := manifest[AUTHORING].members;
      assert record - {CONTENT_DIGEST} == map n | n in record && n != CONTENT_DIGEST :: record[n];
    }
  }

  lemma NamesAre()
    ensures ASSET_DIGEST == Ascii("asset_digest") && CONTAINER_SHA256 == Ascii("container_sha256")
    ensures CONTENT_DIGEST == Ascii("content_digest") && SOURCE == Ascii("_source") && AUTHORING == Ascii("authoring")
    ensures AUTHORING !in TAKEN && MANIFEST_NAME == Ascii("kdna.json")
  {
    assert |AUTHORING| == 9 && |ASSET_DIGEST| == 12 && |CONTAINER_SHA256| == 16 && |CONTENT_DIGEST| == 14 && |SOURCE| == 7;
  }

  /**
   An entry counts exactly under a name that is not left out: as it is, or, under a JSON name,
   as the text of its value, and of the manifest only what is left.
   */
  lemma CountsExactly(h: Host, entries: Entries, name: Text)
    requires Readable(h, entries)
    ensures name in Canonical(h, entries) <==> name in entries && !IsLeftOut(name)
    ensures name in Canonical(h, entries) && !(|name| >= 5 && SaysJson(name[|name| - 5..])) ==>
              Canonical(h, entries)[name] == entries[name]
    ensures name in Canonical(h, entries) && |name| >= 5 && SaysJson(name[|name| - 5..]) && name != Ascii("kdna.json") ==>
              && h.parse(entries[name]).Some?
              && Canonical(h, entries)[name] == h.encode(StableText(h.number, Unordered(h.parse(entries[name]).value)))
    ensures name in Canonical(h, entries) && name == Ascii("kdna.json") ==>
              && h.parse(entries[name]).Some?
              && Canonical(h, entries)[name] == h.encode(StableText(h.number, ManifestValue(Unordered(h.parse(entries[name]).value))))
  {
    hide StableStringify, StableText, ManifestForDigest, ManifestValue, Unordered, IsExcluded, IsJson;
    LeftOutExactly(name);
    JsonNamesAre(name);
    NamesAre();
    ManifestNameCounts();
    if name in Canonical(h, entries) && IsJson(name) { ContentIsOfTheValue(h, name, entries[name]); }
  }

  /** The digest of two entries, letter by letter: names and hashes with colons, a line each, the lesser name first. */
  lemma DigestOfTwo(h: Host, x: Text, c: Text, y: Text, d: Text)
    requires Before(x, y)
    ensures DigestOf(h, map[x := c, y := d])
         == Ascii("sha256:")
            + h.sha256(x + [':' as int] + h.sha256(c) + ['\n' as int] + (y + [':' as int] + h.sha256(d)))
  {
    hide DigestOf, Before;
    DigestConfusion.LinesOfTwo(h, x, c, y, d);
    DigestConfusion.DigestIsOfLines(h, map[x := c, y := d]);
  }
}
