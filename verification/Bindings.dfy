/**
 Which bindings share their associated data with others. The fields of a binding are joined
 with line breaks, and a field may hold line breaks, too.
 */
module Bindings {
  import opened ExternalGrant
  import ProtectedEntry

  /** What the associated data of an external envelope binds. */
  datatype Binding = Binding(manifest: Manifest, entryName: string, plaintextDigest: string, keyRef: string, issuerKeyId: string)

  function Data(b: Binding): Result<string> { Aad(b.manifest, b.entryName, b.plaintextDigest, b.keyRef, b.issuerKeyId) }

  /** The fields that may be any text. */
  function Free(b: Binding): seq<string> {
    var m := b.manifest;
    [m.assetUid, m.assetId, m.version, b.entryName, b.plaintextDigest, b.keyRef, b.issuerKeyId]
  }

  predicate NoneEmpty(f: seq<string>) { forall k | 0 <= k < |f| :: f[k] != "" }

  /** A line break in a field, with text before it and a field behind, or the other way round. */
  predicate IsLooseAt(f: seq<string>, k: nat, j: nat)
    requires k < |f| && j < |f[k]|
  {
    f[k][j] == '\n' && ((j > 0 && k + 1 < |f|) || (j + 1 < |f[k]| && k > 0))
  }

  predicate IsLoose(f: seq<string>) { exists k, j | 0 <= k < |f| && 0 <= j < |f[k]| :: IsLooseAt(f, k, j) }

  // ---- Joined fields --------------------------------------------------------------------------

  lemma {:induction false} JoinedSum(f: seq<string>, g: seq<string>)
    requires f != [] && g != []
    ensures Joined(f + g) == Joined(f) + "\n" + Joined(g)
  {
    assert (f + g)[1..] == f[1..] + g;
    if |f| > 1 {
      JoinedSum(f[1..], g);
      assert f[0] + "\n" + (Joined(f[1..]) + "\n" + Joined(g)) == f[0] + "\n" + Joined(f[1..]) + "\n" + Joined(g);
    } else {
      assert f[1..] + g == g;
    }
  }

  /** Two neighbours can be exchanged for two others that are joined to the same text. */
  lemma PairsJoin(front: seq<string>, x: string, y: string, u: string, v: string, back: seq<string>)
    requires x + "\n" + y == u + "\n" + v
    ensures Joined(front + [x, y] + back) == Joined(front + [u, v] + back)
  {
    assert [x, y][1..] == [y] && [u, v][1..] == [v];
    assert Joined([x, y]) == Joined([u, v]);
    if front != [] {
      JoinedSum(front, [x, y]);
      JoinedSum(front, [u, v]);
    } else {
      assert front + [x, y] == [x, y] && front + [u, v] == [u, v];
    }
    if back != [] {
      JoinedSum(front + [x, y], back);
      JoinedSum(front + [u, v], back);
    } else {
      assert front + [x, y] + back == front + [x, y] && front + [u, v] + back == front + [u, v];
    }
  }

  /** The other fields that a line break allows. */
  lemma LooseIsShared(f: seq<string>) returns (g: seq<string>)
    requires NoneEmpty(f) && IsLoose(f)
    ensures |g| == |f| && NoneEmpty(g) && g != f && Joined(g) == Joined(f)
  {
    var k, j :| 0 <= k < |f| && 0 <= j < |f[k]| && IsLooseAt(f, k, j);
    var before, behind := f[k][..j], f[k][j + 1..];
    assert f[k] == before + "\n" + behind;
    if j > 0 && k + 1 < |f| {
      var next := behind + "\n" + f[k + 1];
      assert before + "\n" + next == f[k] + "\n" + f[k + 1];
      PairsJoin(f[..k], before, next, f[k], f[k + 1], f[k + 2..]);
      g := f[..k] + [before, next] + f[k + 2..];
      assert f == f[..k] + [f[k], f[k + 1]] + f[k + 2..] && g[k] != f[k];
    } else {
      var last := f[k - 1] + "\n" + before;
      assert last + "\n" + behind == f[k - 1] + "\n" + f[k];
      PairsJoin(f[..k - 1], last, behind, f[k - 1], f[k], f[k + 1..]);
      g := f[..k - 1] + [last, behind] + f[k + 1..];
      assert f == f[..k - 1] + [f[k - 1], f[k]] + f[k + 1..] && g[k] != f[k];
    }
  }

  // ---- No others ------------------------------------------------------------------------------

  lemma FirstBreak(a: string, x: string, b: string, y: string)
    requires a + "\n" + x == b + "\n" + y && |a| <= |b|
    ensures |a| == |b| ==> a == b && x == y
    ensures |a| < |b| ==> b[|a|] == '\n' && b[..|a|] == a && x == b[|a| + 1..] + "\n" + y
  {
    var s, t := a + "\n" + x, b + "\n" + y;
    assert s[..|a|] == a && s[|a| + 1..] == x && t[..|a|] == b[..|a|];
    assert s[|a|] == '\n' && t[|a|] == (if |a| < |b| then b[|a|] else '\n');
    if |a| < |b| {
      assert t[|a| + 1..] == b[|a| + 1..] + "\n" + y;
    } else {
      assert t[|a| + 1..] == y;
    }
  }

  /** Fields that begin with some text before as many others have a line break that is not alone in the last. */
  lemma {:induction false} ShiftedHasBreak(u: string, f: seq<string>, g: seq<string>) returns (k: nat, j: nat)
    requires |f| == |g| >= 1 && NoneEmpty(f) && NoneEmpty(g) && Joined(f) == u + "\n" + Joined(g)
    ensures k < |f| && j < |f[k]| && f[k][j] == '\n' && (j + 1 < |f[k]| || (j > 0 && k + 1 < |f|))
    decreases |f|
  {
    if |f| == 1 {
      assert f[0][|u|] == '\n';
      return 0, |u|;
    }
    var rest, more := Joined(f[1..]), Joined(g[1..]);
    var w: string;
    if |u| < |f[0]| {
      FirstBreak(u, Joined(g), f[0], rest);
      if |u| > 0 || |f[0]| > 1 { return 0, |u|; }
      assert f[0][1..] + "\n" + rest == "" + "\n" + rest;
      FirstBreak("", rest, g[0], more);
      w := g[0][1..];
    } else {
      FirstBreak(f[0], rest, u, Joined(g));
      if |u| == |f[0]| {
        w := g[0];
      } else {
        var left := u[|f[0]| + 1..];
        w := left + "\n" + g[0];
        assert left + "\n" + (g[0] + "\n" + more) == w + "\n" + more;
      }
    }
    k, j := ShiftedHasBreak(w, f[1..], g[1..]);
    k := k + 1;
  }

  lemma {:induction false} SharedIsLoose(f: seq<string>, g: seq<string>)
    requires |f| == |g| && NoneEmpty(f) && NoneEmpty(g) && Joined(f) == Joined(g)
    ensures f == g || IsLoose(f)
  {
    if |f| == 0 {
    } else if |f| == 1 {
      assert f == [f[0]] && g == [g[0]];
    } else {
      var rest, more := Joined(f[1..]), Joined(g[1..]);
      if |f[0]| == |g[0]| {
        FirstBreak(f[0], rest, g[0], more);
        SharedIsLoose(f[1..], g[1..]);
        assert f == [f[0]] + f[1..] && g == [g[0]] + g[1..];
        if IsLoose(f[1..]) { LooseRest(f); }
      } else if |g[0]| < |f[0]| {
        FirstBreak(g[0], more, f[0], rest);
        assert IsLooseAt(f, 0, |g[0]|);
      } else {
        FirstBreak(f[0], rest, g[0], more);
        var k, j := ShiftedHasBreak(g[0][|f[0]| + 1..], f[1..], g[1..]);
        assert IsLooseAt(f, k + 1, j);
      }
    }
  }

  lemma LooseRest(f: seq<string>)
    requires f != [] && IsLoose(f[1..])
    ensures IsLoose(f)
  {
    var k, j :| 0 <= k < |f[1..]| && 0 <= j < |f[1..][k]| && IsLooseAt(f[1..], k, j);
    assert IsLooseAt(f, k + 1, j);
  }

  // ---- Grants ---------------------------------------------------------------------------------

  const HEAD := "kdna.envelope.external-grant\n0.1.0\n"

  lemma JoinedBetween(p: string, v: string, f: seq<string>, x: string, y: string)
    requires f != []
    ensures Joined([p, v] + f + [x, y]) == (p + "\n" + v + "\n") + Joined(f) + ("\n" + x + "\n" + y)
  {
    assert [p, v][1..] == [v] && [x, y][1..] == [y];
    JoinedSum([p, v], f);
    JoinedSum([p, v] + f, [x, y]);
    assert Joined([p, v]) == p + "\n" + v && Joined([x, y]) == x + "\n" + y;
    var front, end := p + "\n" + v, x + "\n" + y;
    assert front + "\n" + Joined(f) + "\n" + end == (front + "\n") + Joined(f) + ("\n" + end);
  }

  lemma FieldsAreThere(b: Binding)
    requires Data(b).Ok?
    ensures NoneEmpty(Free(b)) && b.manifest.access == "licensed" && b.manifest.profile in {"account", "org"}
  {
    var fields := BindingFields(b.manifest, b.entryName, b.plaintextDigest, b.keyRef, b.issuerKeyId);
    forall k | 0 <= k < 7 ensures Free(b)[k] != "" {
      assert Free(b)[k] == fields[k + 2] && fields[k + 2] in fields;
    }
  }

  lemma FieldsAre(b: Binding)
    ensures BindingFields(b.manifest, b.entryName, b.plaintextDigest, b.keyRef, b.issuerKeyId)
         == [ENVELOPE_PROFILE, CONTRACT_VERSION] + Free(b) + [b.manifest.access, b.manifest.profile]
  {
  }

  lemma HeadIs()
    ensures ENVELOPE_PROFILE + "\n" + CONTRACT_VERSION + "\n" == HEAD
  {
  }

  /** The associated data are all the fields, one a line, for licensed assets of accounts and organizations; no field may be empty. */
  lemma DataExactly(b: Binding, text: string)
    ensures Data(b) == Ok(text) <==>
              && NoneEmpty(Free(b)) && b.manifest.access == "licensed" && b.manifest.profile in {"account", "org"}
              && text == HEAD + Joined(Free(b)) + ("\nlicensed\n" + b.manifest.profile)
  {
    if Data(b).Ok? {
      FieldsAreThere(b);
      DataIs(b);
    } else if NoneEmpty(Free(b)) && b.manifest.access == "licensed" && b.manifest.profile in {"account", "org"} {
      DataIsThere(b);
    }
  }

  lemma DataIsThere(b: Binding)
    requires NoneEmpty(Free(b)) && b.manifest.access == "licensed" && b.manifest.profile in {"account", "org"}
    ensures Data(b).Ok?
  {
    FieldsAre(b);
    var fields := BindingFields(b.manifest, b.entryName, b.plaintextDigest, b.keyRef, b.issuerKeyId);
    forall t | t in fields ensures t != "" {
      var k :| 0 <= k < |fields| && fields[k] == t;
      if 2 <= k < 9 { assert fields[k] == Free(b)[k - 2]; }
    }
  }

  lemma DataIs(b: Binding)
    requires Data(b).Ok?
    ensures Data(b).value == HEAD + Joined(Free(b)) + ("\nlicensed\n" + b.manifest.profile)
  {
    hide BindingFields, Joined, Free;
    HeadIs();
    FieldsAre(b);
    FieldsAreThere(b);
    SevenFree(b);
    JoinedBetween(ENVELOPE_PROFILE, CONTRACT_VERSION, Free(b), b.manifest.access, b.manifest.profile);
  }

  lemma SevenFree(b: Binding)
    ensures |Free(b)| == 7
  {
  }

  lemma SameDataSameParts(b: Binding, c: Binding)
    requires Data(b).Ok? && Data(c) == Data(b)
    ensures c.manifest.profile == b.manifest.profile && Joined(Free(c)) == Joined(Free(b))
  {
    hide Data, Free, Joined;
    FieldsAreThere(b);
    FieldsAreThere(c);
    DataIs(b);
    DataIs(c);
    var text, p, q := Data(b).value, b.manifest.profile, c.manifest.profile;
    assert text[|text| - 1] == p[|p| - 1] == q[|q| - 1];
    SameMiddle(HEAD, Joined(Free(b)), Joined(Free(c)), "\nlicensed\n" + p);
  }

  lemma SameMiddle(head: string, a: string, b: string, end: string)
    requires head + a + end == head + b + end
    ensures a == b
  {
    assert a == (head + a + end)[|head|..|head + a|];
    assert b == (head + b + end)[|head|..|head + b|];
  }

  lemma SameFieldsSameData(b: Binding, c: Binding)
    requires Data(b).Ok? && NoneEmpty(Free(c)) && Joined(Free(c)) == Joined(Free(b))
    requires c.manifest.access == b.manifest.access && c.manifest.profile == b.manifest.profile
    ensures Data(c) == Data(b)
  {
    hide Joined;
    FieldsAreThere(b);
    FieldsAre(c);
    hide BindingFields, Free;
    DataIs(b);
    DataIs(c);
  }

  lemma BindingOf(b: Binding, f: seq<string>) returns (c: Binding)
    requires |f| == 7
    ensures Free(c) == f && c.manifest.access == b.manifest.access && c.manifest.profile == b.manifest.profile
  {
    c := Binding(Manifest(f[0], f[1], f[2], b.manifest.access, b.manifest.profile), f[3], f[4], f[5], f[6]);
  }

  lemma FieldsAreTheBinding(b: Binding, c: Binding)
    requires Free(c) == Free(b) && c.manifest.access == b.manifest.access && c.manifest.profile == b.manifest.profile
    ensures c == b
  {
    assert forall k | 0 <= k < 7 :: Free(c)[k] == Free(b)[k];
    assert Free(c)[0] == Free(b)[0] && Free(c)[1] == Free(b)[1] && Free(c)[2] == Free(b)[2] && Free(c)[3] == Free(b)[3];
    assert Free(c)[4] == Free(b)[4] && Free(c)[5] == Free(b)[5] && Free(c)[6] == Free(b)[6];
  }

  /**
   Another binding has the same associated data exactly when a field has a line break with
   text before it and a field behind it, or with text behind it and a field before it.
   */
  lemma BindingIsSharedExactly(b: Binding)
    requires Data(b).Ok?
    ensures (exists c :: c != b && Data(c) == Data(b)) <==> IsLoose(Free(b))
  {
    hide Data, Free, Joined, IsLoose;
    FieldsAreThere(b);
    if IsLoose(Free(b)) {
      var f := LooseIsShared(Free(b));
      SevenFree(b);
      var c := BindingOf(b, f);
      SameFieldsSameData(b, c);
      assert c != b && Data(c) == Data(b);
    }
    forall c | c != b && Data(c) == Data(b) ensures IsLoose(Free(b)) {
      SharedBindingIsLoose(b, c);
    }
  }

  lemma SharedBindingIsLoose(b: Binding, c: Binding)
    requires Data(b).Ok? && Data(c) == Data(b)
    ensures c == b || IsLoose(Free(b))
  {
    hide Data, Free, Joined, IsLoose;
    SameDataSameParts(b, c);
    FieldsAreThere(b);
    FieldsAreThere(c);
    SevenFree(b);
    SevenFree(c);
    SharedIsLoose(Free(b), Free(c));
    if Free(c) == Free(b) { FieldsAreTheBinding(b, c); }
  }

  /** So a binding with no line break in any field shares its associated data with no other at all. */
  lemma CleanBindingsAreDistinct(b: Binding, c: Binding)
    requires Data(b).Ok? && Data(c) == Data(b) && forall k | 0 <= k < 7 :: '\n' !in Free(b)[k]
    ensures c == b
  {
    hide Data;
    SharedBindingIsLoose(b, c);
  }

  // ---- Protected entries ----------------------------------------------------------------------

  const PROTECTED_HEAD := "kdna.encryption.password\n0.1.0\n"

  /** A line break in the identifier or the version, which may be empty, or in the name with text behind it. */
  predicate IsLooseEntry(m: ProtectedEntry.Manifest, entryName: string) {
    '\n' in m.assetId || '\n' in m.version || exists j | 0 <= j < |entryName| - 1 :: entryName[j] == '\n'
  }

  ghost predicate SameEntryData(m: ProtectedEntry.Manifest, entryName: string, n: ProtectedEntry.Manifest, other: string) {
    other != "" && (n != m || other != entryName) && ProtectedEntry.Aad(other, n) == ProtectedEntry.Aad(entryName, m)
  }

  /** Another protected entry has the same associated data exactly when this one is loose. */
  lemma EntryIsSharedExactly(m: ProtectedEntry.Manifest, entryName: string)
    requires entryName != ""
    ensures (exists n, other :: SameEntryData(m, entryName, n, other)) <==> IsLooseEntry(m, entryName)
  {
    hide SameEntryData, IsLooseEntry;
    if IsLooseEntry(m, entryName) { var n, other := LooseEntryIsShared(m, entryName); }
    forall n, other | SameEntryData(m, entryName, n, other) ensures IsLooseEntry(m, entryName) {
      SharedEntryIsLoose(m, entryName, n, other);
    }
  }

  lemma LooseEntryIsShared(m: ProtectedEntry.Manifest, entryName: string) returns (n: ProtectedEntry.Manifest, other: string)
    requires IsLooseEntry(m, entryName) && entryName != ""
    ensures SameEntryData(m, entryName, n, other)
  {
    EntryData(m, entryName);
    var id, version := m.assetId, m.version;
    if j: nat :| j < |id| && id[j] == '\n' {
      n, other := ProtectedEntry.Manifest(id[..j], id[j + 1..] + "\n" + version), entryName;
      BreakAt(id, j);
      Regrouped(id[..j], id[j + 1..], version, entryName);
    } else if j: nat :| j < |version| && version[j] == '\n' {
      n, other := ProtectedEntry.Manifest(id + "\n" + version[..j], version[j + 1..]), entryName;
      BreakAt(version, j);
      Regrouped(id, version[..j], version[j + 1..], entryName);
    } else {
      var j :| 0 <= j < |entryName| - 1 && entryName[j] == '\n';
      n, other := ProtectedEntry.Manifest(id, version + "\n" + entryName[..j]), entryName[j + 1..];
      BreakAt(entryName, j);
      Regrouped(id, version, entryName[..j], entryName[j + 1..]);
    }
    EntryData(n, other);
  }

  lemma BreakAt(t: string, j: nat)
    requires j < |t| && t[j] == '\n'
    ensures t == t[..j] + "\n" + t[j + 1..]
  {
  }

  /** Four texts with line breaks between them, as three of which the first, the second or the third has one. */
  lemma Regrouped(a: string, b: string, c: string, d: string)
    ensures (a + "\n" + b) + "\n" + (c + "\n" + d) == a + "\n" + ((b + "\n" + c) + "\n" + d)
    ensures a + "\n" + (b + "\n" + (c + "\n" + d)) == a + "\n" + ((b + "\n" + c) + "\n" + d)
  {
  }

  lemma EntryData(m: ProtectedEntry.Manifest, entryName: string)
    ensures ProtectedEntry.Aad(entryName, m) == PROTECTED_HEAD + (m.assetId + "\n" + (m.version + "\n" + entryName))
  {
    assert ProtectedEntry.HEADER.profile + "\n" + ProtectedEntry.HEADER.profileVersion + "\n" == PROTECTED_HEAD;
  }

  lemma SharedEntryIsLoose(m: ProtectedEntry.Manifest, entryName: string, n: ProtectedEntry.Manifest, other: string)
    requires SameEntryData(m, entryName, n, other)
    ensures IsLooseEntry(m, entryName)
  {
    EntryData(m, entryName);
    EntryData(n, other);
    hide ProtectedEntry.Aad;
    var rest, more := m.version + "\n" + entryName, n.version + "\n" + other;
    SameMiddle(PROTECTED_HEAD, m.assetId + "\n" + rest, n.assetId + "\n" + more, "");
    if |n.assetId| < |m.assetId| {
      FirstBreak(n.assetId, more, m.assetId, rest);
    } else {
      FirstBreak(m.assetId, rest, n.assetId, more);
      if |n.assetId| == |m.assetId| {
        SecondBreak(m.version, entryName, n.version, other);
      } else {
        var left := n.assetId[|m.assetId| + 1..];
        assert left + "\n" + more == (left + "\n" + n.version) + "\n" + other;
        assert (left + "\n" + n.version)[|left|] == '\n';
        SecondBreak(m.version, entryName, left + "\n" + n.version, other);
      }
    }
  }

  lemma SecondBreak(a: string, x: string, b: string, y: string)
    requires a + "\n" + x == b + "\n" + y && y != ""
    ensures (a == b && x == y) || '\n' in a || exists j | 0 <= j < |x| - 1 :: x[j] == '\n'
  {
    if |b| < |a| {
      FirstBreak(b, y, a, x);
    } else {
      FirstBreak(a, x, b, y);
      if |a| < |b| { assert x[|b| - |a| - 1] == '\n'; }
    }
  }
}
