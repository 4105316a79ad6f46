/** What the registry's answers say, and the texts that are tags and versions. */
module RegistryTexts {
  import opened Bytes
  import opened Publication

  // ---- Answers ------------------------------------------------------------------------------------

  /** The error that the registry gives for a version that it does not have. */
  ghost function NotFound(name: string, version: string): Document {
    ErrorDocument(
      "E404", "No match found for version " + version,
      "The requested resource '" + name + "@" + version
      + "' could not be found or you do not have permission to access it."
      + "\n\nNote that you can also install from a\ntarball, folder, http url, or git url.")
  }

  /** Of all answers one makes a run publish and one makes it skip. */
  lemma DecidesExactly(r: Response, e: Expected)
    ensures Decide(r, e) == Publish <==> r == Response(false, 1, "", NotFound(e.coordinate.name, e.coordinate.version))
    ensures Decide(r, e) == SkipIdentical
            <==> r == Response(false, 0, "", Metadata(map[
                        "name" := e.coordinate.name, "version" := e.coordinate.version, "gitHead" := e.record.gitHead,
                        "dist.integrity" := e.record.integrity, "dist.shasum" := e.record.shasum]))
  {
    var name, version := e.coordinate.name, e.coordinate.version;
    var front := "The requested resource '";
    assert front + name + "@" + version == front + (name + ("@" + version));
    assert Detail(e.coordinate) == NotFound(name, version).detail;
    assert Fields(e.coordinate, e.record) == map[
      "name" := name, "version" := version, "gitHead" := e.record.gitHead,
      "dist.integrity" := e.record.integrity, "dist.shasum" := e.record.shasum];
  }

  // ---- Characters ---------------------------------------------------------------------------------

  const DIGITS := "0123456789"
  const LETTERS := "ABCDEFGHIJKLMNOPQRSTUVWXYZ"
  const SMALL_LETTERS := "abcdefghijklmnopqrstuvwxyz"

  ghost predicate IsOf(t: string, alphabet: string) { t != "" && forall k | 0 <= k < |t| :: t[k] in alphabet }

  /** Characters that follow one another in ASCII. */
  lemma Run(s: string, first: char, c: char)
    requires forall k | 0 <= k < |s| :: s[k] as int == first as int + k
    ensures c in s <==> first as int <= c as int < first as int + |s|
  {
    if first as int <= c as int < first as int + |s| { assert s[c as int - first as int] == c; }
  }

  lemma CharactersAre(c: char)
    ensures IsDigit(c) <==> c in DIGITS
    ensures IsAlnum(c) <==> c in DIGITS + LETTERS + SMALL_LETTERS
  {
    Run(DIGITS, '0', c);
    Run(LETTERS, 'A', c);
    Run(SMALL_LETTERS, 'a', c);
  }

  // ---- Versions -----------------------------------------------------------------------------------

  ghost function Triple(a: string, b: string, c: string): string { a + "." + b + "." + c }

  lemma {:induction false} FoundFrom(a: string, c: char, b: string, i: nat)
    requires i <= |a| && forall k | i <= k < |a| :: a[k] != c
    ensures Find(a + [c] + b, i, c) == |a|
    decreases |a| - i
  {
    if i < |a| {
      assert (a + [c] + b)[i] == a[i];
      FoundFrom(a, c, b, i + 1);
    }
  }

  lemma {:induction false} FoundBehind(front: string, t: string, c: char, i: nat)
    requires i <= |t|
    ensures Find(front + t, |front| + i, c) == |front| + Find(t, i, c)
    decreases |t| - i
  {
    if i < |t| {
      assert (front + t)[|front| + i] == t[i];
      FoundBehind(front, t, c, i + 1);
    }
  }

  lemma TripleParts(a: string, b: string, c: string)
    requires '.' !in a && '.' !in b
    ensures Parts(Triple(a, b, c)) == [a, b, c]
  {
    var t, rest := Triple(a, b, c), b + "." + c;
    assert t == a + ['.'] + rest && t == (a + ".") + rest && rest == b + ['.'] + c;
    FoundFrom(a, '.', rest, 0);
    FoundFrom(b, '.', c, 0);
    FoundBehind(a + ".", rest, '.', 0);
    assert t[..|a|] == a && t[|a| + 1..|a| + 1 + |b|] == b && t[|a| + 1 + |b| + 1..] == c;
  }

  lemma PartsMakeTheText(t: string)
    requires |Parts(t)| == 3
    ensures t == Triple(Parts(t)[0], Parts(t)[1], Parts(t)[2])
  {
    var first := Find(t, 0, '.');
    var second := Find(t, first + 1, '.');
    assert t == t[..first] + ["."[0]] + t[first + 1..second] + ["."[0]] + t[second + 1..];
  }

  ghost predicate IsDigits(t: string) { IsOf(t, DIGITS) }

  lemma NumbersAre(t: string)
    ensures IsNumber(t) <==> IsDigits(t)
  {
    forall c: char ensures IsDigit(c) <==> c in DIGITS { CharactersAre(c); }
  }

  ghost predicate IsNumbers(t: string) {
    exists a, b, c :: IsDigits(a) && IsDigits(b) && IsDigits(c) && t == Triple(a, b, c)
  }

  lemma TriplesAre(t: string)
    ensures IsTriple(t) <==> IsNumbers(t)
  {
    hide Parts;
    forall p ensures IsNumber(p) <==> IsDigits(p) { NumbersAre(p); }
    forall a, b, c | IsDigits(a) && IsDigits(b) && IsDigits(c) && t == Triple(a, b, c) ensures IsTriple(t) {
      TripleParts(a, b, c);
    }
    if IsTriple(t) {
      PartsMakeTheText(t);
      var p := Parts(t);
      assert IsDigits(p[0]) && IsDigits(p[1]) && IsDigits(p[2]);
    }
  }

  // ---- Stable versions ----------------------------------------------------------------------------

  ghost function Decimal(n: nat): string { if n < 10 then [Digit(n)] else Decimal(n / 10) + [Digit(n % 10)] }

  ghost function Digit(n: nat): char
    requires n < 10
  {
    DIGITS[n]
  }

  lemma DigitIs(n: nat)
    requires n < 10
    ensures Digit(n) as int == '0' as int + n && IsDigit(Digit(n))
  {
  }

  lemma {:induction false} DecimalIsRead(n: nat)
    ensures IsNumber(Decimal(n)) && NoLeadingZero(Decimal(n)) && Number(Decimal(n)) == n
    ensures n > 0 ==> Decimal(n)[0] != '0'
    decreases n
  {
    var t := Decimal(n);
    DigitIs(n % 10);
    if n < 10 {
      assert t[..0] == "";
    } else {
      var front := Decimal(n / 10);
      DecimalIsRead(n / 10);
      assert t[..|t| - 1] == front;
    }
  }

  lemma {:induction false} NumberIsWritten(t: string)
    requires IsNumber(t) && NoLeadingZero(t)
    ensures t == Decimal(Number(t)) && (t[0] != '0' ==> Number(t) > 0)
    decreases |t|
  {
    hide Digit, Decimal, Number, IsDigit;
    var front := t[..|t| - 1];
    var d := CutLastDigit(t);
    if front == "" {
      LastDigit(0, d);
    } else {
      NumberIsWritten(front);
      LastDigit(Number(front), d);
    }
  }

  lemma CutLastDigit(t: string) returns (d: nat)
    requires IsNumber(t) && NoLeadingZero(t)
    ensures IsNumber(t[..|t| - 1]) || |t| == 1
    ensures d < 10 && t == t[..|t| - 1] + [Digit(d)] && Number(t) == 10 * Number(t[..|t| - 1]) + d
    ensures |t| == 1 ==> Number(t[..|t| - 1]) == 0 && (t[0] != '0' ==> d > 0)
    ensures |t| > 1 ==> NoLeadingZero(t[..|t| - 1]) && t[..|t| - 1][0] == t[0] != '0'
  {
    hide Digit;
    var last := t[|t| - 1];
    assert IsDigit(last);
    d := last as int - '0' as int;
    DigitIs(d);
    assert t == t[..|t| - 1] + [last];
  }

  lemma LastDigit(n: nat, d: nat)
    requires d < 10
    ensures Decimal(10 * n + d) == (if n == 0 then "" else Decimal(n)) + [Digit(d)]
  {
    hide Digit;
  }

  const LARGEST := 9007199254740991

  /** Three decimal numbers without leading zeros, none of them above the largest safe integer. */
  lemma StableVersionsAre(t: string)
    ensures StableCoordinate(t) <==>
              exists a: nat, b: nat, c: nat ::
                a <= LARGEST && b <= LARGEST && c <= LARGEST && t == Triple(Decimal(a), Decimal(b), Decimal(c))
  {
    hide Parts, Decimal, Number;
    forall a: nat, b: nat, c: nat
      | a <= LARGEST && b <= LARGEST && c <= LARGEST && t == Triple(Decimal(a), Decimal(b), Decimal(c))
      ensures StableCoordinate(t)
    {
      DecimalIsRead(a);
      DecimalIsRead(b);
      DecimalIsRead(c);
      TripleParts(Decimal(a), Decimal(b), Decimal(c));
    }
    if StableCoordinate(t) {
      PartsMakeTheText(t);
      var p := Parts(t);
      assert IsNumber(p[0]) && IsNumber(p[1]) && IsNumber(p[2]);
      NumberIsWritten(p[0]);
      NumberIsWritten(p[1]);
      NumberIsWritten(p[2]);
    }
  }

  // ---- Tagged versions ----------------------------------------------------------------------------

  ghost predicate IsRun(t: string) { IsOf(t, DIGITS + LETTERS + SMALL_LETTERS) }

  /** Runs of letters and digits, with a dot or a hyphen between one and the next. */
  ghost predicate AreRuns(t: string) {
    IsRun(t) || exists k | 0 <= k < |t| :: StartsAt(t, k) && AreRuns(t[k + 1..])
  }

  ghost predicate StartsAt(t: string, k: nat)
    requires k < |t|
  {
    IsRun(t[..k]) && (t[k] == '.' || t[k] == '-')
  }

  lemma {:induction false} SuffixesAre(t: string)
    ensures IsSuffix(t) <==> AreRuns(t)
    decreases |t|
  {
    hide IsRun, IsAlnum, IsSuffix;
    RunsAreSuffixes(t);
    forall k | 0 <= k < |t| && StartsAt(t, k) ensures IsSuffix(t) <==> AreRuns(t[k + 1..]) {
      SuffixesAre(t[k + 1..]);
      SuffixBehind(t, k);
    }
    if IsSuffix(t) && !IsRun(t) { FirstMark(t); }
  }

  lemma RunsAre(t: string)
    ensures IsRun(t) <==> t != "" && forall k | 0 <= k < |t| :: IsAlnum(t[k])
  {
    forall c: char ensures IsAlnum(c) <==> c in DIGITS + LETTERS + SMALL_LETTERS { CharactersAre(c); }
  }

  lemma RunsAreSuffixes(t: string)
    ensures IsRun(t) ==> IsSuffix(t)
  {
    RunsAre(t);
  }

  lemma SuffixBehind(t: string, k: nat)
    requires k < |t| && StartsAt(t, k)
    ensures IsSuffix(t) <==> IsSuffix(t[k + 1..])
  {
    hide IsAlnum, IsRun;
    RunsAre(t[..k]);
    MarksAreNotAlnum();
    var rest := t[k + 1..];
    assert forall j | 0 <= j < k :: t[j] == t[..k][j];
    assert forall j | k < j < |t| :: t[j] == rest[j - k - 1];
    assert forall j | 0 <= j < |rest| :: rest[j] == t[k + 1 + j];
    assert IsSuffix(t) ==> IsAlnum(t[k + 1]);
  }

  lemma MarksAreNotAlnum()
    ensures !IsAlnum('.') && !IsAlnum('-')
  {
  }

  /** The first character that is not of a run. */
  lemma FirstMark(t: string)
    requires IsSuffix(t) && !IsRun(t)
    ensures exists k | 0 <= k < |t| :: StartsAt(t, k)
  {
    hide IsAlnum, IsRun;
    RunsAre(t);
    var k: nat :| k < |t| && !IsAlnum(t[k]);
    var first := FirstOther(t, k);
    RunsAre(t[..first]);
    assert StartsAt(t, first);
  }

  lemma {:induction false} FirstOther(t: string, k: nat) returns (first: nat)
    requires k < |t| && !IsAlnum(t[k])
    ensures first <= k && !IsAlnum(t[first]) && forall j | 0 <= j < first :: IsAlnum(t[j])
    decreases k
  {
    first := k;
    if j: nat :| j < k && !IsAlnum(t[j]) { first := FirstOther(t, j); }
  }

  /** Three numbers, and perhaps a hyphen and runs behind them. */
  ghost predicate IsTaggedVersion(t: string) {
    exists core :: IsNumbers(core) && (t == core || exists suffix :: t == core + "-" + suffix && AreRuns(suffix))
  }

  lemma TaggedVersionsAre(t: string)
    ensures IsTagVersion(t) <==> IsTaggedVersion(t)
  {
    hide IsSuffix, AreRuns, IsTriple, IsNumbers;
    forall core ensures IsTriple(core) <==> IsNumbers(core) { TriplesAre(core); }
    forall s ensures IsSuffix(s) <==> AreRuns(s) { SuffixesAre(s); }
    forall core | IsTriple(core) ensures '-' !in core { TripleHasNoHyphen(core); }
    var dash := Find(t, 0, '-');
    if IsTagVersion(t) {
      assert dash == |t| ==> t[..dash] == t;
      assert dash < |t| ==> t == t[..dash] + "-" + t[dash + 1..];
    }
    forall core | IsTriple(core) && (t == core || exists suffix :: t == core + "-" + suffix && AreRuns(suffix))
      ensures IsTagVersion(t)
    {
      if t == core {
        NotFoundFrom(t, '-', 0);
      } else {
        var suffix :| t == core + "-" + suffix && AreRuns(suffix);
        FoundFrom(core, '-', suffix, 0);
        assert t == core + ['-'] + suffix && t[|core| + 1..] == suffix;
      }
      assert t[..dash] == core;
    }
  }

  lemma {:induction false} NotFoundFrom(t: string, c: char, i: nat)
    requires i <= |t| && c !in t
    ensures Find(t, i, c) == |t|
    decreases |t| - i
  {
    if i < |t| { NotFoundFrom(t, c, i + 1); }
  }

  lemma TripleHasNoHyphen(t: string)
    requires IsTriple(t)
    ensures '-' !in t
  {
    PartsMakeTheText(t);
    var p := Parts(t);
    hide Parts;
    assert IsNumber(p[0]) && IsNumber(p[1]) && IsNumber(p[2]);
  }

  // ---- Tags ---------------------------------------------------------------------------------------

  /** Letters, digits, dots, underscores and hyphens, the first of them a letter or a digit. */
  ghost predicate IsTagName(t: string) {
    t != "" && IsRun(t[..1]) && IsOf(t, DIGITS + LETTERS + SMALL_LETTERS + "._-")
  }

  lemma TagNamesAre(t: string)
    ensures IsTag(t) <==> IsTagName(t)
  {
    hide IsAlnum;
    forall c: char ensures IsAlnum(c) <==> c in DIGITS + LETTERS + SMALL_LETTERS { CharactersAre(c); }
    var marks := "._-";
    assert forall c | c in marks :: c == '.' || c == '_' || c == '-';
  }

  /** Tags are accepted when there is a `latest` and all of them name versions. */
  lemma TagsAre(tags: Tags)
    ensures ValidTags(tags) <==> "latest" in tags && forall tag | tag in tags :: IsTagName(tag) && IsTaggedVersion(tags[tag])
  {
    hide IsTag, IsTagName, IsTagVersion, IsTaggedVersion;
    forall t ensures (IsTag(t) <==> IsTagName(t)) && (IsTagVersion(t) <==> IsTaggedVersion(t)) {
      TagNamesAre(t);
      TaggedVersionsAre(t);
    }
  }

  /** Which tags a run accepts, before its upload and behind it. */
  lemma ChannelsAre(channel: Channel, tags: Tags, before: Tags, version: string, published: bool)
    requires ValidTags(tags) && ValidTags(before)
    ensures channel == Stable ==>
              (ValidChannel(channel, tags, before, version, published) <==>
                 StableCoordinate(version) && tags.Keys == before.Keys && tags["latest"] == (if published then version else before["latest"])
                 && forall tag | tag in before && tag != "latest" :: tags[tag] == before[tag])
    ensures channel != Stable ==>
              (ValidChannel(channel, tags, before, version, published) <==>
                 tags["latest"] == before["latest"]
                 && (published ==> "browser-preview" in tags && tags["browser-preview"] == version))
  {
    hide StableCoordinate, IsTag, IsTagVersion;
    if channel == Stable && tags.Keys == before.Keys && (forall tag | tag in before && tag != "latest" :: tags[tag] == before[tag]) {
      var expected := if published then before["latest" := version] else before;
      assert tags["latest"] == expected["latest"] ==> tags == expected;
    }
  }
}
