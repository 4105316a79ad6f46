/**
 Publication to a write-once registry. Runs look a version up, publish it or find it
 there, and check the dist-tags, while other publishers and retries do the same.
 */
module Publication {
  import opened Bytes

  datatype Channel = Core | Stable | Preview

  datatype Coordinate = Coordinate(name: string, version: string)

  datatype Record = Record(integrity: string, shasum: string, gitHead: string)

  /** What the release evidence says of the package. */
  datatype Expected = Expected(coordinate: Coordinate, record: Record)

  type Versions = map<Coordinate, Record>

  type Tags = map<string, string>

  const LATEST := "latest"

  const PREVIEW_TAG := "browser-preview"

  function DistTag(channel: Channel): string { if channel == Preview then PREVIEW_TAG else LATEST }

  // ---- Registry lookups -------------------------------------------------------------------

  datatype Document =
    | ErrorDocument(code: string, summary: string, detail: string)
    | Metadata(fields: map<string, string>)
    | Unreadable

  /** What the lookup command leaves: an error, a status, standard error and a document. */
  datatype Response = Response(failed: bool, status: int, stderr: string, document: Document)

  datatype Decision = Publish | SkipIdentical | Refuse

  function Summary(c: Coordinate): string { "No match found for version " + c.version }

  const DETAIL_START := "The requested resource '"

  const DETAIL_END :=
    "' could not be found or you do not have permission to access it."
    + "\n\nNote that you can also install from a\ntarball, folder, http url, or git url."

  function Spec(c: Coordinate): string { c.name + ("@" + c.version) }

  function Detail(c: Coordinate): string { DETAIL_START + (Spec(c) + DETAIL_END) }

  function Fields(c: Coordinate, r: Record): map<string, string> {
    map["name" := c.name, "version" := c.version, "dist.integrity" := r.integrity, "dist.shasum" := r.shasum,
        "gitHead" := r.gitHead]
  }

  function Decide(r: Response, e: Expected): Decision {
    if r.failed || r.stderr != "" then Refuse
    else if r.status == 1 then
      if r.document == ErrorDocument("E404", Summary(e.coordinate), Detail(e.coordinate)) then Publish else Refuse
    else if r.status == 0 && r.document == Metadata(Fields(e.coordinate, e.record)) then SkipIdentical
    else Refuse
  }

  /** What a registry that holds these versions answers about one of them. */
  function Answer(versions: Versions, c: Coordinate): Response {
    if c in versions then Response(false, 0, "", Metadata(Fields(c, versions[c])))
    else Response(false, 1, "", ErrorDocument("E404", Summary(c), Detail(c)))
  }

  lemma FieldsAreExact(c: Coordinate, r: Record, d: Coordinate, s: Record)
    requires Fields(c, r) == Fields(d, s)
    ensures c == d && r == s
  {
    var f, g := Fields(c, r), Fields(d, s);
    assert f["name"] == g["name"] && f["version"] == g["version"] && f["dist.integrity"] == g["dist.integrity"];
    assert f["dist.shasum"] == g["dist.shasum"] && f["gitHead"] == g["gitHead"];
  }

  lemma Unprefixed(prefix: string, a: string, b: string)
    requires prefix + a == prefix + b
    ensures a == b
  {
    assert (prefix + a)[|prefix|..] == a && (prefix + b)[|prefix|..] == b;
  }

  lemma Unsuffixed(a: string, b: string, suffix: string)
    requires a + suffix == b + suffix
    ensures a == b
  {
    assert |a| == |b|;
    assert (a + suffix)[..|a|] == a && (b + suffix)[..|b|] == b;
  }

  lemma AbsenceIsExact(c: Coordinate, d: Coordinate)
    requires Summary(c) == Summary(d) && Detail(c) == Detail(d)
    ensures c == d
  {
    Unprefixed("No match found for version ", c.version, d.version);
    Unprefixed(DETAIL_START, Spec(c) + DETAIL_END, Spec(d) + DETAIL_END);
    Unsuffixed(Spec(c), Spec(d), DETAIL_END);
    Unsuffixed(c.name, d.name, "@" + c.version);
  }

  /**
   A lookup decides to publish exactly when the registry does not hold the version, and to
   skip exactly when it holds the evidence's record; an answer about another version is refused.
   */
  lemma DecisionIsExact(versions: Versions, c: Coordinate, e: Expected)
    ensures Decide(Answer(versions, c), e) == Publish <==> c == e.coordinate && c !in versions
    ensures Decide(Answer(versions, c), e) == SkipIdentical <==> c == e.coordinate && c in versions && versions[c] == e.record
  {
    hide Summary, Detail, Fields;
    if c in versions {
      if Fields(c, versions[c]) == Fields(e.coordinate, e.record) { FieldsAreExact(c, versions[c], e.coordinate, e.record); }
    } else if Summary(c) == Summary(e.coordinate) && Detail(c) == Detail(e.coordinate) {
      AbsenceIsExact(c, e.coordinate);
    }
  }

  // ---- Dist-tags -----------------------------------------------------------------------------

  predicate IsAlnum(c: char) { 'A' <= c <= 'Z' || 'a' <= c <= 'z' || '0' <= c <= '9' }

  predicate IsDigit(c: char) { '0' <= c <= '9' }

  predicate IsTag(t: string) {
    t != "" && IsAlnum(t[0]) && forall k | 0 <= k < |t| :: IsAlnum(t[k]) || t[k] in "._-"
  }

  function Find(t: string, i: nat, c: char): (j: nat)
    requires i <= |t|
    ensures i <= j <= |t| && (j < |t| ==> t[j] == c)
    decreases |t| - i
  {
    if i == |t| || t[i] == c then i else Find(t, i + 1, c)
  }

  predicate IsNumber(t: string) { t != "" && forall k | 0 <= k < |t| :: IsDigit(t[k]) }

  predicate NoLeadingZero(t: string) { t != "" && (t[0] == '0' ==> |t| == 1) }

  /** Three parts between dots. */
  function Parts(t: string): seq<string> {
    var first := Find(t, 0, '.');
    if first == |t| then [t]
    else
      var second := Find(t, first + 1, '.');
      if second == |t| then [t[..first], t[first + 1..]]
      else [t[..first], t[first + 1..second], t[second + 1..]]
  }

  predicate IsTriple(t: string) { |Parts(t)| == 3 && forall p | p in Parts(t) :: IsNumber(p) }

  /** Alphanumeric runs with single dots or hyphens between them. */
  predicate IsSuffix(t: string) {
    && t != "" && IsAlnum(t[0]) && IsAlnum(t[|t| - 1])
    && forall k | 0 <= k < |t| :: IsAlnum(t[k]) || (t[k] in ".-" && k + 1 < |t| && IsAlnum(t[k + 1]))
  }

  predicate IsTagVersion(t: string) {
    var dash := Find(t, 0, '-');
    IsTriple(t[..dash]) && (dash < |t| ==> IsSuffix(t[dash + 1..]))
  }

  function Number(t: string): nat
    requires forall k | 0 <= k < |t| :: IsDigit(t[k])
  {
    if t == "" then 0 else
      assert IsDigit(t[|t| - 1]);
      10 * Number(t[..|t| - 1]) + (t[|t| - 1] as int - '0' as int)
  }

  predicate StableCoordinate(t: string) {
    IsTriple(t) && forall p | p in Parts(t) :: NoLeadingZero(p) && Number(p) <= 0x1f_ffff_ffff_ffff
  }

  predicate ValidTags(tags: Tags) {
    LATEST in tags && forall tag | tag in tags :: IsTag(tag) && IsTagVersion(tags[tag])
  }

  /** Whether these tags are accepted; `published` when the version must be selected. */
  predicate ValidChannel(channel: Channel, tags: Tags, before: Tags, version: string, published: bool) {
    && ValidTags(tags) && ValidTags(before)
    && if channel == Stable
       then StableCoordinate(version) && tags == if published then before[LATEST := version] else before
       else tags[LATEST] == before[LATEST] && (published ==> PREVIEW_TAG in tags && tags[PREVIEW_TAG] == version)
  }

  predicate Selects(read: Option<Tags>, version: string) {
    read.Some? && ValidTags(read.value) && read.value[LATEST] == version
  }

  const ATTEMPTS := 13

  /** The first attempt whose tags select the version; `look` gives what each attempt reads. */
  method AwaitDistTag(look: nat -> Option<Tags>, version: string, attempts: int, delayMs: int)
    returns (observed: Option<Tags>, attempt: nat, sleeps: nat)
    ensures observed.Some? ==>
              && 1 <= attempt <= attempts <= ATTEMPTS && look(attempt) == observed && Selects(observed, version)
              && (forall k: nat | 1 <= k < attempt :: !Selects(look(k), version)) && sleeps == attempt - 1
    ensures observed.None? && 1 <= attempts <= ATTEMPTS && 0 <= delayMs <= 30000 ==>
              (forall k: nat | 1 <= k <= attempts :: !Selects(look(k), version)) && sleeps == attempts - 1
  {
    attempt, sleeps, observed := 1, 0, None;
    if !(1 <= attempts <= ATTEMPTS && 0 <= delayMs <= 30000) { return; }
    while attempt <= attempts
      invariant 1 <= attempt <= attempts + 1
      invariant forall k: nat | 1 <= k < attempt :: !Selects(look(k), version)
      invariant sleeps == if attempt <= attempts then attempt - 1 else attempts - 1
    {
      var tags := look(attempt);
      if tags.Some? && !ValidTags(tags.value) { tags := None; }
      if tags.Some? && tags.value[LATEST] == version { return tags, attempt, sleeps; }
      if attempt < attempts { sleeps := sleeps + 1; }
      attempt := attempt + 1;
    }
  }

  // ---- Runs ------------------------------------------------------------------------------------

  datatype Phase =
    | Started
    | Found(publish: bool)
    | Cleared
    | Uploaded(attempt: nat)
    | Published(tags: Option<Tags>)
    | Skipped(tags: Option<Tags>)
    | Failed

  /** One run of the publisher: its evidence, its channel, and the dist-tags the evidence recorded. */
  datatype Run = Run(expected: Expected, channel: Channel, baseline: Tags, phase: Phase)

  /** The registry, every state its dist-tags have been in, and all the runs. */
  datatype World = World(versions: Versions, tags: Tags, tagStates: set<Tags>, runs: map<nat, Run>)

  datatype Step =
    | Start(run: nat, expected: Expected, channel: Channel, baseline: Tags)
    | Lookup(run: nat, held: Versions, lost: bool)
    | ReadTags(run: nat, seen: Option<Tags>)
    | Upload(run: nat, heard: bool)
    | Crash(run: nat)
    | SomeonePublishes(coordinate: Coordinate, record: Record)
    | SomeoneRetags(tags: Tags)

  predicate IsRunning(w: World, run: nat) { run in w.runs && !w.runs[run].phase.Published? && !w.runs[run].phase.Skipped? }

  /**
   Lookups and tag reads may be old or fail, but they do not invent anything; a version is
   only written where there is none.
   */
  ghost predicate Enabled(w: World, step: Step) {
    match step
    case Start(run, _, _, _) => run !in w.runs
    case Lookup(run, held, _) =>
      IsRunning(w, run) && w.runs[run].phase == Started && forall c | c in held :: c in w.versions && w.versions[c] == held[c]
    case ReadTags(run, seen) =>
      && IsRunning(w, run)
      && (w.runs[run].phase.Uploaded? || (w.runs[run].phase.Found? && w.runs[run].channel != Core))
      && (seen.Some? ==> seen.value in w.tagStates)
    case Upload(run, _) => IsRunning(w, run) && w.runs[run].phase == Cleared
    case Crash(run) => IsRunning(w, run)
    case SomeonePublishes(c, _) => c !in w.versions
    case SomeoneRetags(_) => true
  }

  function AfterLookup(r: Run, d: Decision): Phase {
    if d == Refuse then Failed
    else if r.channel != Core then Found(d == Publish)
    else if d == Publish then Cleared
    else Skipped(None)
  }

  /** The tags before publishing, or the tags that go with a version that is there already. */
  function AfterFirstTags(r: Run, publish: bool, seen: Option<Tags>): Phase {
    if seen.None? || !ValidChannel(r.channel, seen.value, r.baseline, r.expected.coordinate.version, !publish) then Failed
    else if publish then Cleared
    else Skipped(seen)
  }

  function AfterLastTags(r: Run, attempt: nat, seen: Option<Tags>): Phase {
    var version := r.expected.coordinate.version;
    if r.channel == Stable && !Selects(seen, version) then if attempt < ATTEMPTS then Uploaded(attempt + 1) else Failed
    else if seen.Some? && ValidChannel(r.channel, seen.value, r.baseline, version, true) then Published(seen)
    else Failed
  }

  function WithTags(w: World, tags: Tags): World { w.(tags := tags, tagStates := w.tagStates + {tags}) }

  function Moved(w: World, run: nat, phase: Phase): World
    requires run in w.runs
  {
    w.(runs := w.runs[run := w.runs[run].(phase := phase)])
  }

  /** The registry takes a version that it does not hold, and tags it; the publisher may not hear of it. */
  function AfterUpload(w: World, run: nat, heard: bool): World
    requires run in w.runs
  {
    var r := w.runs[run];
    var c := r.expected.coordinate;
    if c in w.versions then Moved(w, run, Failed)
    else
      var u := WithTags(w.(versions := w.versions[c := r.expected.record]), w.tags[DistTag(r.channel) := c.version]);
      Moved(u, run, if !heard then Failed else if r.channel == Core then Published(None) else Uploaded(1))
  }

  ghost function After(w: World, step: Step): World
    requires Enabled(w, step)
  {
    match step
    case Start(run, expected, channel, baseline) => w.(runs := w.runs[run := Run(expected, channel, baseline, Started)])
    case Lookup(run, held, lost) =>
      var r := w.runs[run];
      var decision := if lost then Refuse else Decide(Answer(held, r.expected.coordinate), r.expected);
      Moved(w, run, AfterLookup(r, decision))
    case ReadTags(run, seen) =>
      var r := w.runs[run];
      Moved(w, run, if r.phase.Found? then AfterFirstTags(r, r.phase.publish, seen) else AfterLastTags(r, r.phase.attempt, seen))
    case Upload(run, heard) => AfterUpload(w, run, heard)
    case Crash(run) => Moved(w, run, Failed)
    case SomeonePublishes(c, r) => w.(versions := w.versions[c := r])
    case SomeoneRetags(tags) => WithTags(w, tags)
  }

  ghost predicate IsRun(ws: seq<World>, steps: seq<Step>) {
    && |ws| == |steps| + 1 && ws[0].runs == map[] && ws[0].tags in ws[0].tagStates
    && forall k | 0 <= k < |steps| :: Enabled(ws[k], steps[k]) && ws[k + 1] == After(ws[k], steps[k])
  }

  // ---- What holds in every state ------------------------------------------------------------------

  /** This run has written the version. */
  predicate HasWritten(p: Phase) { p.Uploaded? || p.Published? }

  predicate Holds(versions: Versions, e: Expected) { e.coordinate in versions && versions[e.coordinate] == e.record }

  predicate TagsOf(p: Phase, tags: Tags) { (p.Published? || p.Skipped?) && p.tags == Some(tags) }

  ghost predicate RunHolds(w: World, r: Run) {
    && (HasWritten(r.phase) || r.phase.Skipped? || r.phase == Found(false) ==> Holds(w.versions, r.expected))
    && (r.phase.Uploaded? || r.phase.Found? ==> r.channel != Core)
    && (r.phase.Published? || r.phase.Skipped? ==> (r.phase.tags.None? <==> r.channel == Core))
    && (forall tags | TagsOf(r.phase, tags) ::
         tags in w.tagStates && ValidChannel(r.channel, tags, r.baseline, r.expected.coordinate.version, true))
  }

  /** No two runs have written the same version. */
  ghost predicate OneWriter(w: World) {
    forall i, j | i in w.runs && j in w.runs && i != j && HasWritten(w.runs[i].phase) && HasWritten(w.runs[j].phase) ::
      w.runs[i].expected.coordinate != w.runs[j].expected.coordinate
  }

  ghost predicate Invariant(w: World) {
    (forall i | i in w.runs :: RunHolds(w, w.runs[i])) && OneWriter(w)
  }

  lemma LookupHolds(w: World, step: Step)
    requires Invariant(w) && Enabled(w, step) && step.Lookup?
    ensures RunHolds(w, After(w, step).runs[step.run])
  {
    hide Decide, Answer, ValidChannel;
    var e := w.runs[step.run].expected;
    DecisionIsExact(step.held, e.coordinate, e);
  }

  lemma TagsHold(w: World, step: Step)
    requires Invariant(w) && Enabled(w, step) && step.ReadTags?
    ensures RunHolds(w, After(w, step).runs[step.run])
    ensures HasWritten(After(w, step).runs[step.run].phase) ==> HasWritten(w.runs[step.run].phase)
  {
    hide ValidChannel, Selects, OneWriter;
    assert RunHolds(w, w.runs[step.run]);
  }

  lemma UploadHolds(w: World, step: Step)
    requires Invariant(w) && Enabled(w, step) && step.Upload?
    ensures var u := After(w, step);
            && RunHolds(u, u.runs[step.run]) && Grows(w, u)
            && (HasWritten(u.runs[step.run].phase) ==> u.runs[step.run].expected.coordinate !in w.versions)
  {
    hide ValidChannel, DistTag, OneWriter;
  }

  /** Versions and tag states only join. */
  ghost predicate Grows(w: World, u: World) {
    (forall c | c in w.versions :: c in u.versions && u.versions[c] == w.versions[c]) && w.tagStates <= u.tagStates
  }

  lemma StillHolds(w: World, u: World, r: Run)
    requires RunHolds(w, r) && Grows(w, u)
    ensures RunHolds(u, r)
  {
    hide ValidChannel;
  }

  /** A step moves one run at most, and what held of the others still does. */
  lemma OneRunMoves(w: World, u: World, run: nat)
    requires Invariant(w) && Grows(w, u) && run in u.runs && u.runs == w.runs[run := u.runs[run]] && RunHolds(u, u.runs[run])
    requires HasWritten(u.runs[run].phase) ==>
               || (run in w.runs && w.runs[run].expected == u.runs[run].expected && HasWritten(w.runs[run].phase))
               || u.runs[run].expected.coordinate !in w.versions
    ensures Invariant(u)
  {
    hide ValidChannel;
    forall i | i in u.runs ensures RunHolds(u, u.runs[i]) {
      if i != run { StillHolds(w, u, w.runs[i]); }
    }
    forall i | i in w.runs && HasWritten(w.runs[i].phase) ensures w.runs[i].expected.coordinate in w.versions {
      assert RunHolds(w, w.runs[i]);
    }
    hide RunHolds;
  }

  lemma StepKeeps(w: World, step: Step)
    requires Invariant(w) && Enabled(w, step)
    ensures Invariant(After(w, step)) && Grows(w, After(w, step))
  {
    hide Decide, Answer, ValidChannel, AfterLookup, AfterFirstTags, AfterLastTags, AfterUpload;
    var u := After(w, step);
    match step
    case SomeonePublishes(_, _) => NobodyMoves(w, u);
    case SomeoneRetags(_) => NobodyMoves(w, u);
    case Start(run, _, _, _) => OneRunMoves(w, u, run);
    case Lookup(run, _, _) =>
      LookupHolds(w, step);
      LookupWritesNothing(w, step);
      OneRunMoves(w, u, run);
    case ReadTags(run, _) =>
      TagsHold(w, step);
      OneRunMoves(w, u, run);
    case Upload(run, _) =>
      UploadHolds(w, step);
      UploadMovesItsRun(w, step);
      OneRunMoves(w, u, run);
    case Crash(run) => OneRunMoves(w, u, run);
  }

  lemma LookupWritesNothing(w: World, step: Step)
    requires Enabled(w, step) && step.Lookup?
    ensures !HasWritten(After(w, step).runs[step.run].phase)
  {
    hide Decide, Answer;
  }

  lemma UploadMovesItsRun(w: World, step: Step)
    requires Enabled(w, step) && step.Upload?
    ensures After(w, step).runs == w.runs[step.run := After(w, step).runs[step.run]]
  {
  }

  lemma NobodyMoves(w: World, u: World)
    requires Invariant(w) && Grows(w, u) && u.runs == w.runs
    ensures Invariant(u)
  {
    hide RunHolds;
    forall i | i in u.runs ensures RunHolds(u, u.runs[i]) { StillHolds(w, u, w.runs[i]); }
  }

  lemma {:induction false} EveryState(ws: seq<World>, steps: seq<Step>, k: nat)
    requires IsRun(ws, steps) && k < |ws|
    ensures Invariant(ws[k])
  {
    if k > 0 {
      EveryState(ws, steps, k - 1);
      StepKeeps(ws[k - 1], steps[k - 1]);
    }
  }

  predicate EndedWell(r: Run) { r.phase.Published? || r.phase.Skipped? }

  /**
   However runs, retries, crashes and other publishers interleave: a run that ends in
   published or skip-identical leaves, and finds for ever after, exactly its evidence in the
   registry; on the stable channel it saw the recorded tags with only `latest` moved.
   */
  lemma EndedRunsAreBacked(ws: seq<World>, steps: seq<Step>, k: nat, i: nat)
    requires IsRun(ws, steps) && k < |ws| && i in ws[k].runs && EndedWell(ws[k].runs[i])
    ensures var r := ws[k].runs[i];
            && Holds(ws[k].versions, r.expected)
            && (r.channel == Stable ==>
                 r.phase.tags == Some(r.baseline[LATEST := r.expected.coordinate.version]) && r.phase.tags.value in ws[k].tagStates)
            && (r.channel == Preview ==>
                 && r.phase.tags.Some? && r.phase.tags.value in ws[k].tagStates
                 && LATEST in r.baseline && LATEST in r.phase.tags.value && PREVIEW_TAG in r.phase.tags.value
                 && r.phase.tags.value[LATEST] == r.baseline[LATEST]
                 && r.phase.tags.value[PREVIEW_TAG] == r.expected.coordinate.version)
  {
    EveryState(ws, steps, k);
    var r := ws[k].runs[i];
    if r.channel != Core { assert TagsOf(r.phase, r.phase.tags.value); }
  }

  /** Runs that end well for the same version had the same artifact and commit; only one of them published. */
  lemma EndedRunsAgree(ws: seq<World>, steps: seq<Step>, k: nat, i: nat, j: nat)
    requires IsRun(ws, steps) && k < |ws| && i in ws[k].runs && j in ws[k].runs
    requires EndedWell(ws[k].runs[i]) && EndedWell(ws[k].runs[j])
    requires ws[k].runs[i].expected.coordinate == ws[k].runs[j].expected.coordinate
    ensures ws[k].runs[i].expected == ws[k].runs[j].expected
    ensures ws[k].runs[i].phase.Published? && ws[k].runs[j].phase.Published? ==> i == j
  {
    EveryState(ws, steps, k);
  }

  /** What the registry holds it holds for ever. */
  lemma {:induction false} VersionsAreWrittenOnce(ws: seq<World>, steps: seq<Step>, i: nat, j: nat, c: Coordinate)
    requires IsRun(ws, steps) && i <= j < |ws| && c in ws[i].versions
    ensures c in ws[j].versions && ws[j].versions[c] == ws[i].versions[c]
    decreases j
  {
    if i < j {
      VersionsAreWrittenOnce(ws, steps, i, j - 1, c);
      EveryState(ws, steps, j - 1);
      StepKeeps(ws[j - 1], steps[j - 1]);
    }
  }

  /** A retry after an upload that nobody heard of finds its version and skips it. */
  lemma RetrySkips(w: World, step: Step)
    requires Enabled(w, step) && step.Lookup? && !step.lost && Holds(step.held, w.runs[step.run].expected)
    ensures After(w, step).runs[step.run].phase == if w.runs[step.run].channel == Core then Skipped(None) else Found(false)
  {
    hide Decide, Answer;
    DecisionIsExact(step.held, w.runs[step.run].expected.coordinate, w.runs[step.run].expected);
  }
}
