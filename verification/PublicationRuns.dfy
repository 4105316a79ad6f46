/** What leads a publisher's run to upload, and that nothing keeps one back that meets no obstacle. */
module PublicationRuns {
  import opened Bytes
  import opened Publication

  // ---- What an upload needs ------------------------------------------------------------------

  /** The registry did not hold the version when the run looked. */
  ghost predicate LookedAt(ws: seq<World>, steps: seq<Step>, i: int, run: nat, e: Expected) {
    && 0 <= i < |steps| && steps[i].Lookup? && steps[i].run == run && !steps[i].lost && e.coordinate !in steps[i].held
  }

  /** The tags were those that the evidence recorded: all of them, or, for a preview, `latest`. */
  ghost predicate SawAsRecorded(r: Run, seen: Option<Tags>) {
    && seen.Some? && ValidTags(seen.value) && ValidTags(r.baseline)
    && (r.channel == Stable ==> seen.value == r.baseline && StableCoordinate(r.expected.coordinate.version))
    && seen.value["latest"] == r.baseline["latest"]
  }

  ghost predicate SawAt(ws: seq<World>, steps: seq<Step>, j: int, run: nat, r: Run) {
    && 0 <= j < |steps| && steps[j].ReadTags? && steps[j].run == run && SawAsRecorded(r, steps[j].seen)
  }

  /** How a run came to its phase: with a lookup, and with the tags as recorded, or it uses no tags. */
  ghost predicate CameAbout(ws: seq<World>, steps: seq<Step>, k: nat, run: nat, r: Run) {
    match r.phase
    case Found(true) => exists i :: i < k && LookedAt(ws, steps, i, run, r.expected)
    case Cleared => WasCleared(ws, steps, k, run, r)
    case Uploaded(_) => WasCleared(ws, steps, k, run, r)
    case Published(_) => WasCleared(ws, steps, k, run, r)
    case _ => true
  }

  ghost predicate WasCleared(ws: seq<World>, steps: seq<Step>, k: nat, run: nat, r: Run) {
    if r.channel == Core then exists i :: i < k && LookedAt(ws, steps, i, run, r.expected)
    else exists i, j :: i < j < k && LookedAt(ws, steps, i, run, r.expected) && SawAt(ws, steps, j, run, r)
  }

  lemma LaterCameAbout(ws: seq<World>, steps: seq<Step>, k: nat, run: nat, r: Run)
    requires CameAbout(ws, steps, k, run, r)
    ensures CameAbout(ws, steps, k + 1, run, r)
  {
    hide LookedAt, SawAt;
  }

  lemma LookupCame(ws: seq<World>, steps: seq<Step>, n: nat, run: nat, r: Run)
    requires n < |steps| && |ws| > n && steps[n].Lookup? && steps[n].run == run && Enabled(ws[n], steps[n])
    requires run in ws[n].runs && r == After(ws[n], steps[n]).runs[run]
    ensures CameAbout(ws, steps, n + 1, run, r)
  {
    hide Decide, Answer;
    var step := steps[n];
    DecisionIsExact(step.held, r.expected.coordinate, r.expected);
    if !step.lost && r.expected.coordinate !in step.held { assert LookedAt(ws, steps, n, run, r.expected); }
  }

  lemma TagsCame(ws: seq<World>, steps: seq<Step>, n: nat, run: nat, r: Run)
    requires n < |steps| && |ws| > n && steps[n].ReadTags? && steps[n].run == run && Enabled(ws[n], steps[n])
    requires r == After(ws[n], steps[n]).runs[run] && CameAbout(ws, steps, n, run, ws[n].runs[run])
    requires ws[n].runs[run].phase.Found? ==> r.channel != Core
    ensures CameAbout(ws, steps, n + 1, run, r)
  {
    hide LookedAt, ValidTags, StableCoordinate;
    var was := ws[n].runs[run];
    LaterCameAbout(ws, steps, n, run, was);
    if was.phase == Found(true) && r.phase == Cleared {
      assert SawAt(ws, steps, n, run, r);
      var i :| i < n && LookedAt(ws, steps, i, run, r.expected);
    }
    SameRunCame(ws, steps, n + 1, run, was, r);
  }

  /** The phases from clearance on have the same history. */
  lemma SameRunCame(ws: seq<World>, steps: seq<Step>, k: nat, run: nat, was: Run, r: Run)
    requires CameAbout(ws, steps, k, run, was) && r == was.(phase := r.phase)
    ensures (was.phase.Cleared? || was.phase.Uploaded?) && (r.phase.Uploaded? || r.phase.Published?) ==> CameAbout(ws, steps, k, run, r)
  {
    hide LookedAt, ValidTags, StableCoordinate;
    if (was.phase.Cleared? || was.phase.Uploaded?) && was.channel != Core {
      var i, j :| i < j < k && LookedAt(ws, steps, i, run, was.expected) && SawAt(ws, steps, j, run, was);
      assert SawAt(ws, steps, j, run, r);
    }
  }

  lemma UploadCame(ws: seq<World>, steps: seq<Step>, n: nat, run: nat, r: Run)
    requires n < |steps| && |ws| > n && steps[n].Upload? && steps[n].run == run && Enabled(ws[n], steps[n])
    requires r == After(ws[n], steps[n]).runs[run] && CameAbout(ws, steps, n, run, ws[n].runs[run])
    ensures CameAbout(ws, steps, n + 1, run, r)
  {
    hide WasCleared, DistTag;
    LaterCameAbout(ws, steps, n, run, ws[n].runs[run]);
    SameRunCame(ws, steps, n + 1, run, ws[n].runs[run], r);
    if r.phase.Failed? { NothingCame(ws, steps, n + 1, run, r); }
  }

  lemma {:induction false} HowItCame(ws: seq<World>, steps: seq<Step>, k: nat, run: nat)
    requires IsRun(ws, steps) && k < |ws| && run in ws[k].runs
    ensures CameAbout(ws, steps, k, run, ws[k].runs[run])
  {
    hide CameAbout, Decide, Answer, AfterLookup, AfterFirstTags, AfterLastTags, DistTag;
    if k > 0 {
      var w, step := ws[k - 1], steps[k - 1];
      assert Enabled(w, step) && ws[k] == After(w, step);
      EveryState(ws, steps, k - 1);
      var r := ws[k].runs[run];
      if run in w.runs { HowItCame(ws, steps, k - 1, run); }
      if run in w.runs && r == w.runs[run] {
        LaterCameAbout(ws, steps, k - 1, run, r);
      } else {
        match step
        case Lookup(_, _, _) => LookupCame(ws, steps, k - 1, run, r);
        case ReadTags(_, _) =>
          assert RunHolds(w, w.runs[run]);
          TagsCame(ws, steps, k - 1, run, r);
        case Upload(_, _) => UploadCame(ws, steps, k - 1, run, r);
        case _ => NothingCame(ws, steps, k, run, r);
      }
    }
  }

  lemma NothingCame(ws: seq<World>, steps: seq<Step>, k: nat, run: nat, r: Run)
    requires r.phase.Started? || r.phase.Failed?
    ensures CameAbout(ws, steps, k, run, r)
  {
  }

  /**
   In every run of the system, who uploads has looked the version up before, and it was not
   there; and then, unless it is Core, has seen the tags as the evidence recorded them.
   */
  lemma UploadsWereCleared(ws: seq<World>, steps: seq<Step>, n: nat)
    requires IsRun(ws, steps) && n < |steps| && steps[n].Upload?
    ensures steps[n].run in ws[n].runs && WasCleared(ws, steps, n, steps[n].run, ws[n].runs[steps[n].run])
  {
    hide After, WasCleared;
    assert Enabled(ws[n], steps[n]);
    HowItCame(ws, steps, n, steps[n].run);
  }

  /** Who has published, or waits for the tags, has heard that its upload went through. */
  lemma {:induction false} UploadsWereHeard(ws: seq<World>, steps: seq<Step>, k: nat, run: nat)
    requires IsRun(ws, steps) && k < |ws| && run in ws[k].runs && HasWritten(ws[k].runs[run].phase)
    ensures exists n :: 0 <= n < k <= |steps| && steps[n] == Upload(run, true)
  {
    hide After, Enabled, IsRun;
    RunLength(ws, steps);
    if k > 0 {
      RunStep(ws, steps, k - 1);
      HeardNow(ws[k - 1], steps[k - 1], run);
      if steps[k - 1] != Upload(run, true) { UploadsWereHeard(ws, steps, k - 1, run); }
    } else {
      RunStart(ws, steps);
    }
  }

  lemma HeardNow(w: World, step: Step, run: nat)
    requires Enabled(w, step) && run in After(w, step).runs && HasWritten(After(w, step).runs[run].phase)
    ensures step == Upload(run, true) || (run in w.runs && HasWritten(w.runs[run].phase))
  {
    hide Decide, Answer, ValidChannel, Selects, DistTag;
  }

  // ---- A run with no obstacle ---------------------------------------------------------------------

  /** The steps of a run that nothing interferes with, from its start to its last look at the tags. */
  ghost function Steps(w: World, run: nat, e: Expected, channel: Channel): seq<Step> {
    var tags := w.tags[DistTag(channel) := e.coordinate.version];
    if channel == Core then [Start(run, e, channel, w.tags), Lookup(run, w.versions, false), Upload(run, true)]
    else
      [Start(run, e, channel, w.tags), Lookup(run, w.versions, false), ReadTags(run, Some(w.tags)), Upload(run, true),
       ReadTags(run, Some(tags))]
  }

  /** One step after the other, each of them enabled. */
  ghost predicate LeadsTo(w: World, steps: seq<Step>, u: World)
    decreases |steps|
  {
    if steps == [] then u == w else Enabled(w, steps[0]) && LeadsTo(After(w, steps[0]), steps[1..], u)
  }

  /** The version is free, the tags are valid and will be, and a stable version is a plain one. */
  ghost predicate IsFree(w: World, run: nat, e: Expected, channel: Channel) {
    && run !in w.runs && e.coordinate !in w.versions && w.tags in w.tagStates
    && (channel != Core ==> ValidTags(w.tags) && ValidTags(w.tags[DistTag(channel) := e.coordinate.version]))
    && (channel == Stable ==> StableCoordinate(e.coordinate.version))
  }

  /** What the run leaves: its version with its record, and the tag of its channel on it, and everything else as it was. */
  ghost function Left(w: World, run: nat, e: Expected, channel: Channel): World {
    var tags := w.tags[(if channel == Preview then "browser-preview" else "latest") := e.coordinate.version];
    World(w.versions[e.coordinate := e.record], tags, w.tagStates + {tags},
          w.runs[run := Run(e, channel, w.tags, Published(if channel == Core then None else Some(tags)))])
  }

  /** After the lookup the run is cleared, or asks for the tags. */
  ghost function Looked(w: World, run: nat, e: Expected, channel: Channel): World {
    w.(runs := w.runs[run := Run(e, channel, w.tags, if channel == Core then Cleared else Found(true))])
  }

  lemma FreeVersionIsLookedUp(w: World, run: nat, e: Expected, channel: Channel)
    requires IsFree(w, run, e, channel)
    ensures var steps := Steps(w, run, e, channel);
            && Enabled(w, steps[0]) && Enabled(After(w, steps[0]), steps[1])
            && After(After(w, steps[0]), steps[1]) == Looked(w, run, e, channel)
  {
    hide Decide, Answer, ValidTags, StableCoordinate;
    DecisionIsExact(w.versions, e.coordinate, e);
  }

  lemma CoreIsPublished(w: World, run: nat, e: Expected)
    requires IsFree(w, run, e, Core)
    ensures var b := Looked(w, run, e, Core);
            Enabled(b, Upload(run, true)) && After(b, Upload(run, true)) == Left(w, run, e, Core)
  {
    hide ValidTags;
    TagNames();
  }

  lemma OtherIsPublished(w: World, run: nat, e: Expected, channel: Channel)
    requires IsFree(w, run, e, channel) && channel != Core
    ensures var b, tags := Looked(w, run, e, channel), w.tags[DistTag(channel) := e.coordinate.version];
            && Enabled(b, ReadTags(run, Some(w.tags)))
            && var c := After(b, ReadTags(run, Some(w.tags)));
               && Enabled(c, Upload(run, true))
               && var d := After(c, Upload(run, true));
                  Enabled(d, ReadTags(run, Some(tags))) && After(d, ReadTags(run, Some(tags))) == Left(w, run, e, channel)
  {
    hide ValidTags, StableCoordinate;
    TagNames();
    TagsAreThere(w.tags);
  }

  lemma TagsAreThere(tags: Tags)
    ensures ValidTags(tags) ==> LATEST in tags
  {
  }

  /** Nothing keeps such a run from publishing. */
  lemma FreeVersionIsPublished(w: World, run: nat, e: Expected, channel: Channel)
    requires IsFree(w, run, e, channel)
    ensures LeadsTo(w, Steps(w, run, e, channel), Left(w, run, e, channel))
  {
    hide Enabled, After, Looked, Left, DistTag, IsFree;
    FreeVersionIsLookedUp(w, run, e, channel);
    var steps, b := Steps(w, run, e, channel), Looked(w, run, e, channel);
    if channel == Core {
      CoreIsPublished(w, run, e);
      Leads(b, [steps[2]], Left(w, run, e, channel));
      assert steps[1..][1..] == [steps[2]];
    } else {
      OtherIsPublished(w, run, e, channel);
      var c := After(b, steps[2]);
      var d := After(c, steps[3]);
      Leads(d, [steps[4]], Left(w, run, e, channel));
      assert [steps[3], steps[4]][1..] == [steps[4]] && [steps[2], steps[3], steps[4]][1..] == [steps[3], steps[4]];
      assert LeadsTo(c, [steps[3], steps[4]], Left(w, run, e, channel));
      assert LeadsTo(b, [steps[2], steps[3], steps[4]], Left(w, run, e, channel));
      assert steps[1..][1..] == [steps[2], steps[3], steps[4]];
    }
    assert LeadsTo(After(w, steps[0]), steps[1..], Left(w, run, e, channel));
  }

  lemma Leads(w: World, steps: seq<Step>, u: World)
    requires |steps| == 1 && Enabled(w, steps[0]) && After(w, steps[0]) == u
    ensures LeadsTo(w, steps, u)
  {
    hide Enabled, After;
    assert steps[1..] == [];
  }

  lemma TagNames()
    ensures DistTag(Preview) == "browser-preview" && DistTag(Stable) == DistTag(Core) == "latest" && DistTag(Preview) != DistTag(Core)
  {
    assert |DistTag(Preview)| == 15;
  }

  // ---- Waiting for the registry -------------------------------------------------------------------

  /** In every run, the tags are read for one of thirteen attempts. */
  lemma {:induction false} AttemptsAreBounded(ws: seq<World>, steps: seq<Step>, k: nat, run: nat)
    requires IsRun(ws, steps) && k < |ws| && run in ws[k].runs && ws[k].runs[run].phase.Uploaded?
    ensures 1 <= ws[k].runs[run].phase.attempt <= 13
  {
    hide After, Enabled, IsRun;
    RunLength(ws, steps);
    if k > 0 {
      RunStep(ws, steps, k - 1);
      OneMoreAttempt(ws[k - 1], steps[k - 1], run);
      if run in ws[k - 1].runs && ws[k - 1].runs[run].phase.Uploaded? { AttemptsAreBounded(ws, steps, k - 1, run); }
    } else {
      RunStart(ws, steps);
    }
  }

  lemma OneMoreAttempt(w: World, step: Step, run: nat)
    requires Enabled(w, step) && run in After(w, step).runs && After(w, step).runs[run].phase.Uploaded?
    ensures var attempt := After(w, step).runs[run].phase.attempt;
            || attempt == 1
            || (&& run in w.runs && w.runs[run].phase.Uploaded?
                && (attempt == w.runs[run].phase.attempt || attempt == w.runs[run].phase.attempt + 1 <= 13))
  {
    hide Decide, Answer, ValidChannel, Selects, DistTag;
  }

  lemma RunStep(ws: seq<World>, steps: seq<Step>, k: nat)
    requires IsRun(ws, steps) && k < |steps|
    ensures k + 1 < |ws| && Enabled(ws[k], steps[k]) && ws[k + 1] == After(ws[k], steps[k])
  {
    hide Enabled, After;
  }

  lemma RunLength(ws: seq<World>, steps: seq<Step>)
    requires IsRun(ws, steps)
    ensures |ws| == |steps| + 1
  {
  }

  lemma RunStart(ws: seq<World>, steps: seq<Step>)
    requires IsRun(ws, steps)
    ensures ws[0].runs == map[]
  {
  }

  ghost predicate HaveVersion(seen: Option<Tags>, version: string) {
    seen.Some? && ValidTags(seen.value) && seen.value["latest"] == version
  }

  /** Where a run is after these reads of the tags. */
  ghost function Awaited(r: Run, attempt: nat, observed: seq<Option<Tags>>): Phase
    decreases |observed|
  {
    if observed == [] then Uploaded(attempt)
    else
      var next := AfterLastTags(r, attempt, observed[0]);
      if next.Uploaded? then Awaited(r, next.attempt, observed[1..]) else next
  }

  lemma {:induction false} AwaitedFrom(r: Run, attempt: nat, observed: seq<Option<Tags>>)
    requires r.channel == Stable && 1 <= attempt <= 13 && |observed| == 14 - attempt
    ensures var version := r.expected.coordinate.version;
            && ((forall k | 0 <= k < |observed| :: !HaveVersion(observed[k], version)) ==> Awaited(r, attempt, observed) == Failed)
            && forall k | IsFirstRead(observed, k, version) ::
                 Awaited(r, attempt, observed)
                 == if ValidChannel(Stable, observed[k].value, r.baseline, version, true) then Published(observed[k]) else Failed
    decreases |observed|
  {
    hide ValidTags, ValidChannel;
    var version, rest := r.expected.coordinate.version, observed[1..];
    assert HaveVersion(observed[0], version) <==> Selects(observed[0], version);
    if attempt < 13 { AwaitedFrom(r, attempt + 1, rest); }
    forall k | IsFirstRead(observed, k, version) && k > 0 ensures IsFirstRead(rest, k - 1, version) {
      assert observed[k] == rest[k - 1] && forall j | 0 <= j < k - 1 :: rest[j] == observed[j + 1];
    }
  }

  ghost predicate IsFirstRead(observed: seq<Option<Tags>>, k: int, version: string) {
    0 <= k < |observed| && HaveVersion(observed[k], version) && forall j | 0 <= j < k :: !HaveVersion(observed[j], version)
  }

  /** On the stable channel the first of thirteen reads that shows the version decides; without one the run fails. */
  lemma FirstReadDecides(r: Run, observed: seq<Option<Tags>>)
    requires r.channel == Stable && |observed| == 13
    ensures var version := r.expected.coordinate.version;
            && ((forall k | 0 <= k < 13 :: !HaveVersion(observed[k], version)) ==> Awaited(r, 1, observed) == Failed)
            && forall k | IsFirstRead(observed, k, version) ::
                 Awaited(r, 1, observed)
                 == if ValidChannel(Stable, observed[k].value, r.baseline, version, true) then Published(observed[k]) else Failed
  {
    AwaitedFrom(r, 1, observed);
  }
}
