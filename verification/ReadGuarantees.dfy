/** What the Read boundary promises over whole runs. */
module ReadGuarantees {
  import opened Bytes
  import opened JsonValues
  import opened JsonPrinter
  import opened ReadValues
  import opened ReadBudget
  import opened ReadAdmission
  import opened ReadProjection
  import opened ReadHost
  import opened ReadCalls
  import opened ReadRuns

  // ---- The handle table -------------------------------------------------------------------

  /**
   In every state of every run the handle table holds exactly the handles of the ready
   envelopes whose delivery was confirmed, each under its own id.
   */
  lemma TableHoldsConfirmedHandles(cfg: Config, ws: seq<World>, steps: seq<Step>, k: nat, h: Handle)
    requires IsRun(cfg, ws, steps) && k < |ws|
    ensures InTable(ws[k].shared.handles, h) <==> Issued(ws[k], h)
    ensures forall id | id in ws[k].shared.handles :: ws[k].shared.handles[id].handleId == id
  {
    hide IsRun;
    RunHolds(cfg, ws, steps, k);
  }

  /** No two handles of ready envelopes, of one call or of two, have the same id. */
  lemma HandleIdsAreUnique(cfg: Config, ws: seq<World>, steps: seq<Step>, k: nat, c: nat, i: nat, d: nat, j: nat)
    requires IsRun(cfg, ws, steps) && k < |ws| && c in ws[k].calls && d in ws[k].calls
    requires ReadyOf(ws[k].calls[c]).Some? && ReadyOf(ws[k].calls[d]).Some?
    requires i < |ReadyOf(ws[k].calls[c]).value.handles| && j < |ReadyOf(ws[k].calls[d]).value.handles|
    requires (c, i) != (d, j)
    ensures ReadyOf(ws[k].calls[c]).value.handles[i].handleId != ReadyOf(ws[k].calls[d]).value.handles[j].handleId
  {
    hide IsRun, WellMade;
    RunHolds(cfg, ws, steps, k);
    var w := ws[k];
    ReadyIsWellMade(cfg, ws, steps, k, c);
    ReadyIsWellMade(cfg, ws, steps, k, d);
    IdsAreDistinct(cfg, w.shared.handles, ReadyOf(w.calls[c]).value, ReadyOf(w.calls[d]).value, i, j);
  }

  /** What is in the handle table stays there as it is. */
  lemma {:induction false} HandlesAreNeverReplaced(cfg: Config, ws: seq<World>, steps: seq<Step>, i: nat, j: nat, id: Text)
    requires IsRun(cfg, ws, steps) && i <= j < |ws| && id in ws[i].shared.handles
    ensures id in ws[j].shared.handles && ws[j].shared.handles[id] == ws[i].shared.handles[id]
    decreases j
  {
    if i < j {
      HandlesAreNeverReplaced(cfg, ws, steps, i, j - 1, id);
      RunHolds(cfg, ws, steps, j - 1);
      StepKeeps(cfg, ws[j - 1], steps[j - 1]);
    }
  }

  /**
   An expansion becomes ready only with a handle that a confirmed envelope issued, that is
   of this snapshot with these digests, and that was valid, on the same host and epoch, at
   both observations; it discloses what the handle covers.
   */
  lemma ExpansionIsOfAnIssuedHandle(cfg: Config, ws: seq<World>, steps: seq<Step>, k: nat, c: nat)
    requires IsRun(cfg, ws, steps) && k < |ws| && c in ws[k].calls
    requires ReadyOf(ws[k].calls[c]).Some? && ReadyOf(ws[k].calls[c]).value.q.ask.Expand?
    ensures var r := ReadyOf(ws[k].calls[c]).value;
            var h := r.q.ask.handle;
            && Issued(ws[k], h) && InTable(ws[k].shared.handles, h)
            && h.snapshotId == r.view.snapshotId && h.a == r.view.a && h.c == r.view.c
            && h.assetId == r.view.assetId && h.assetVersion == r.view.assetVersion && h.selection == r.q.ask.selected
            && (forall o | o == r.first || o == r.second ::
                 && o.allow && !o.revoked && o.hostId == h.hostId && o.hostEpoch == h.hostEpoch
                 && h.issuedAt <= o.currentMs < h.expiresAt)
            && (set n | n in r.body.closure :: n.id) == AsSet(h.scope)
  {
    hide IsRun, WellMade, ReadyOf, Issued, InTable;
    RunHolds(cfg, ws, steps, k);
    ReadyIsWellMade(cfg, ws, steps, k, c);
    var r := ReadyOf(ws[k].calls[c]).value;
    HandleOfExpansion(cfg, ws[k].shared.handles, r);
    TableHoldsConfirmedHandles(cfg, ws, steps, k, r.q.ask.handle);
  }

  lemma HandleOfExpansion(cfg: Config, table: map<Text, Handle>, r: Ready)
    requires cfg.Valid() && WellMade(cfg, table, r) && r.q.ask.Expand?
    ensures var h := r.q.ask.handle;
            && InTable(table, h) && h.snapshotId == r.view.snapshotId && h.a == r.view.a && h.c == r.view.c
            && h.assetId == r.view.assetId && h.assetVersion == r.view.assetVersion && h.selection == r.q.ask.selected
            && (forall o | o == r.first || o == r.second ::
                 && o.allow && !o.revoked && o.hostId == h.hostId && o.hostEpoch == h.hostEpoch
                 && h.issuedAt <= o.currentMs < h.expiresAt)
            && (set n | n in r.body.closure :: n.id) == AsSet(h.scope)
  {
    hide Project, Scoped, Proper, Attested, MintedFor, ProjectionError;
    ClosureIsDisclosed(cfg.fields, r.q.ask, r.view, AsSet(r.first.scope) * AsSet(r.second.scope));
    DisclosedIsTheScope(cfg, r.q, r.view);
  }

  lemma DisclosedIsTheScope(cfg: Config, q: Request, view: View)
    requires cfg.Valid() && q.ask.Expand? && HandleError(cfg.versions, q, view).None? && Disclosed(q.ask, view).Some?
    ensures AsSet(Disclosed(q.ask, view).value) == AsSet(q.ask.handle.scope)
  {
  }

  lemma ClosureIsDisclosed(fields: seq<Text>, ask: Ask, view: View, allowed: set<Text>)
    requires Project(fields, ask, view).Some? && Scoped(Project(fields, ask, view).value, allowed).Some?
    ensures Disclosed(ask, view).Some?
    ensures var b := Scoped(Project(fields, ask, view).value, allowed).value;
            (set n | n in b.closure :: n.id) == AsSet(Disclosed(ask, view).value)
  {
    hide Where, IsDeclaration, IsClaim, HasClaim, Omissions, Participates, KeptRelationship, Disclosed;
    var closure, ids := Project(fields, ask, view).value.closure, Disclosed(ask, view).value;
    forall id | id in ids ensures exists n :: n in closure && n.id == id {
      var k :| 0 <= k < |ids| && ids[k] == id;
      assert closure[k] in closure && closure[k].id == id;
    }
    forall n | n in closure ensures n.id in ids {
      var k :| 0 <= k < |closure| && closure[k] == n;
      assert n.id == ids[k];
    }
  }

  /** A ready body is the projection, cut to what both observed scopes allow. */
  lemma ReadyBodyIsInBothScopes(cfg: Config, ws: seq<World>, steps: seq<Step>, k: nat, c: nat)
    requires IsRun(cfg, ws, steps) && k < |ws| && c in ws[k].calls && ReadyOf(ws[k].calls[c]).Some?
    ensures var r := ReadyOf(ws[k].calls[c]).value;
            && InScope(r.body, AsSet(r.first.scope)) && InScope(r.body, AsSet(r.second.scope)) && ReportsClaims(r.body)
            && r.states == States(Complete, Allowed, r.body.confirmation)
            && Project(cfg.fields, r.q.ask, r.view).Some?
            && Scoped(Project(cfg.fields, r.q.ask, r.view).value, AsSet(r.first.scope) * AsSet(r.second.scope)) == Some(r.body)
  {
    hide IsRun, Project, Scoped, Admissible, Usable, MintedFor;
    ReadyIsWellMade(cfg, ws, steps, k, c);
    var r := ReadyOf(ws[k].calls[c]).value;
    var both := AsSet(r.first.scope) * AsSet(r.second.scope);
    ProjectedReportsClaims(cfg.fields, r.q.ask, r.view);
    ScopedIsInScope(Project(cfg.fields, r.q.ask, r.view).value, both);
  }

  // ---- Denials ------------------------------------------------------------------------------

  /** A usable observation lifts this denial, with a decision to allow and no revocation. */
  ghost predicate Lifts(w: World, step: Step, d: Denial) {
    && step.Observe? && step.call in w.calls && (w.calls[step.call].Observing? || w.calls[step.call].Confirming?)
    && var call := w.calls[step.call];
       && step.raw.Gives? && ObservationError(call.q, call.view, step.raw.value).None?
       && var c := ContextOf(step.raw.value);
          c.lift && c.allow && !c.revoked && DenialOf(c, call.view) == d
  }

  /** A usable observation that denies or revokes. */
  ghost predicate Denies(w: World, step: Step, d: Denial) {
    && step.Observe? && step.call in w.calls && (w.calls[step.call].Observing? || w.calls[step.call].Confirming?)
    && var call := w.calls[step.call];
       && step.raw.Gives? && ObservationError(call.q, call.view, step.raw.value).None?
       && var c := ContextOf(step.raw.value);
          (!c.allow || c.revoked) && DenialOf(c, call.view) == d
  }

  /** With this step, a call has a ready envelope, on a context of this host, epoch and asset. */
  ghost predicate BecomesReady(cfg: Config, w: World, step: Step, d: Denial)
    requires cfg.Valid() && Enabled(w, step)
  {
    && step.Observe? && w.calls[step.call].Confirming?
    && var p := After(cfg, w, step).calls[step.call];
       ReadyOf(p).Some? && DenialOf(ReadyOf(p).value.second, ReadyOf(p).value.view) == d
  }

  lemma RevocationsAfter(cfg: Config, w: World, step: Step)
    requires cfg.Valid() && Enabled(w, step)
    ensures var after := After(cfg, w, step).shared.revocations;
            if step.Observe? then
              var call := w.calls[step.call];
              after == Observation(w.shared.revocations, call.q, call.view, step.raw).0
            else after == w.shared.revocations
  {
    hide Inspect, EarlyError, Refusal, Project, Scoped, Observation, Composed, Replied, Entered;
  }

  lemma ReadyAfter(cfg: Config, w: World, step: Step)
    requires cfg.Valid() && Enabled(w, step) && step.Observe? && w.calls[step.call].Confirming?
    requires ReadyOf(After(cfg, w, step).calls[step.call]).Some?
    ensures var call, r := w.calls[step.call], ReadyOf(After(cfg, w, step).calls[step.call]).value;
            && r.view == call.view
            && Observation(w.shared.revocations, call.q, call.view, step.raw).1 == Seen(r.second)
  {
    hide Refusal, Scoped, Observation, MintedFor, Replied, Entered;
    var call := w.calls[step.call];
    var (revocations, seen) := Observation(w.shared.revocations, call.q, call.view, step.raw);
    if seen.Seen? && Scoped(call.body, AsSet(seen.context.scope)).Some? {
      RepliedIs(cfg, Composed(cfg, w.shared.sequence, call.q, call.view, call.first, seen.context,
                              Scoped(call.body, AsSet(seen.context.scope)).value));
    }
  }

  lemma DenialsStep(cfg: Config, w: World, step: Step, d: Denial)
    requires cfg.Valid() && Enabled(w, step)
    ensures Denies(w, step, d) ==> d in After(cfg, w, step).shared.revocations
    ensures d in w.shared.revocations && !Lifts(w, step, d) ==> d in After(cfg, w, step).shared.revocations
    ensures d in After(cfg, w, step).shared.revocations ==> !BecomesReady(cfg, w, step, d)
  {
    hide After, ObservationError;
    RevocationsAfter(cfg, w, step);
    if BecomesReady(cfg, w, step, d) {
      ReadyAfter(cfg, w, step);
      var call := w.calls[step.call];
      SeenIsUsable(w.shared.revocations, call.q, call.view, step.raw);
    }
  }

  /**
   Once a denial is recorded, or an observation denies or revokes, no read of this host, epoch
   and asset becomes ready, however the calls interleave, until an observation lifts it.
   */
  lemma {:induction false} DenialsStick(cfg: Config, ws: seq<World>, steps: seq<Step>, i: nat, j: nat, d: Denial)
    requires IsRun(cfg, ws, steps) && i <= j < |steps|
    requires d in ws[i].shared.revocations || Denies(ws[i], steps[i], d)
    requires forall k | i <= k <= j :: !Lifts(ws[k], steps[k], d)
    ensures d in ws[j + 1].shared.revocations && !BecomesReady(cfg, ws[j], steps[j], d)
    decreases j
  {
    hide BecomesReady, Denies, Lifts, After;
    if i < j { DenialsStick(cfg, ws, steps, i, j - 1, d); }
    DenialsStep(cfg, ws[j], steps[j], d);
  }

  // ---- Handles come back ------------------------------------------------------------------------

  /** A handle of this envelope, and the target that it is for. */
  lemma HandleOfEnvelope(cfg: Config, table: map<Text, Handle>, r: Ready, k: nat) returns (t: ExpansionTarget)
    requires cfg.Valid() && WellMade(cfg, table, r) && k < |r.handles|
    ensures r.q.ask.Exact? && t in r.view.targets && Expandable(r.q.ask.selected, r.second, t)
    ensures r.handles[k] == HandleFor(cfg.versions, r.view, r.q.ask.selected, r.second, t, r.receipt - |r.handles| + k)
    ensures t.selection == r.q.ask.selected
  {
    hide Project, Scoped, HandleFor, HandleError, Identifier, IsDigest, ProperScope;
    t := MintedAt(cfg.versions, r.view, r.q.ask.selected, r.second, r.view.targets, Start(r), k);
    assert t.selection.assetId == r.view.assetId && t.selection.assetVersion == r.view.assetVersion;
  }

  /** The lifetime of a handle is positive and at most an hour. */
  lemma HandleLifetime(cfg: Config, table: map<Text, Handle>, r: Ready, k: nat)
    requires cfg.Valid() && WellMade(cfg, table, r) && k < |r.handles|
    ensures var h := r.handles[k];
            && 0 < h.expiresAt - h.issuedAt <= HOUR && Uint(h.expiresAt)
            && h.issuedAt == r.second.currentMs && h.expiresAt <= r.second.expiresAt
            && AsSet(h.scope) <= AsSet(r.second.scope)
  {
    hide Project, Scoped, HandleError, Identifier, MintedFor;
    var t := HandleOfEnvelope(cfg, table, r, k);
  }

  lemma {:induction false} ScalarParts(a: Text, b: Text)
    requires ScalarText(a) && ScalarText(b)
    ensures ScalarText(a + b)
    decreases |a|
  {
    if a == [] {
      assert a + b == b;
    } else if IsHigh(a[0]) {
      assert (a + b)[2..] == a[2..] + b;
      ScalarParts(a[2..], b);
    } else {
      assert (a + b)[1..] == a[1..] + b;
      ScalarParts(a[1..], b);
    }
  }

  lemma AsciiIsScalarOfItsSize(t: Text)
    requires forall k | 0 <= k < |t| :: t[k] < 0x80
    ensures ScalarText(t) && Utf8Size(t) == |t|
  {
    AsciiIsScalar(t);
    AsciiSize(t);
  }

  lemma {:induction false} AsciiSize(t: Text)
    requires forall k | 0 <= k < |t| :: t[k] < 0x80
    ensures Utf8Size(t) == |t|
  {
    if t != [] { AsciiSize(t[1..]); }
  }

  /** A snapshot id has no controls and nothing beyond ASCII. */
  lemma SnapshotIdIsAscii(t: Text)
    requires IsSnapshotId(t)
    ensures |t| == 45 && forall k | 0 <= k < |t| :: t[k] < 0x80 && !IsControl(t[k])
  {
    forall k | 0 <= k < |t| ensures t[k] < 0x80 && !IsControl(t[k]) {
      if k < |SNAPSHOT| { assert t[k] == SNAPSHOT[k]; } else { assert t[k] == t[|SNAPSHOT|..][k - |SNAPSHOT|]; }
    }
  }

  /** The number of digits that leave room for the rest of a handle's id. */
  const MAX_DIGITS := 203

  /** A handle's id is an identifier exactly when its number has no more than 203 digits. */
  lemma HandleNameIsIdentifier(snapshotId: Text, number: nat)
    requires IsSnapshotId(snapshotId)
    ensures Identifier(HandleName(snapshotId, number)) <==> number < Pow10(MAX_DIGITS)
  {
    hide ScalarText, Utf8Size, Pow10, NatText, IsSnapshotId;
    var name, digits := HandleName(snapshotId, number), NatText(number);
    SnapshotIdIsAscii(snapshotId);
    assert |name| == 53 + |digits|;
    forall k | 0 <= k < |name| ensures name[k] < 0x80 && !IsControl(name[k]) {
      if k < |HANDLE| {
        assert name[k] == HANDLE[k];
      } else if k < |HANDLE| + |snapshotId| {
        assert name[k] == snapshotId[k - |HANDLE|];
      } else if k > |HANDLE| + |snapshotId| {
        assert name[k] == digits[k - |HANDLE| - |snapshotId| - 1];
      }
    }
    AsciiIsScalarOfItsSize(name);
    if number < Pow10(MAX_DIGITS) { NatTextWidth(number, MAX_DIGITS); } else { LargeNumbersAreWider(number, MAX_DIGITS); }
  }

  /** The number of the `k`-th handle of an envelope. */
  function NumberOf(r: Ready, k: nat): int { Start(r) + 1 + k }

  /** The request that expands a handle. */
  function Expansion(id: Text, budget: Safe, h: Handle): Request { Request(id, budget, Expand(h.selection, h)) }

  /** A minted handle is well formed exactly when the number in its id has no more than 203 digits. */
  lemma HandleIsProper(cfg: Config, table: map<Text, Handle>, r: Ready, k: nat)
    requires cfg.Valid() && WellMade(cfg, table, r) && k < |r.handles|
    ensures ProperHandle(r.handles[k]) <==> NumberOf(r, k) < Pow10(MAX_DIGITS)
    ensures |r.handles[k].scope| <= MAX_LIST && ProperSelection(r.handles[k].selection)
  {
    hide Project, Scoped, HandleError, Identifier, MintedFor, HandleName, Pow10, IsDigest, ProperScope, ProjectionError, IsSnapshotId;
    var t := HandleOfEnvelope(cfg, table, r, k);
    HandleNameIsIdentifier(r.view.snapshotId, r.receipt - |r.handles| + k);
    HandleLifetime(cfg, table, r, k);
    SnapshotIdIsIdentifier(r.view.snapshotId);
    assert ProperField(r.handles[k], HandleId) <==> Identifier(r.handles[k].handleId);
    assert Proper(r.q);
  }

  lemma SnapshotIdIsIdentifier(t: Text)
    requires IsSnapshotId(t)
    ensures Identifier(t)
  {
    SnapshotIdIsAscii(t);
    AsciiIsScalarOfItsSize(t);
  }

  lemma ExpansionIsAdmissible(cfg: Config, table: map<Text, Handle>, r: Ready, k: nat, id: Text, budget: Safe)
    requires cfg.Valid() && WellMade(cfg, table, r) && k < |r.handles|
    ensures var q := Expansion(id, budget, r.handles[k]);
            ProjectionError(cfg.versions, q, r.view).None? && HandleError(cfg.versions, q, r.view).None?
  {
    hide Project, Scoped, MintedFor, HandleName, Identifier, IsDigest, ProperScope;
    var t := HandleOfEnvelope(cfg, table, r, k);
    var q := Expansion(id, budget, r.handles[k]);
    assert q.Selected() == r.q.Selected();
    var found := TargetOf(r.view, t.target, t.selection);
    assert found.Some? && found.value == t;
  }

  /**
   In every state of a run, the expansion of a confirmed handle passes every check up to the
   first observation, exactly when the number in the handle's id has no more than 203 digits.
   */
  lemma ConfirmedHandleIsAccepted(cfg: Config, ws: seq<World>, steps: seq<Step>, n: nat, c: nat, k: nat, id: Text,
                                  budget: Safe, limit: nat)
    requires IsRun(cfg, ws, steps) && n < |ws| && c in ws[n].calls && IsConfirmed(ws[n].calls[c])
    requires k < |ReadyOf(ws[n].calls[c]).value.handles| && Identifier(id)
    ensures var r := ReadyOf(ws[n].calls[c]).value;
            var q := Expansion(id, budget, r.handles[k]);
            var begun := Begun(cfg, ws[n].shared, CandidateJson(cfg.versions, q), Some(limit), Accepted(r.view), true);
            && 0 < r.handles[k].expiresAt - r.handles[k].issuedAt <= HOUR
            && (begun == (ws[n].shared, Observing(q, r.view)) <==> NumberOf(r, k) < Pow10(MAX_DIGITS))
  {
    hide IsRun, WellMade, Inspect, CandidateJson, ProjectionError, HandleError, ProperHandle, Identifier, Utf8Size, Pow10;
    ReadyIsWellMade(cfg, ws, steps, n, c);
    var r := ReadyOf(ws[n].calls[c]).value;
    var h := r.handles[k];
    var q := Expansion(id, budget, h);
    HandleLifetime(cfg, ws[n].shared.handles, r, k);
    HandleIsProper(cfg, ws[n].shared.handles, r, k);
    if NumberOf(r, k) < Pow10(MAX_DIGITS) {
      ProperIsAdmitted(cfg.versions, q);
      ExpansionIsAdmissible(cfg, ws[n].shared.handles, r, k, id, budget);
      TableHoldsConfirmedHandles(cfg, ws, steps, n, h);
    } else {
      LongHandleIsRefused(cfg, ws[n].shared.handles, r, k, id, budget);
      var candidate := CandidateJson(cfg.versions, q);
      if Begun(cfg, ws[n].shared, candidate, Some(limit), Accepted(r.view), true).1 == Observing(q, r.view) {
        BegunObserves(cfg, ws[n].shared, candidate, limit, r.view, q);
        assert false;
      }
    }
  }

  /** What a call waits for an observation of is the request that its candidate was admitted with. */
  lemma BegunObserves(cfg: Config, s: Shared, candidate: Json, limit: nat, view: View, q: Request)
    requires cfg.Valid() && Begun(cfg, s, candidate, Some(limit), Accepted(view), true).1 == Observing(q, view)
    ensures Inspect(cfg.versions, candidate) == Admitted(Record(q.requestId, q.budgetBytes, Some(q), None))
  {
    hide ProjectionError, HandleError;
    InspectedRequest(cfg.versions, candidate);
  }

  lemma LongHandleIsRefused(cfg: Config, table: map<Text, Handle>, r: Ready, k: nat, id: Text, budget: Safe)
    requires cfg.Valid() && WellMade(cfg, table, r) && k < |r.handles| && Pow10(MAX_DIGITS) <= NumberOf(r, k)
    ensures var q := Expansion(id, budget, r.handles[k]);
            Inspect(cfg.versions, CandidateJson(cfg.versions, q)) != Admitted(Record(id, budget, Some(q), None))
  {
    hide WellMade, Inspect, CandidateJson, ProperHandle, Pow10;
    HandleIsProper(cfg, table, r, k);
    AdmitsExactlyProperRequests(cfg.versions, CandidateJson(cfg.versions, Expansion(id, budget, r.handles[k])),
                                Expansion(id, budget, r.handles[k]));
  }

  /**
   A trusted observation at a time within its own validity lets an expansion go on exactly
   when it is of the handle's host and epoch and within the handle's lifetime.
   */
  lemma ObservationOfHandle(q: Request, view: View, v: Json)
    requires q.ask.Expand? && Trusted(q, view, v) && IsUint(Member(v, CurrentMs))
    requires ContextOf(v).issuedAt <= ContextOf(v).currentMs < ContextOf(v).expiresAt
    ensures var c, h := ContextOf(v), q.ask.handle;
            ObservationError(q, view, v).None? <==>
              (&& c.hostId == h.hostId && c.hostEpoch == h.hostEpoch
               && h.issuedAt <= c.currentMs < h.expiresAt)
  {
  }

  // ---- Expansions become ready --------------------------------------------------------------------

  /** An observation on which this expansion may be answered: it allows it, lifts what denies it, and covers its scope. */
  ghost predicate Permits(revocations: set<Denial>, q: Request, view: View, raw: Raw) {
    && q.ask.Expand? && raw.Gives? && ObservationError(q, view, raw.value).None?
    && var c := ContextOf(raw.value);
       && c.allow && !c.revoked && (c.lift || DenialOf(c, view) !in revocations)
       && AsSet(q.ask.handle.scope) <= AsSet(c.scope)
  }

  lemma PermittedIsSeen(revocations: set<Denial>, q: Request, view: View, raw: Raw)
    requires Permits(revocations, q, view, raw)
    ensures Observation(revocations, q, view, raw).1 == Seen(ContextOf(raw.value))
  {
    hide ObservationError, ContextOf;
  }

  /** A scope that covers what is disclosed leaves a body. */
  lemma CoveredIsScoped(fields: seq<Text>, ask: Ask, view: View, allowed: set<Text>)
    requires Project(fields, ask, view).Some? && Disclosed(ask, view).Some? && AsSet(Disclosed(ask, view).value) <= allowed
    ensures Scoped(Project(fields, ask, view).value, allowed).Some?
  {
    hide Where, IsDeclaration, IsClaim, HasClaim, Omissions, Participates, KeptRelationship, Disclosed;
    var closure, ids := Project(fields, ask, view).value.closure, Disclosed(ask, view).value;
    forall n | n in closure ensures n.id in allowed {
      var k :| 0 <= k < |closure| && closure[k] == n;
      assert n.id == ids[k] && ids[k] in AsSet(ids);
    }
  }

  /** The expansion of a handle of this envelope has a projection, which discloses the handle's scope. */
  lemma ExpansionIsProjected(cfg: Config, table: map<Text, Handle>, r: Ready, k: nat, id: Text, budget: Safe)
    requires cfg.Valid() && WellMade(cfg, table, r) && k < |r.handles|
    ensures var ask := Expansion(id, budget, r.handles[k]).ask;
            && Project(cfg.fields, ask, r.view).Some?
            && Disclosed(ask, r.view).Some? && AsSet(Disclosed(ask, r.view).value) == AsSet(r.handles[k].scope)
  {
    hide Scoped, MintedFor, HandleName, Identifier, IsDigest, ProperScope, IsSnapshotId, Where, Omissions, NodeOf;
    var t := HandleOfEnvelope(cfg, table, r, k);
    var found := TargetOf(r.view, t.target, t.selection);
    assert found.Some? && found.value == t;
    assert Disclosed(r.q.ask, r.view).Some?;
  }

  /**
   The expansion of a confirmed handle becomes ready when both observations permit it, whatever
   the other calls do in between, and the envelope fits: that is all it takes.
   */
  lemma PermittedExpansionIsReady(cfg: Config, ws: seq<World>, steps: seq<Step>, n: nat, c: nat, k: nat, id: Text,
                                  budget: Safe, s: Shared, first: Raw, t: Shared, second: Raw)
    requires IsRun(cfg, ws, steps) && n < |ws| && c in ws[n].calls && IsConfirmed(ws[n].calls[c])
    requires k < |ReadyOf(ws[n].calls[c]).value.handles|
    requires var r := ReadyOf(ws[n].calls[c]).value;
             var q := Expansion(id, budget, r.handles[k]);
             Permits(s.revocations, q, r.view, first) && Permits(t.revocations, q, r.view, second)
    ensures var r := ReadyOf(ws[n].calls[c]).value;
            var q := Expansion(id, budget, r.handles[k]);
            var p := AfterFirst(cfg, s, q, r.view, first).1;
            && p.Confirming? && p.q == q && p.view == r.view
            && var body := Scoped(p.body, AsSet(ContextOf(second.value).scope));
               && body.Some?
               && var made := Composed(cfg, t.sequence, q, r.view, p.first, ContextOf(second.value), body.value);
                  ReadyOf(AfterSecond(cfg, t, q, r.view, p.first, p.body, second).1)
                  == if Replied(cfg, made).ReadyEnvelope? then Some(made) else None
  {
    hide IsRun, WellMade, Project, Scoped, Disclosed, Permits, Observation, Replied, Composed, ContextOf;
    ReadyIsWellMade(cfg, ws, steps, n, c);
    var r := ReadyOf(ws[n].calls[c]).value;
    var q := Expansion(id, budget, r.handles[k]);
    ExpansionIsProjected(cfg, ws[n].shared.handles, r, k, id, budget);
    PermittedIsSeen(s.revocations, q, r.view, first);
    PermittedIsSeen(t.revocations, q, r.view, second);
    PermittedCovers(s.revocations, q, r.view, first);
    PermittedCovers(t.revocations, q, r.view, second);
    var one, two := AsSet(ContextOf(first.value).scope), AsSet(ContextOf(second.value).scope);
    CoveredIsScoped(cfg.fields, q.ask, r.view, one);
    CoveredIsScoped(cfg.fields, q.ask, r.view, one * two);
    TwoScopesAreOne(Project(cfg.fields, q.ask, r.view).value, one, two);
    var made := Composed(cfg, t.sequence, q, r.view, ContextOf(first.value), ContextOf(second.value),
                         Scoped(Scoped(Project(cfg.fields, q.ask, r.view).value, one).value, two).value);
    RepliedIs(cfg, made);
  }

  lemma PermittedCovers(revocations: set<Denial>, q: Request, view: View, raw: Raw)
    requires Permits(revocations, q, view, raw)
    ensures raw.Gives? && AsSet(q.ask.handle.scope) <= AsSet(ContextOf(raw.value).scope)
  {
    hide ObservationError, ContextOf;
  }

  /** An envelope that can be written is ready exactly when it is within the budget. */
  lemma WrittenEnvelopeIsReady(cfg: Config, made: Ready)
    requires var sheet := ReadCalls.Blank(cfg.render(made), made.q.budgetBytes);
             var instead := ReadCalls.Blank(cfg.refuse(made.q.requestId, BudgetInsufficient, made.states), made.q.budgetBytes);
             && Scalar(sheet.AsValue()) && Scalar(instead.AsValue()) && Uint(SheetSize(sheet)) && Uint(SheetSize(instead))
    ensures Replied(cfg, made).ReadyEnvelope? <==> SheetSize(ReadCalls.Blank(cfg.render(made), made.q.budgetBytes)) <= made.q.budgetBytes
  {
    hide SheetSize, Scalar, Answered, Fixed;
    ReadyAnswer(ReadCalls.Blank(cfg.render(made), made.q.budgetBytes),
                ReadCalls.Blank(cfg.refuse(made.q.requestId, BudgetInsufficient, made.states), made.q.budgetBytes));
  }

  // ---- Envelopes state their sizes in every run -----------------------------------------------------

  /** The envelope of what is prepared, if it has one. */
  function EnvelopeOf(p: Prepared): Option<Sheet> {
    match p
    case ReadyEnvelope(sheet, _) => Some(sheet)
    case Unready(ReadEnvelope(sheet, _, _)) => Some(sheet)
    case _ => None
  }

  function PreparedOf(p: Phase): Option<Prepared> {
    match p
    case Delivering(prepared) => Some(prepared)
    case Finished(Delivered(prepared)) => Some(prepared)
    case _ => None
  }

  ghost predicate StatesItsSize(p: Prepared) {
    EnvelopeOf(p).Some? ==>
      var s := EnvelopeOf(p).value;
      s.Valid() && Uint(SheetSize(s)) && s.actual == Fixed(SheetSize(s)) && SheetSize(s) <= s.limit
  }

  lemma RefusalStatesItsSize(cfg: Config, id: Text, budget: Safe, code: Code, states: States)
    ensures StatesItsSize(Refusal(cfg, id, budget, code, states))
  {
    hide SheetSize, Answered, Fixed;
    var s := ReadCalls.Blank(cfg.refuse(id, code, states), budget);
    AnswerStatesItsSize(s, false, Some(code), s);
  }

  lemma ReplyStatesItsSize(cfg: Config, ready: Ready)
    ensures StatesItsSize(Replied(cfg, ready))
  {
    hide SheetSize, Answered, Fixed;
    AnswerStatesItsSize(ReadCalls.Blank(cfg.render(ready), ready.q.budgetBytes), true, None,
                        ReadCalls.Blank(cfg.refuse(ready.q.requestId, BudgetInsufficient, ready.states), ready.q.budgetBytes));
  }

  /** What a phase has prepared states its size. */
  ghost predicate Sized(p: Phase) { PreparedOf(p).Some? ==> StatesItsSize(PreparedOf(p).value) }

  lemma DispatchedIsSized(cfg: Config, s: Shared, prepared: Prepared, known: bool)
    requires StatesItsSize(prepared)
    ensures Sized(Dispatched(cfg, s, prepared, known).1)
  {
    hide StatesItsSize;
  }

  lemma StoppedIsSized(cfg: Config, s: Shared, q: Request, seen: Observed)
    requires !seen.Seen?
    ensures Sized(Stopped(cfg, s, q, seen).1)
  {
    hide StatesItsSize, Refusal, Dispatched, Sized;
    if !seen.Interrupted? {
      var states := States(Complete, if seen.code == HostDenied then Denied else Unasked, NotEvaluated);
      RefusalStatesItsSize(cfg, q.requestId, q.budgetBytes, seen.code, states);
      DispatchedIsSized(cfg, s, Refusal(cfg, q.requestId, q.budgetBytes, seen.code, states), true);
    } else {
      assert Stopped(cfg, s, q, seen).1 == Finished(TransportFailure);
      FailureIsSized();
    }
  }

  lemma FailureIsSized()
    ensures Sized(Finished(TransportFailure)) && StatesItsSize(AdmissionResponse)
    ensures forall q, view :: Sized(Observing(q, view))
    ensures forall q, view, first, body :: Sized(Confirming(q, view, first, body))
  {
  }

  lemma RefusedIsSized(cfg: Config, s: Shared, q: Request, code: Code)
    ensures Sized(Declined(cfg, s, q, code).1)
  {
    hide StatesItsSize, Refusal, Dispatched, Sized;
    var states := States(Complete, Unasked, NotEvaluated);
    RefusalStatesItsSize(cfg, q.requestId, q.budgetBytes, code, states);
    DispatchedIsSized(cfg, s, Refusal(cfg, q.requestId, q.budgetBytes, code, states), true);
  }

  lemma BegunIsSized(cfg: Config, s: Shared, candidate: Json, limit: Option<nat>, core: CoreOutcome, known: bool)
    requires cfg.Valid()
    ensures Sized(Begun(cfg, s, candidate, limit, core, known).1)
  {
    hide StatesItsSize, Refusal, Dispatched, Sized, Inspect, EarlyError;
    FailureIsSized();
    DispatchedIsSized(cfg, s, AdmissionResponse, known);
    forall id, budget, code, states ensures Sized(Dispatched(cfg, s, Refusal(cfg, id, budget, code, states), known).1) {
      RefusalStatesItsSize(cfg, id, budget, code, states);
      DispatchedIsSized(cfg, s, Refusal(cfg, id, budget, code, states), known);
    }
  }

  lemma ObservedIsSized(cfg: Config, s: Shared, p: Phase, raw: Raw)
    requires cfg.Valid()
    ensures p.Observing? ==> Sized(AfterFirst(cfg, s, p.q, p.view, raw).1)
    ensures p.Confirming? ==> Sized(AfterSecond(cfg, s, p.q, p.view, p.first, p.body, raw).1)
  {
    hide StatesItsSize, Declined, Stopped, Dispatched, Sized, Observation, Project, Scoped, Composed, Replied;
    FailureIsSized();
    if p.Observing? || p.Confirming? {
      var (revocations, seen) := Observation(s.revocations, p.q, p.view, raw);
      var t := s.(revocations := revocations);
      if !seen.Seen? {
        StoppedIsSized(cfg, t, p.q, seen);
      } else {
        RefusedIsSized(cfg, t, p.q, ProjectionInvalid);
        RefusedIsSized(cfg, t, p.q, ScopeDenied);
        if p.Confirming? && Scoped(p.body, AsSet(seen.context.scope)).Some? {
          var ready := Composed(cfg, s.sequence, p.q, p.view, p.first, seen.context, Scoped(p.body, AsSet(seen.context.scope)).value);
          ReplyStatesItsSize(cfg, ready);
          DispatchedIsSized(cfg, t.(sequence := ready.receipt), Replied(cfg, ready), true);
        }
      }
    }
  }

  /** Every envelope that is prepared or delivered in a run states its own size, which is within its limit. */
  lemma {:induction false} EnvelopesStateTheirSizes(cfg: Config, ws: seq<World>, steps: seq<Step>, k: nat, c: nat)
    requires IsRun(cfg, ws, steps) && k < |ws| && c in ws[k].calls
    ensures Sized(ws[k].calls[c])
    decreases k
  {
    hide Sized, Begun, AfterFirst, AfterSecond;
    if k > 0 {
      var w, step := ws[k - 1], steps[k - 1];
      assert Enabled(w, step) && ws[k] == After(cfg, w, step);
      if step.Elsewhere? || step.call != c {
        EnvelopesStateTheirSizes(cfg, ws, steps, k - 1, c);
      } else {
        match step
        case Begin(_, candidate, limit, core, known) => BegunIsSized(cfg, w.shared, candidate, limit, core, known);
        case Observe(_, raw) => ObservedIsSized(cfg, w.shared, w.calls[c], raw);
        case Deliver(_, confirmed) =>
          EnvelopesStateTheirSizes(cfg, ws, steps, k - 1, c);
          DeliveredIsSized(w.shared, w.calls[c].prepared, confirmed);
      }
    }
  }

  lemma DeliveredIsSized(s: Shared, prepared: Prepared, confirmed: bool)
    requires Sized(Delivering(prepared))
    ensures Sized(AfterDelivery(s, prepared, confirmed).1)
  {
    hide StatesItsSize;
  }
}
