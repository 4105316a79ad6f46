/**
 Runs of Read calls on one Host: any number of calls, their pieces in any order. What
 holds of the handle table and of the denials in every state that a run reaches.
 */
module ReadRuns {
  import opened Bytes
  import opened JsonValues
  import opened ReadValues
  import opened ReadBudget
  import opened ReadAdmission
  import opened ReadProjection
  import opened ReadHost
  import opened ReadCalls

  /** The shared state, and where each call is. */
  datatype World = World(shared: Shared, calls: map<nat, Phase>)

  datatype Step =
    | Begin(call: nat, candidate: Json, limit: Option<nat>, core: CoreOutcome, known: bool)
    | Observe(call: nat, raw: Raw)
    | Deliver(call: nat, confirmed: bool)
    | Elsewhere(numbers: nat)

  /** What Core guarantees of the snapshots that it accepts. */
  ghost predicate Attested(view: View) {
    && Identifier(view.assetId) && Identifier(view.assetVersion) && IsDigest(view.a) && IsDigest(view.c)
    && IsSnapshotId(view.snapshotId)
    && (forall t | t in view.targets ::
         && Identifier(t.target) && ProperScope(t.scope) && |t.scope| <= MAX_LIST && ProperSelection(t.selection)
         && t.selection.assetId == view.assetId && t.selection.assetVersion == view.assetVersion
         && forall id | id in t.scope :: NodeOf(view.nodes, id).Some?)
    && (forall t, u | t in view.targets && u in view.targets && t.target == u.target && t.selection == u.selection :: t == u)
  }

  ghost predicate Enabled(w: World, step: Step) {
    match step
    case Begin(call, _, _, core, _) => call !in w.calls && (core.Accepted? ==> Attested(core.view))
    case Observe(call, _) => call in w.calls && (w.calls[call].Observing? || w.calls[call].Confirming?)
    case Deliver(call, _) => call in w.calls && w.calls[call].Delivering?
    case Elsewhere(_) => true
  }

  /** What a step makes of the shared state and of its call. */
  ghost function Outcome(cfg: Config, w: World, step: Step): (Shared, Phase)
    requires cfg.Valid() && Enabled(w, step) && !step.Elsewhere?
  {
    match step
    case Begin(_, candidate, limit, core, known) => Begun(cfg, w.shared, candidate, limit, core, known)
    case Observe(call, raw) =>
      (match w.calls[call]
       case Observing(q, view) => AfterFirst(cfg, w.shared, q, view, raw)
       case Confirming(q, view, first, body) => AfterSecond(cfg, w.shared, q, view, first, body, raw))
    case Deliver(call, confirmed) => AfterDelivery(w.shared, w.calls[call].prepared, confirmed)
  }

  ghost function After(cfg: Config, w: World, step: Step): World
    requires cfg.Valid() && Enabled(w, step)
  {
    if step.Elsewhere? then w.(shared := w.shared.(sequence := w.shared.sequence + step.numbers))
    else
      var (shared, phase) := Outcome(cfg, w, step);
      World(shared, w.calls[step.call := phase])
  }

  ghost predicate IsRun(cfg: Config, ws: seq<World>, steps: seq<Step>) {
    && cfg.Valid() && |ws| == |steps| + 1
    && ws[0].calls == map[] && ws[0].shared.handles == map[] && ws[0].shared.revocations == {}
    && forall k | 0 <= k < |steps| :: Enabled(ws[k], steps[k]) && ws[k + 1] == After(cfg, ws[k], steps[k])
  }

  // ---- Ready envelopes ------------------------------------------------------------------

  /** The ready envelope that a call has prepared or delivered. */
  function ReadyOf(p: Phase): Option<Ready> {
    match p
    case Delivering(ReadyEnvelope(_, ready)) => Some(ready)
    case Finished(Delivered(ReadyEnvelope(_, ready))) => Some(ready)
    case _ => None
  }

  /** Its delivery was confirmed, or there is no delivery. */
  predicate IsConfirmed(p: Phase) { p.Finished? && ReadyOf(p).Some? }

  /** A context on which this request may be answered. */
  ghost predicate Usable(q: Request, view: View, c: Context) {
    && c.allow && !c.revoked && Identifier(c.hostId) && Identifier(c.hostEpoch)
    && c.issuedAt <= c.currentMs < c.expiresAt <= c.issuedAt + HOUR && Uint(c.expiresAt)
    && (q.ask.Expand? ==>
          && c.hostId == q.ask.handle.hostId && c.hostEpoch == q.ask.handle.hostEpoch
          && q.ask.handle.issuedAt <= c.currentMs < q.ask.handle.expiresAt)
  }

  /** The request may go on with this snapshot: an expansion is of a handle in the table, and matches. */
  ghost predicate Admissible(cfg: Config, table: map<Text, Handle>, q: Request, view: View)
    requires cfg.Valid()
  {
    && Proper(q) && Attested(view) && ProjectionError(cfg.versions, q, view).None?
    && HandleError(cfg.versions, q, view).None?
    && (q.ask.Expand? ==> InTable(table, q.ask.handle))
  }

  predicate InTable(table: map<Text, Handle>, h: Handle) { h.handleId in table && table[h.handleId] == h }

  /** What the first observation leaves of the projection. */
  ghost predicate Restricted(cfg: Config, q: Request, view: View, first: Context, body: Body) {
    && Project(cfg.fields, q.ask, view).Some?
    && Scoped(Project(cfg.fields, q.ask, view).value, AsSet(first.scope)) == Some(body)
  }

  /** The number before the first handle of an envelope. */
  function Start(r: Ready): int { r.receipt - |r.handles| - 1 }

  /** A ready envelope is made as `_run` makes it, from two usable observations. */
  ghost predicate WellMade(cfg: Config, table: map<Text, Handle>, r: Ready)
    requires cfg.Valid()
  {
    && Admissible(cfg, table, r.q, r.view) && Usable(r.q, r.view, r.first) && Usable(r.q, r.view, r.second)
    && Start(r) >= 0 && r.handles == MintedFor(cfg, Start(r), r.q, r.view, r.second)
    && r.states == States(Complete, Allowed, r.body.confirmation)
    && Project(cfg.fields, r.q.ask, r.view).Some?
    && Scoped(Project(cfg.fields, r.q.ask, r.view).value, AsSet(r.first.scope) * AsSet(r.second.scope)) == Some(r.body)
  }

  // ---- Identities of handles ---------------------------------------------------------------

  lemma NumberIsBehindTheLastColon(a: Text, b: Text, m: nat, n: nat)
    requires a + [COLON] + NatText(m) == b + [COLON] + NatText(n)
    ensures a == b && m == n
  {
    hide NatText, DigitsValue;
    var s, t := NatText(m), NatText(n);
    var x, y := a + [COLON] + s, b + [COLON] + t;
    assert x[|a|] == COLON && y[|b|] == COLON;
    assert forall k | |a| < k < |x| :: x[k] == s[k - |a| - 1];
    assert forall k | |b| < k < |y| :: y[k] == t[k - |b| - 1];
    assert x[|a| + 1..] == s && y[|a| + 1..] == t;
    assert x[..|a|] == a && y[..|a|] == b;
  }

  /** A handle's id tells its snapshot and its number. */
  lemma HandleNamesAreDistinct(a: Text, b: Text, m: nat, n: nat)
    requires HandleName(a, m) == HandleName(b, n)
    ensures a == b && m == n
  {
    NumberIsBehindTheLastColon(HANDLE + a, HANDLE + b, m, n);
    assert (HANDLE + a)[|HANDLE|..] == a && (HANDLE + b)[|HANDLE|..] == b;
  }

  /** The `k`-th handle minted is for one of the targets, and has the `k`-th number. */
  lemma {:induction false} MintedAt(v: Versions, view: View, s: Selection, c: Context, targets: seq<ExpansionTarget>,
                                    number: nat, k: nat) returns (t: ExpansionTarget)
    requires Core in v.value && Ir in v.value && Read in v.value
    requires k < |Minted(v, view, s, c, targets, number)|
    ensures t in targets && Expandable(s, c, t)
    ensures Minted(v, view, s, c, targets, number)[k] == HandleFor(v, view, s, c, t, number + 1 + k)
  {
    if Expandable(s, c, targets[0]) && k == 0 {
      t := targets[0];
    } else {
      var minted := if Expandable(s, c, targets[0]) then 1 else 0;
      t := MintedAt(v, view, s, c, targets[1..], number + minted, k - minted);
    }
  }

  lemma HandleIdIs(cfg: Config, table: map<Text, Handle>, r: Ready, k: nat)
    requires cfg.Valid() && WellMade(cfg, table, r) && k < |r.handles|
    ensures Start(r) >= 0 && r.handles[k].handleId == HandleName(r.view.snapshotId, Start(r) + 1 + k)
  {
    var t := MintedAt(cfg.versions, r.view, r.q.ask.selected, r.second, r.view.targets, Start(r), k);
  }

  /** One envelope's numbers all come before the other's. */
  predicate Apart(r: Ready, o: Ready) { r.receipt <= Start(o) || o.receipt <= Start(r) }

  lemma IdsAreDistinct(cfg: Config, table: map<Text, Handle>, r: Ready, o: Ready, j: nat, k: nat)
    requires cfg.Valid() && WellMade(cfg, table, r) && WellMade(cfg, table, o) && j < |r.handles| && k < |o.handles|
    requires Apart(r, o) || (r == o && j != k)
    ensures r.handles[j].handleId != o.handles[k].handleId
  {
    hide WellMade, HandleName;
    HandleIdIs(cfg, table, r, j);
    HandleIdIs(cfg, table, o, k);
    if r.handles[j].handleId == o.handles[k].handleId {
      HandleNamesAreDistinct(r.view.snapshotId, o.view.snapshotId, Start(r) + 1 + j, Start(o) + 1 + k);
    }
  }

  // ---- What holds in every state ---------------------------------------------------------------

  ghost predicate PhaseHolds(cfg: Config, s: Shared, p: Phase)
    requires cfg.Valid()
  {
    match p
    case Observing(q, view) => Admissible(cfg, s.handles, q, view)
    case Confirming(q, view, first, body) =>
      Admissible(cfg, s.handles, q, view) && Usable(q, view, first) && Restricted(cfg, q, view, first, body)
    case _ => ReadyOf(p).Some? ==> WellMade(cfg, s.handles, ReadyOf(p).value) && ReadyOf(p).value.receipt <= s.sequence
  }

  /** The numbers of different envelopes differ. */
  ghost predicate NumbersApart(w: World) {
    forall c, d | c in w.calls && d in w.calls && c != d && ReadyOf(w.calls[c]).Some? && ReadyOf(w.calls[d]).Some? ::
      Apart(ReadyOf(w.calls[c]).value, ReadyOf(w.calls[d]).value)
  }

  /** A confirmed envelope issued this handle. */
  ghost predicate Issued(w: World, h: Handle) {
    exists c | c in w.calls :: IsConfirmed(w.calls[c]) && h in ReadyOf(w.calls[c]).value.handles
  }

  /** The table holds the handles of the confirmed envelopes, and nothing else. */
  ghost predicate TableIsIssued(w: World) {
    && (forall id | id in w.shared.handles :: w.shared.handles[id].handleId == id && Issued(w, w.shared.handles[id]))
    && (forall c | c in w.calls && IsConfirmed(w.calls[c]) ::
          forall h | h in ReadyOf(w.calls[c]).value.handles :: InTable(w.shared.handles, h))
  }

  ghost predicate Holds(cfg: Config, w: World)
    requires cfg.Valid()
  {
    && (forall c | c in w.calls :: PhaseHolds(cfg, w.shared, w.calls[c]))
    && NumbersApart(w)
    && TableIsIssued(w)
  }

  // ---- Entering handles -------------------------------------------------------------------------

  /** Handles with new and different ids join a table, and all that was in it stays. */
  lemma {:induction false} EnteredAdds(table: map<Text, Handle>, handles: seq<Handle>)
    requires forall h | h in handles :: h.handleId !in table
    requires forall j, k | 0 <= j < k < |handles| :: handles[j].handleId != handles[k].handleId
    ensures forall id | id in table :: id in Entered(table, handles) && Entered(table, handles)[id] == table[id]
    ensures forall h | h in handles :: InTable(Entered(table, handles), h)
    ensures forall id | id in Entered(table, handles) ::
              id in table || (Entered(table, handles)[id] in handles && Entered(table, handles)[id].handleId == id)
    decreases |handles|
  {
    if handles != [] {
      var h, rest := handles[0], handles[1..];
      assert handles == [h] + rest;
      forall j, k | 0 <= j < k < |rest| ensures rest[j].handleId != rest[k].handleId {
        assert rest[j] == handles[j + 1] && rest[k] == handles[k + 1];
      }
      forall o | o in rest ensures o.handleId != h.handleId {
        var k :| 0 <= k < |rest| && rest[k] == o;
        assert o == handles[k + 1] && h == handles[0];
      }
      EnteredAdds(table[h.handleId := h], rest);
    }
  }

  /** The handles of an envelope that is not confirmed yet are new to the table. */
  lemma HandlesAreNew(cfg: Config, w: World, c: nat, r: Ready)
    requires cfg.Valid() && Holds(cfg, w) && WellMade(cfg, w.shared.handles, r)
    requires c in w.calls ==> !IsConfirmed(w.calls[c])
    requires IsNext(w, c, r)
    ensures forall h | h in r.handles :: h.handleId !in w.shared.handles
    ensures forall j, k | 0 <= j < k < |r.handles| :: r.handles[j].handleId != r.handles[k].handleId
  {
    hide WellMade;
    forall h | h in r.handles ensures h.handleId !in w.shared.handles {
      if h.handleId in w.shared.handles {
        var entry := w.shared.handles[h.handleId];
        assert Issued(w, entry);
        var d :| d in w.calls && IsConfirmed(w.calls[d]) && entry in ReadyOf(w.calls[d]).value.handles;
        var o := ReadyOf(w.calls[d]).value;
        var j :| 0 <= j < |r.handles| && r.handles[j] == h;
        var k :| 0 <= k < |o.handles| && o.handles[k] == entry;
        assert PhaseHolds(cfg, w.shared, w.calls[d]);
        IdsAreDistinct(cfg, w.shared.handles, r, o, j, k);
      }
    }
    forall j, k | 0 <= j < k < |r.handles| ensures r.handles[j].handleId != r.handles[k].handleId {
      IdsAreDistinct(cfg, w.shared.handles, r, r, j, k);
    }
  }

  /** The envelope is this call's, or its numbers come behind all that were given out. */
  ghost predicate IsNext(w: World, c: nat, r: Ready) {
    (c in w.calls && ReadyOf(w.calls[c]) == Some(r)) || w.shared.sequence <= Start(r)
  }

  // ---- One step -----------------------------------------------------------------------------------

  /** What each step does to the shared state and to its call. */
  ghost predicate Moves(cfg: Config, w: World, c: nat, s: Shared, p: Phase)
    requires cfg.Valid()
  {
    && (c in w.calls ==> !w.calls[c].Finished?)
    && s.sequence >= w.shared.sequence
    && PhaseHolds(cfg, w.shared.(sequence := s.sequence), p)
    && (ReadyOf(p).Some? ==> IsNext(w, c, ReadyOf(p).value))
    && s.handles == if IsConfirmed(p) then Entered(w.shared.handles, ReadyOf(p).value.handles) else w.shared.handles
  }

  /** A larger table keeps what was known of a call. */
  lemma LargerTable(cfg: Config, s: Shared, t: Shared, p: Phase)
    requires cfg.Valid() && PhaseHolds(cfg, s, p) && s.sequence <= t.sequence
    requires forall id | id in s.handles :: id in t.handles && t.handles[id] == s.handles[id]
    ensures PhaseHolds(cfg, t, p)
  {
  }

  lemma MovesKeep(cfg: Config, w: World, c: nat, s: Shared, p: Phase)
    requires cfg.Valid() && Holds(cfg, w) && Moves(cfg, w, c, s, p)
    ensures Holds(cfg, World(s, w.calls[c := p]))
    ensures forall id | id in w.shared.handles :: id in s.handles && s.handles[id] == w.shared.handles[id]
  {
    hide WellMade, Admissible, Usable, Restricted, Entered;
    var u := World(s, w.calls[c := p]);
    var middle := w.shared.(sequence := s.sequence);
    if IsConfirmed(p) {
      var r := ReadyOf(p).value;
      SameTable(cfg, middle, w.shared, p);
      HandlesAreNew(cfg, w, c, r);
      EnteredAdds(w.shared.handles, r.handles);
    }
    forall d | d in u.calls ensures PhaseHolds(cfg, s, u.calls[d]) {
      LargerTable(cfg, if d == c then middle else w.shared, s, u.calls[d]);
    }
    forall d, e | d in u.calls && e in u.calls && d != e && ReadyOf(u.calls[d]).Some? && ReadyOf(u.calls[e]).Some?
      ensures Apart(ReadyOf(u.calls[d]).value, ReadyOf(u.calls[e]).value)
    {
      if d == c {
        assert PhaseHolds(cfg, w.shared, w.calls[e]);
      } else if e == c {
        assert PhaseHolds(cfg, w.shared, w.calls[d]);
      }
    }
    StillIssued(w, c, s, p);
  }

  lemma SameTable(cfg: Config, s: Shared, t: Shared, p: Phase)
    requires cfg.Valid() && PhaseHolds(cfg, s, p) && ReadyOf(p).Some? && s.handles == t.handles
    ensures WellMade(cfg, t.handles, ReadyOf(p).value)
  {
  }

  lemma StillIssued(w: World, c: nat, s: Shared, p: Phase)
    requires TableIsIssued(w) && (c in w.calls ==> !w.calls[c].Finished?)
    requires forall id | id in w.shared.handles :: id in s.handles && s.handles[id] == w.shared.handles[id]
    requires IsConfirmed(p) ==> forall h | h in ReadyOf(p).value.handles :: InTable(s.handles, h)
    requires forall id | id in s.handles ::
               id in w.shared.handles
               || (IsConfirmed(p) && s.handles[id] in ReadyOf(p).value.handles && s.handles[id].handleId == id)
    ensures TableIsIssued(World(s, w.calls[c := p]))
  {
    var u := World(s, w.calls[c := p]);
    forall id | id in s.handles ensures s.handles[id].handleId == id && Issued(u, s.handles[id]) {
      if id in w.shared.handles {
        var h := w.shared.handles[id];
        assert Issued(w, h);
        var d :| d in w.calls && IsConfirmed(w.calls[d]) && h in ReadyOf(w.calls[d]).value.handles;
        assert u.calls[d] == w.calls[d];
      } else {
        assert u.calls[c] == p;
      }
    }
  }

  /** A context that an observation leaves can be used, and nobody is denied it. */
  lemma SeenIsUsable(revocations: set<Denial>, q: Request, view: View, raw: Raw)
    requires Observation(revocations, q, view, raw).1.Seen?
    ensures var (after, seen) := Observation(revocations, q, view, raw);
            Usable(q, view, seen.context) && DenialOf(seen.context, view) !in after
  {
    hide Identifier, IsScope, ScopeOf;
    var v := raw.value;
    assert IsIdentifier(Member(v, HostId)) && IsIdentifier(Member(v, HostEpoch));
  }

  /** The rest of `Moves` for a call that is not finished and has nothing ready. */
  lemma DispatchedMoves(cfg: Config, w: World, c: nat, s: Shared, prepared: Prepared, known: bool)
    requires cfg.Valid() && (c in w.calls ==> !w.calls[c].Finished?)
    requires s.handles == w.shared.handles && s.sequence >= w.shared.sequence
    requires prepared.ReadyEnvelope? ==>
               && WellMade(cfg, w.shared.handles, prepared.ready) && prepared.ready.receipt <= s.sequence
               && IsNext(w, c, prepared.ready)
    ensures var (t, p) := Dispatched(cfg, s, prepared, known); Moves(cfg, w, c, t, p)
  {
    hide WellMade, Entered;
  }

  lemma BegunMoves(cfg: Config, w: World, step: Step)
    requires cfg.Valid() && Holds(cfg, w) && step.Begin? && Enabled(w, step)
    ensures var (s, p) := Outcome(cfg, w, step); Moves(cfg, w, step.call, s, p)
  {
    hide Inspect, Proper, Attested, Confirmed, ProjectionError, HandleError, Moves, Refusal;
    var (s, p) := Outcome(cfg, w, step);
    match Inspect(cfg.versions, step.candidate)
    case Uninspectable => Unmoved(cfg, w, step.call, p);
    case Rejected(_, _) =>
      Unmoved(cfg, w, step.call, Finished(TransportFailure));
      DispatchedMoves(cfg, w, step.call, w.shared, AdmissionResponse, step.known);
    case Admitted(record) =>
      if p.Observing? {
        InspectedRequest(cfg.versions, step.candidate);
        AdmittedIsProper(cfg.versions, step.candidate, record.request.value);
        Unmoved(cfg, w, step.call, p);
      } else if step.limit.None? {
        Unmoved(cfg, w, step.call, p);
      } else {
        RefusalMoves(cfg, w, step, record);
      }
  }

  lemma InspectedRequest(v: Versions, c: Json)
    requires Inspect(v, c).Admitted? && Inspect(v, c).record.request.Some?
    ensures var q := Inspect(v, c).record.request.value;
            Inspect(v, c).record == Record(q.requestId, q.budgetBytes, Some(q), None)
  {
    hide Opening, Shape, AskOf;
  }

  /** Nothing but the phase of a call changes, and nothing is ready. */
  lemma Unmoved(cfg: Config, w: World, c: nat, p: Phase)
    requires cfg.Valid() && (c in w.calls ==> !w.calls[c].Finished?)
    requires PhaseHolds(cfg, w.shared, p) && ReadyOf(p).None?
    ensures Moves(cfg, w, c, w.shared, p)
  {
  }

  lemma RefusalMoves(cfg: Config, w: World, step: Step, record: Record)
    requires cfg.Valid() && step.Begin? && Enabled(w, step) && step.limit.Some?
    requires Inspect(cfg.versions, step.candidate) == Admitted(record)
    requires !Outcome(cfg, w, step).1.Observing?
    ensures var (s, p) := Outcome(cfg, w, step); Moves(cfg, w, step.call, s, p)
  {
    hide Inspect, EarlyError, Dispatched, Refusal, Moves;
    forall code, states {
      DispatchedMoves(cfg, w, step.call, w.shared, Refusal(cfg, record.requestId, record.budgetBytes, code, states), step.known);
    }
  }

  lemma StoppedMoves(cfg: Config, w: World, c: nat, s: Shared, q: Request, seen: Observed)
    requires cfg.Valid() && c in w.calls && !w.calls[c].Finished? && !seen.Seen?
    requires s.handles == w.shared.handles && s.sequence == w.shared.sequence
    ensures var (t, p) := Stopped(cfg, s, q, seen); Moves(cfg, w, c, t, p)
  {
    hide Refusal;
    if seen.Failed? {
      var states := States(Complete, if seen.code == HostDenied then Denied else Unasked, NotEvaluated);
      DispatchedMoves(cfg, w, c, s, Refusal(cfg, q.requestId, q.budgetBytes, seen.code, states), true);
    }
  }

  lemma FirstMoves(cfg: Config, w: World, step: Step)
    requires cfg.Valid() && Holds(cfg, w) && step.Observe? && Enabled(w, step) && w.calls[step.call].Observing?
    ensures var (s, p) := Outcome(cfg, w, step); Moves(cfg, w, step.call, s, p)
  {
    hide Observation, Project, Scoped, Refusal, Dispatched, Admissible, Usable, Stopped;
    var c := step.call;
    var q, view := w.calls[c].q, w.calls[c].view;
    assert PhaseHolds(cfg, w.shared, w.calls[c]);
    var (revocations, seen) := Observation(w.shared.revocations, q, view, step.raw);
    var t := w.shared.(revocations := revocations);
    if !seen.Seen? {
      StoppedMoves(cfg, w, c, t, q, seen);
    } else {
      SeenIsUsable(w.shared.revocations, q, view, step.raw);
      forall code {
        DispatchedMoves(cfg, w, c, t,
          Refusal(cfg, q.requestId, q.budgetBytes, code, States(Complete, Unasked, NotEvaluated)), true);
      }
    }
  }

  lemma SecondMoves(cfg: Config, w: World, step: Step)
    requires cfg.Valid() && Holds(cfg, w) && step.Observe? && Enabled(w, step) && w.calls[step.call].Confirming?
    ensures var (s, p) := Outcome(cfg, w, step); Moves(cfg, w, step.call, s, p)
  {
    hide Observation, Project, Scoped, Refusal, Dispatched, Admissible, Usable, Stopped, Replied, MintedFor;
    var c := step.call;
    var call := w.calls[c];
    var q, view := call.q, call.view;
    assert PhaseHolds(cfg, w.shared, call);
    var (revocations, seen) := Observation(w.shared.revocations, q, view, step.raw);
    var t := w.shared.(revocations := revocations);
    if !seen.Seen? {
      StoppedMoves(cfg, w, c, t, q, seen);
    } else {
      SeenIsUsable(w.shared.revocations, q, view, step.raw);
      var scoped := Scoped(call.body, AsSet(seen.context.scope));
      if scoped.None? {
        DispatchedMoves(cfg, w, c, t,
          Refusal(cfg, q.requestId, q.budgetBytes, ScopeDenied, States(Complete, Unasked, NotEvaluated)), true);
      } else {
        var ready := Composed(cfg, t.sequence, q, view, call.first, seen.context, scoped.value);
        TwoScopesAreOne(Project(cfg.fields, q.ask, view).value, AsSet(call.first.scope), AsSet(seen.context.scope));
        assert WellMade(cfg, w.shared.handles, ready);
        RepliedIs(cfg, ready);
        DispatchedMoves(cfg, w, c, t.(sequence := ready.receipt), Replied(cfg, ready), true);
      }
    }
  }

  lemma RepliedIs(cfg: Config, ready: Ready)
    ensures Replied(cfg, ready).ReadyEnvelope? ==> Replied(cfg, ready).ready == ready
    ensures !Replied(cfg, ready).AdmissionResponse?
  {
    hide Answered;
  }

  lemma DeliveryMoves(cfg: Config, w: World, step: Step)
    requires cfg.Valid() && Holds(cfg, w) && step.Deliver? && Enabled(w, step)
    ensures var (s, p) := Outcome(cfg, w, step); Moves(cfg, w, step.call, s, p)
  {
    hide WellMade, Entered, Admissible, Usable, Restricted;
    assert PhaseHolds(cfg, w.shared, w.calls[step.call]);
  }

  lemma StepKeeps(cfg: Config, w: World, step: Step)
    requires cfg.Valid() && Holds(cfg, w) && Enabled(w, step)
    ensures Holds(cfg, After(cfg, w, step))
    ensures var t := After(cfg, w, step).shared.handles;
            forall id | id in w.shared.handles :: id in t && t[id] == w.shared.handles[id]
  {
    hide Moves, Outcome, PhaseHolds;
    if step.Elsewhere? {
      ElsewhereKeeps(cfg, w, step.numbers);
    } else {
      if step.Begin? {
        BegunMoves(cfg, w, step);
      } else if step.Deliver? {
        DeliveryMoves(cfg, w, step);
      } else if w.calls[step.call].Observing? {
        FirstMoves(cfg, w, step);
      } else {
        SecondMoves(cfg, w, step);
      }
      var (s, p) := Outcome(cfg, w, step);
      MovesKeep(cfg, w, step.call, s, p);
    }
  }

  lemma ElsewhereKeeps(cfg: Config, w: World, numbers: nat)
    requires cfg.Valid() && Holds(cfg, w)
    ensures Holds(cfg, w.(shared := w.shared.(sequence := w.shared.sequence + numbers)))
  {
    hide WellMade, Admissible, Usable, Restricted;
    var u := w.(shared := w.shared.(sequence := w.shared.sequence + numbers));
    forall c | c in u.calls ensures PhaseHolds(cfg, u.shared, u.calls[c]) {
      LargerTable(cfg, w.shared, u.shared, w.calls[c]);
    }
    forall id | id in u.shared.handles ensures Issued(u, u.shared.handles[id]) {
      assert Issued(w, w.shared.handles[id]);
    }
  }

  lemma ReadyIsWellMade(cfg: Config, ws: seq<World>, steps: seq<Step>, k: nat, c: nat)
    requires IsRun(cfg, ws, steps) && k < |ws| && c in ws[k].calls && ReadyOf(ws[k].calls[c]).Some?
    ensures cfg.Valid() && WellMade(cfg, ws[k].shared.handles, ReadyOf(ws[k].calls[c]).value)
  {
    hide IsRun, WellMade;
    RunHolds(cfg, ws, steps, k);
    assert PhaseHolds(cfg, ws[k].shared, ws[k].calls[c]);
  }

  lemma {:induction false} RunHolds(cfg: Config, ws: seq<World>, steps: seq<Step>, k: nat)
    requires IsRun(cfg, ws, steps) && k < |ws|
    ensures cfg.Valid() && Holds(cfg, ws[k])
  {
    if k > 0 {
      RunHolds(cfg, ws, steps, k - 1);
      StepKeeps(cfg, ws[k - 1], steps[k - 1]);
    }
  }
}
