/**
 When a read is answered: what a request, a snapshot and two observations must be for a call
 to become ready, and that nothing else makes it ready.
 */
module ReadAnswers {
  import opened Bytes
  import opened JsonValues
  import opened ReadValues
  import opened ReadBudget
  import opened ReadAdmission
  import opened ReadProjection
  import opened ReadHost
  import opened ReadCalls
  import opened ReadRuns
  import opened ReadBodies

  // ---- Requests and snapshots ---------------------------------------------------------------

  /** The snapshot is of this version tuple, and the selected judgment is in its catalog, once. */
  ghost predicate Matches(v: Versions, q: Request, view: View) {
    && view.tuple == v.value
    && (q.ask.Exact? || q.ask.Expand? ==>
          && q.ask.selected.assetId == view.assetId && q.ask.selected.assetVersion == view.assetVersion
          && exists k: nat :: IsOnly(view.catalog, k, q.ask.selected.judgmentId))
  }

  ghost predicate IsOnly(catalog: seq<Entry>, k: nat, judgmentId: Text) {
    && k < |catalog| && catalog[k].judgmentId == judgmentId
    && forall j | 0 <= j < |catalog| && catalog[j].judgmentId == judgmentId :: j == k
  }

  /** The handle was entered as it is, and is of these versions, this snapshot, asset and selection, and of this target's scope. */
  ghost predicate IsOurs(v: Versions, table: map<Text, Handle>, s: Selection, h: Handle, view: View)
    requires Core in v.value && Ir in v.value && Read in v.value
  {
    && h.handleId in table && table[h.handleId] == h
    && h.coreVersion == v.value[Core] && h.irVersion == v.value[Ir] && h.readVersion == v.value[Read]
    && h.snapshotId == view.snapshotId && h.a == view.a && h.c == view.c
    && h.assetId == view.assetId && h.assetVersion == view.assetVersion && h.selection == s
    && exists k :: IsTarget(view, h.target, s, k) && forall id :: id in view.targets[k].scope <==> id in h.scope
  }

  /** What lets a call wait for an observation. */
  ghost predicate MayBegin(cfg: Config, table: map<Text, Handle>, candidate: Json, limit: Option<nat>, core: CoreOutcome,
                           known: bool, q: Request, view: View)
    requires cfg.Valid()
  {
    && Proper(q) && candidate == CandidateJson(cfg.versions, q) && limit.Some? && core == Accepted(view) && known
    && Matches(cfg.versions, q, view)
    && (q.ask.Expand? ==> IsOurs(cfg.versions, table, q.ask.selected, q.ask.handle, view))
  }

  lemma FoundOnce(catalog: seq<Entry>, judgmentId: Text)
    ensures |Where(catalog, (e: Entry) => e.judgmentId == judgmentId)| == 1 <==> exists k: nat :: IsOnly(catalog, k, judgmentId)
  {
    var wanted := (e: Entry) => e.judgmentId == judgmentId;
    var places := WherePicks(catalog, wanted);
    if |places| == 1 {
      assert places[0] in places;
      assert IsOnly(catalog, places[0], judgmentId);
    }
    if k: nat :| IsOnly(catalog, k, judgmentId) {
      assert k in places;
      var i :| 0 <= i < |places| && places[i] == k;
      forall j | 0 <= j < |places| ensures places[j] == k {
        assert places[j] in places;
      }
      AllAt(places, i, k);
    }
  }

  lemma AllAt(places: seq<nat>, i: nat, k: nat)
    requires i < |places| && (forall j | 0 <= j < |places| :: places[j] == k)
    requires forall j, l | 0 <= j < l < |places| :: places[j] < places[l]
    ensures |places| == 1
  {
    var j := if i == 0 then |places| - 1 else 0;
    assert places[j] == places[i] == k;
  }

  lemma MatchesExactly(v: Versions, q: Request, view: View)
    ensures ProjectionError(v, q, view).None? <==> Matches(v, q, view)
  {
    hide Where, IsOnly;
    if q.Selected().Some? { FoundOnce(view.catalog, q.ask.selected.judgmentId); }
  }

  lemma TargetExactly(view: View, target: Text, s: Selection) returns (k: int)
    ensures TargetOf(view, target, s).Some? ==> IsTarget(view, target, s, k) && view.targets[k] == TargetOf(view, target, s).value
    ensures TargetOf(view, target, s).None? ==> forall j :: !IsTarget(view, target, s, j)
    ensures forall j | IsTarget(view, target, s, j) :: j == k
  {
    k := NextIsFirst(view.targets, (t: ExpansionTarget) => t.target == target && t.selection == s);
    forall j | IsTarget(view, target, s, j) ensures j == k {
      FirstIsUnique(view.targets, j, k, (t: ExpansionTarget) => t.target == target && t.selection == s);
    }
  }

  lemma HandleExactly(v: Versions, table: map<Text, Handle>, q: Request, view: View)
    requires Core in v.value && Ir in v.value && Read in v.value && q.ask.Expand?
    ensures InTable(table, q.ask.handle) && HandleError(v, q, view).None? <==> IsOurs(v, table, q.ask.selected, q.ask.handle, view)
  {
    hide TargetOf, IsTarget;
    var h := q.ask.handle;
    var k := TargetExactly(view, h.target, q.ask.selected);
    var target := TargetOf(view, h.target, q.ask.selected);
    if target.Some? {
      var scope := target.value.scope;
      assert AsSet(scope) == AsSet(h.scope) <==> forall id :: id in scope <==> id in h.scope by {
        if AsSet(scope) == AsSet(h.scope) {
          forall id ensures id in scope <==> id in h.scope {
            assert id in scope <==> id in AsSet(scope);
            assert id in h.scope <==> id in AsSet(h.scope);
          }
        }
      }
    }
  }

  /** A call waits for its first observation exactly when its candidate, control and snapshot let it; nothing is shared with it. */
  lemma BeginsExactly(cfg: Config, s: Shared, candidate: Json, limit: Option<nat>, core: CoreOutcome, known: bool, q: Request, view: View)
    requires cfg.Valid()
    ensures Begun(cfg, s, candidate, limit, core, known).1 == Observing(q, view) <==>
              MayBegin(cfg, s.handles, candidate, limit, core, known, q, view)
    ensures Begun(cfg, s, candidate, limit, core, known).1.Observing? ==> Begun(cfg, s, candidate, limit, core, known).0 == s
  {
    hide Proper, CandidateJson, EarlyError, Matches, IsOurs, Refusal, Inspect, Dispatched;
    AdmitsExactlyProperRequests(cfg.versions, candidate, q);
    EarlyExactly(cfg, s, q, view, known);
    NothingObserves(cfg, s, candidate, known);
    if Inspect(cfg.versions, candidate).Admitted? && Inspect(cfg.versions, candidate).record.request.Some? {
      InspectedRequest(cfg.versions, candidate);
    }
  }

  lemma NothingObserves(cfg: Config, s: Shared, candidate: Json, known: bool)
    ensures forall prepared :: !Dispatched(cfg, s, prepared, known).1.Observing?
  {
  }

  lemma EarlyExactly(cfg: Config, s: Shared, q: Request, view: View, known: bool)
    requires cfg.Valid()
    ensures EarlyError(cfg, s, q, view, known).None? <==>
              && known && Matches(cfg.versions, q, view)
              && (q.ask.Expand? ==> IsOurs(cfg.versions, s.handles, q.ask.selected, q.ask.handle, view))
  {
    hide ProjectionError, HandleError, Matches, IsOurs;
    MatchesExactly(cfg.versions, q, view);
    if q.ask.Expand? { HandleExactly(cfg.versions, s.handles, q, view); }
    NoHandleError(cfg.versions, q, view);
  }

  lemma NoHandleError(v: Versions, q: Request, view: View)
    requires Core in v.value && Ir in v.value && Read in v.value
    ensures !q.ask.Expand? ==> HandleError(v, q, view).None?
  {
  }

  // ---- Observations -----------------------------------------------------------------------------

  const ALLOWED_KEYS: set<Key> := {
    HostId, HostEpoch, DecisionId, RequestId, SnapshotId, DigestA, DigestC, Scope, IssuedAt, ExpiresAt, Decision, PolicyId,
    CurrentMs, Revoked, LiftDenial}

  ghost predicate Says(v: Json, k: Key, t: Text) { v.Dict? && k in v.entries && v.entries[k] == Chars(t) }

  ghost predicate Names(v: Json, k: Key) { v.Dict? && k in v.entries && v.entries[k].Chars? && Identifier(v.entries[k].text) }

  ghost predicate Counts(v: Json, k: Key, n: nat) { v.Dict? && k in v.entries && v.entries[k] == Whole(n) && n <= 0x1f_ffff_ffff_ffff }

  /** It may be missing. */
  ghost predicate IsFlag(v: Json, k: Key) { v.Dict? && (k in v.entries ==> v.entries[k].Truth?) }

  ghost predicate IsSet(v: Json, k: Key) { v.Dict? && k in v.entries && v.entries[k] == Truth(true) }

  /** The observation is about this request and this snapshot, and says who decides, when, and on what scope. */
  ghost predicate IsAbout(q: Request, view: View, v: Json) {
    && v.Dict? && (forall k | k in v.entries :: k in ALLOWED_KEYS)
    && IsFlag(v, Revoked) && IsFlag(v, LiftDenial)
    && Names(v, HostId) && Names(v, HostEpoch) && Names(v, DecisionId) && Names(v, PolicyId)
    && Names(v, RequestId) && Says(v, RequestId, q.requestId) && Names(v, SnapshotId) && Says(v, SnapshotId, view.snapshotId)
    && Says(v, DigestA, view.a) && Says(v, DigestC, view.c)
    && Scope in v.entries && IsListOfNames(v.entries[Scope])
  }

  ghost predicate IsListOfNames(v: Json) {
    && v.List? && (forall j | 0 <= j < |v.items| :: v.items[j].Chars? && Identifier(v.items[j].text))
    && forall j, k | 0 <= j < k < |v.items| :: v.items[j] != v.items[k]
  }

  /** The time of the observation is within its validity, of an hour at most. */
  ghost predicate IsTimely(v: Json, issued: nat, now: nat, expires: nat) {
    && Counts(v, IssuedAt, issued) && Counts(v, CurrentMs, now) && Counts(v, ExpiresAt, expires)
    && issued <= now < expires <= issued + 60 * 60 * 1000
  }

  /** It allows the read, is not revoked, and lifts what was denied before, if anything was. */
  ghost predicate Permits(revocations: set<Denial>, view: View, v: Json) {
    && Says(v, Decision, Ascii("allow")) && !IsSet(v, Revoked)
    && (IsSet(v, LiftDenial) || Denial(TextOf(Member(v, HostId)), TextOf(Member(v, HostEpoch)), view.assetId) !in revocations)
  }

  /** The handle is of the observed host and epoch, and valid at the observed time. */
  ghost predicate IsValidNow(h: Handle, v: Json, now: nat) {
    Says(v, HostId, h.hostId) && Says(v, HostEpoch, h.hostEpoch) && h.issuedAt <= now < h.expiresAt
  }

  ghost predicate LetsGoOn(revocations: set<Denial>, q: Request, view: View, raw: Raw, issued: nat, now: nat, expires: nat) {
    && raw.Gives? && IsAbout(q, view, raw.value) && IsTimely(raw.value, issued, now, expires)
    && Permits(revocations, view, raw.value) && (q.ask.Expand? ==> IsValidNow(q.ask.handle, raw.value, now))
  }

  lemma TrustedExactly(q: Request, view: View, v: Json)
    ensures Trusted(q, view, v) <==>
              && IsAbout(q, view, v)
              && (Says(v, Decision, Ascii("allow")) || Says(v, Decision, Ascii("deny")))
              && exists issued, expires ::
                   Counts(v, IssuedAt, issued) && Counts(v, ExpiresAt, expires) && issued < expires <= issued + 60 * 60 * 1000
  {
    hide Identifier, IsListOfNames, IsScope;
    Decisions(v);
    hide Ascii;
    ScopeExactly(Member(v, Scope));
    if Trusted(q, view, v) {
      assert IsIdentifier(Member(v, HostId)) && IsIdentifier(Member(v, HostEpoch)) && IsIdentifier(Member(v, DecisionId));
      assert IsIdentifier(Member(v, RequestId)) && IsIdentifier(Member(v, SnapshotId)) && IsIdentifier(Member(v, PolicyId));
      assert forall k | k in v.entries :: k in v.entries.Keys;
      assert IsFlag(v, Revoked) && IsFlag(v, LiftDenial);
      assert Names(v, HostId) && Names(v, HostEpoch) && Names(v, DecisionId) && Names(v, PolicyId);
      assert Names(v, RequestId) && Says(v, RequestId, q.requestId) && Names(v, SnapshotId) && Says(v, SnapshotId, view.snapshotId);
      assert Says(v, DigestA, view.a) && Says(v, DigestC, view.c);
      assert Scope in v.entries && IsListOfNames(v.entries[Scope]);
    }
    if IsAbout(q, view, v) {
      assert v.entries.Keys <= CONTEXT_KEYS;
      assert IsScope(Member(v, Scope));
    }
    if Trusted(q, view, v) {
      assert Counts(v, IssuedAt, Member(v, IssuedAt).n) && Counts(v, ExpiresAt, Member(v, ExpiresAt).n);
    }
  }

  lemma Decisions(v: Json)
    ensures Member(v, Decision) == Chars(ALLOW) <==> Says(v, Decision, Ascii("allow"))
    ensures Member(v, Decision) == Chars(DENY) <==> Says(v, Decision, Ascii("deny"))
    ensures ALLOW != DENY
  {
    assert ALLOW == Ascii("allow") && DENY == Ascii("deny") && |ALLOW| != |DENY|;
  }

  lemma ScopeExactly(v: Json)
    ensures IsScope(v) <==> IsListOfNames(v)
    ensures IsScope(v) ==> v.List?
  {
    hide Identifier;
    if v.List? {
      assert forall j | 0 <= j < |v.items| :: v.items[j] in v.items;
    }
  }

  lemma UsableExactly(q: Request, view: View, v: Json)
    ensures var c := ContextOf(v);
            ObservationError(q, view, v).None? <==>
              && IsAbout(q, view, v)
              && (Says(v, Decision, Ascii("allow")) || Says(v, Decision, Ascii("deny")))
              && IsTimely(v, c.issuedAt, c.currentMs, c.expiresAt)
              && (q.ask.Expand? ==> IsValidNow(q.ask.handle, v, c.currentMs))
  {
    hide Trusted, IsAbout, Identifier, ScopeOf, Ascii;
    TrustedExactly(q, view, v);
    if IsAbout(q, view, v) { NamesAreTexts(q, view, v); }
  }

  lemma NamesAreTexts(q: Request, view: View, v: Json)
    requires IsAbout(q, view, v)
    ensures v.Dict? && Member(v, HostId).Chars? && Member(v, HostEpoch).Chars?
  {
    hide Identifier;
  }

  /** An observation lets a call go on exactly when it is about it, timely, and permits it. */
  lemma ObservesExactly(revocations: set<Denial>, q: Request, view: View, raw: Raw, c: Context)
    ensures Observation(revocations, q, view, raw).1 == Seen(c) <==>
              && LetsGoOn(revocations, q, view, raw, c.issuedAt, c.currentMs, c.expiresAt)
              && c == ContextOf(raw.value)
  {
    hide IsAbout, IsTimely, IsValidNow, ObservationError, ScopeOf, Ascii, Says;
    if raw.Gives? {
      UsableExactly(q, view, raw.value);
      Decisions(raw.value);
      FlagsAre(raw.value);
    }
  }

  lemma FlagsAre(v: Json)
    ensures ContextOf(v).lift <==> IsSet(v, LiftDenial)
    ensures ContextOf(v).revoked <==> IsSet(v, Revoked)
    ensures ContextOf(v).allow <==> Says(v, Decision, Ascii("allow"))
    ensures ContextOf(v).hostId == TextOf(Member(v, HostId)) && ContextOf(v).hostEpoch == TextOf(Member(v, HostEpoch))
  {
    Decisions(v);
  }

  // ---- Bodies ---------------------------------------------------------------------------------------

  /** The snapshot has all the nodes that the request discloses. */
  ghost predicate HasBody(ask: Ask, view: View) {
    exists ids :: Discloses(ask, view, ids) && forall id | id in ids :: HasNode(view, id)
  }

  ghost predicate HasNode(view: View, id: Text) { exists n | n in view.nodes :: n.id == id }

  /** The scope covers them all. */
  ghost predicate Covers(ask: Ask, view: View, scope: seq<Text>) {
    exists ids :: Discloses(ask, view, ids) && forall id | id in ids :: id in scope
  }

  lemma DisclosesOnce(ask: Ask, view: View, ids: seq<Text>)
    requires Discloses(ask, view, ids)
    ensures Disclosed(ask, view) == Some(ids)
  {
    DisclosedIs(ask, view);
    var found := Disclosed(ask, view).value;
    if ask.Exact? {
      forall j, k | IsMandatory(view, ask.selected, j) && IsMandatory(view, ask.selected, k) ensures j == k {
        FirstIsUnique(view.closures, j, k, (c: Closure) => c.selection == ask.selected);
      }
    } else if ask.Expand? {
      var k := TargetExactly(view, ask.handle.target, ask.selected);
    }
  }

  lemma BodyExactly(fields: seq<Text>, ask: Ask, view: View)
    ensures Project(fields, ask, view).Some? <==> HasBody(ask, view)
  {
    hide Discloses, Where, Omissions, IsDeclaration, IsClaim, Disclosed, HasClaim, Participates;
    DisclosedIs(ask, view);
    if HasBody(ask, view) {
      var ids :| Discloses(ask, view, ids) && forall id | id in ids :: HasNode(view, id);
      DisclosesOnce(ask, view, ids);
      forall id | id in ids ensures NodeOf(view.nodes, id).Some? {
        assert HasNode(view, id);
      }
    }
    if Project(fields, ask, view).Some? {
      var ids := Disclosed(ask, view).value;
      forall id | id in ids ensures HasNode(view, id) {
        assert NodeOf(view.nodes, id).value in view.nodes;
      }
    }
  }

  lemma CoversExactly(fields: seq<Text>, ask: Ask, view: View, scope: seq<Text>)
    requires Project(fields, ask, view).Some?
    ensures Scoped(Project(fields, ask, view).value, AsSet(scope)).Some? <==> Covers(ask, view, scope)
  {
    hide Discloses, Where, Omissions, IsDeclaration, IsClaim, Disclosed, HasClaim, Participates, KeptRelationship;
    DisclosedIs(ask, view);
    var ids, closure := Disclosed(ask, view).value, Project(fields, ask, view).value.closure;
    if Covers(ask, view, scope) {
      var covered :| Discloses(ask, view, covered) && forall id | id in covered :: id in scope;
      DisclosesOnce(ask, view, covered);
      forall n | n in closure ensures n.id in AsSet(scope) {
        var k :| 0 <= k < |closure| && closure[k] == n;
        assert ids[k] in ids;
      }
    }
    if Scoped(Project(fields, ask, view).value, AsSet(scope)).Some? {
      forall id | id in ids ensures id in scope {
        var k :| 0 <= k < |ids| && ids[k] == id;
        assert closure[k] in closure;
      }
    }
  }

  /** A call goes on from its first observation exactly when that lets it, and covers what the snapshot has for it. */
  lemma ConfirmsExactly(cfg: Config, s: Shared, q: Request, view: View, raw: Raw)
    ensures var p := AfterFirst(cfg, s, q, view, raw).1;
            p.Confirming? <==>
              && raw.Gives?
              && var c := ContextOf(raw.value);
                 && LetsGoOn(s.revocations, q, view, raw, c.issuedAt, c.currentMs, c.expiresAt)
                 && HasBody(q.ask, view) && Covers(q.ask, view, c.scope)
    ensures var p := AfterFirst(cfg, s, q, view, raw).1;
            p.Confirming? ==>
              && p.q == q && p.view == view && p.first == ContextOf(raw.value)
              && HoldsExactly(cfg.fields, q.ask, view, AsSet(p.first.scope), p.body)
  {
    hide Observation, Project, Scoped, LetsGoOn, HasBody, Covers, Refusal, HoldsExactly, ContextOf, Dispatched;
    BodyExactly(cfg.fields, q.ask, view);
    if raw.Gives? {
      var c := ContextOf(raw.value);
      ObservesExactly(s.revocations, q, view, raw, c);
      if Project(cfg.fields, q.ask, view).Some? {
        CoversExactly(cfg.fields, q.ask, view, c.scope);
        if Scoped(Project(cfg.fields, q.ask, view).value, AsSet(c.scope)).Some? {
          ScopedHolds(cfg.fields, q.ask, view, AsSet(c.scope));
        }
      }
    }
    SeenIsGiven(s.revocations, q, view, raw);
    NothingConfirms(cfg, s.(revocations := Observation(s.revocations, q, view, raw).0));
  }

  lemma SeenIsGiven(revocations: set<Denial>, q: Request, view: View, raw: Raw)
    ensures Observation(revocations, q, view, raw).1.Seen? ==>
              raw.Gives? && Observation(revocations, q, view, raw).1 == Seen(ContextOf(raw.value))
  {
    hide ObservationError, ContextOf;
  }

  lemma NothingConfirms(cfg: Config, s: Shared)
    ensures forall prepared :: !Dispatched(cfg, s, prepared, true).1.Confirming?
  {
  }

  /** What the first observation left becomes ready exactly when the second one lets it, covers it as well, and the envelope fits. */
  lemma ReadiesExactly(cfg: Config, s: Shared, q: Request, view: View, first: Context, body: Body, raw: Raw)
    requires cfg.Valid() && Restricted(cfg, q, view, first, body)
    ensures ReadyOf(AfterSecond(cfg, s, q, view, first, body, raw).1).Some? <==>
              && raw.Gives?
              && var c := ContextOf(raw.value);
                 && LetsGoOn(s.revocations, q, view, raw, c.issuedAt, c.currentMs, c.expiresAt) && Covers(q.ask, view, c.scope)
                 && Scoped(body, AsSet(c.scope)).Some?
                 && Replied(cfg, Composed(cfg, s.sequence, q, view, first, c, Scoped(body, AsSet(c.scope)).value)).ReadyEnvelope?
  {
    hide Observation, Project, Scoped, LetsGoOn, Covers, Refusal, ContextOf, Replied, Composed;
    SeenIsGiven(s.revocations, q, view, raw);
    if raw.Gives? {
      var c := ContextOf(raw.value);
      ObservesExactly(s.revocations, q, view, raw, c);
      CoversTwice(cfg, q, view, first, body, c.scope);
      if Scoped(body, AsSet(c.scope)).Some? {
        RepliedIs(cfg, Composed(cfg, s.sequence, q, view, first, c, Scoped(body, AsSet(c.scope)).value));
      }
    }
  }

  lemma CoversTwice(cfg: Config, q: Request, view: View, first: Context, body: Body, scope: seq<Text>)
    requires Restricted(cfg, q, view, first, body)
    ensures Scoped(body, AsSet(scope)).Some? <==> Covers(q.ask, view, scope)
  {
    hide Project, Covers;
    CoversExactly(cfg.fields, q.ask, view, scope);
  }

  // ---- Handles --------------------------------------------------------------------------------------

  /** This target may be expanded from this selection, in this scope. */
  ghost predicate MayExpand(s: Selection, scope: seq<Text>, t: ExpansionTarget) {
    t.selection.judgmentId == s.judgmentId && forall id | id in t.scope :: id in scope
  }

  /** The handle of a target, under this number, with the times, host and epoch of the second observation. */
  ghost predicate IsHandleOf(v: Versions, r: Ready, h: Handle, t: ExpansionTarget, number: nat)
    requires Core in v.value && Ir in v.value && Read in v.value && r.q.ask.Exact?
  {
    && h.handleId == Ascii("handle:") + r.view.snapshotId + [COLON] + NatText(number)
    && h.assetId == r.view.assetId && h.assetVersion == r.view.assetVersion && h.a == r.view.a && h.c == r.view.c
    && h.snapshotId == r.view.snapshotId && h.selection == r.q.ask.selected && h.target == t.target && h.scope == t.scope
    && h.coreVersion == v.value[Core] && h.irVersion == v.value[Ir] && h.readVersion == v.value[Read]
    && h.issuedAt == r.second.currentMs && h.hostId == r.second.hostId && h.hostEpoch == r.second.hostEpoch
    && h.expiresAt <= r.second.expiresAt && h.expiresAt <= r.second.currentMs + 60 * 60 * 1000
    && (h.expiresAt == r.second.expiresAt || h.expiresAt == r.second.currentMs + 60 * 60 * 1000)
  }

  lemma {:induction false} MintedPicks(v: Versions, view: View, s: Selection, c: Context, targets: seq<ExpansionTarget>, number: nat)
    requires Core in v.value && Ir in v.value && Read in v.value
    ensures var picked := Where(targets, (t: ExpansionTarget) => Expandable(s, c, t));
            && |Minted(v, view, s, c, targets, number)| == |picked|
            && forall k | 0 <= k < |picked| ::
                 Minted(v, view, s, c, targets, number)[k] == HandleFor(v, view, s, c, picked[k], number + 1 + k)
  {
    hide HandleFor;
    if targets != [] {
      MintedPicks(v, view, s, c, targets[1..], if Expandable(s, c, targets[0]) then number + 1 else number);
    }
  }

  /** These are the handles for the targets, in their order, numbered one by one up to the receipt. */
  ghost predicate AreHandles(v: Versions, r: Ready, targets: seq<ExpansionTarget>)
    requires Core in v.value && Ir in v.value && Read in v.value && r.q.ask.Exact?
  {
    && |targets| == |r.handles| && Start(r) >= 0
    && forall k | 0 <= k < |targets| :: IsHandleOf(v, r, r.handles[k], targets[k], Start(r) + 1 + k)
  }

  /** A ready envelope has a handle for each target that may be expanded, if the read was of a selection, and no other. */
  ghost predicate HasHandles(v: Versions, r: Ready)
    requires Core in v.value && Ir in v.value && Read in v.value
  {
    if r.q.ask.Exact? then
      exists targets ::
        && IsPick(targets, r.view.targets, (t: ExpansionTarget) => MayExpand(r.q.ask.selected, r.second.scope, t))
        && AreHandles(v, r, targets)
    else r.handles == []
  }

  lemma HandlesExactly(cfg: Config, ws: seq<World>, steps: seq<Step>, k: nat, c: nat)
    requires IsRun(cfg, ws, steps) && k < |ws| && c in ws[k].calls && ReadyOf(ws[k].calls[c]).Some?
    ensures cfg.Valid() && HasHandles(cfg.versions, ReadyOf(ws[k].calls[c]).value)
  {
    hide IsRun, Project, Scoped, Admissible, Usable, Where, IsPick, AreHandles, HandleFor;
    ReadyIsWellMade(cfg, ws, steps, k, c);
    var r := ReadyOf(ws[k].calls[c]).value;
    if r.q.ask.Exact? {
      var s, v := r.q.ask.selected, cfg.versions;
      var picked := Where(r.view.targets, (t: ExpansionTarget) => Expandable(s, r.second, t));
      MintedPicks(v, r.view, s, r.second, r.view.targets, Start(r));
      forall t ensures Expandable(s, r.second, t) <==> MayExpand(s, r.second.scope, t) {
        ExpandableIs(s, r.second, t);
      }
      PickIs(r.view.targets, (t: ExpansionTarget) => Expandable(s, r.second, t),
             (t: ExpansionTarget) => MayExpand(r.q.ask.selected, r.second.scope, t));
      TheirHandles(v, r, picked);
    }
  }

  lemma ExpandableIs(s: Selection, c: Context, t: ExpansionTarget)
    ensures Expandable(s, c, t) <==> MayExpand(s, c.scope, t)
  {
    assert forall id :: id in t.scope <==> id in AsSet(t.scope);
    assert forall id :: id in c.scope <==> id in AsSet(c.scope);
  }

  lemma TheirHandles(v: Versions, r: Ready, picked: seq<ExpansionTarget>)
    requires Core in v.value && Ir in v.value && Read in v.value && r.q.ask.Exact?
    requires |picked| == |r.handles| && Start(r) >= 0
    requires forall k | 0 <= k < |picked| ::
               r.handles[k] == HandleFor(v, r.view, r.q.ask.selected, r.second, picked[k], Start(r) + 1 + k)
    ensures AreHandles(v, r, picked)
  {
    assert HANDLE == Ascii("handle:");
    forall k | 0 <= k < |picked| ensures IsHandleOf(v, r, r.handles[k], picked[k], Start(r) + 1 + k) {
      hide Ascii;
      var number := Start(r) + 1 + k;
      assert HANDLE + r.view.snapshotId + [COLON] + NatText(number) == Ascii("handle:") + r.view.snapshotId + [COLON] + NatText(number);
    }
  }

  // ---- Whole runs -----------------------------------------------------------------------------------

  /** This step began the call, and was let. */
  ghost predicate BeganAt(cfg: Config, ws: seq<World>, steps: seq<Step>, b: int, c: nat, q: Request, view: View)
    requires cfg.Valid() && |ws| == |steps| + 1
  {
    && 0 <= b < |steps| && steps[b].Begin? && steps[b].call == c
    && MayBegin(cfg, ws[b].shared.handles, steps[b].candidate, steps[b].limit, steps[b].core, steps[b].known, q, view)
  }

  /** This step observed for the call, and let it go on. */
  ghost predicate LetAt(ws: seq<World>, steps: seq<Step>, i: int, c: nat, q: Request, view: View, seen: Context)
    requires |ws| == |steps| + 1
  {
    && 0 <= i < |steps| && steps[i].Observe? && steps[i].call == c
    && LetsGoOn(ws[i].shared.revocations, q, view, steps[i].raw, seen.issuedAt, seen.currentMs, seen.expiresAt)
    && seen == ContextOf(steps[i].raw.value) && Covers(q.ask, view, seen.scope)
  }

  /** How a call came to its phase. */
  ghost predicate CameAbout(cfg: Config, ws: seq<World>, steps: seq<Step>, k: nat, c: nat, p: Phase)
    requires cfg.Valid() && |ws| == |steps| + 1
  {
    match p
    case Observing(q, view) => exists b :: b < k && BeganAt(cfg, ws, steps, b, c, q, view)
    case Confirming(q, view, first, body) =>
      exists b, i :: b < i < k && BeganAt(cfg, ws, steps, b, c, q, view) && LetAt(ws, steps, i, c, q, view, first)
    case _ => ReadyOf(p).Some? ==> WasLet(cfg, ws, steps, k, c, ReadyOf(p).value)
  }

  /** Its candidate began the call, and then two observations let it go on, each covering what it discloses. */
  ghost predicate WasLet(cfg: Config, ws: seq<World>, steps: seq<Step>, k: nat, c: nat, r: Ready)
    requires cfg.Valid() && |ws| == |steps| + 1
  {
    exists b, i, j ::
      && b < i < j < k && BeganAt(cfg, ws, steps, b, c, r.q, r.view)
      && LetAt(ws, steps, i, c, r.q, r.view, r.first) && LetAt(ws, steps, j, c, r.q, r.view, r.second)
  }

  lemma LaterCameAbout(cfg: Config, ws: seq<World>, steps: seq<Step>, k: nat, c: nat, p: Phase)
    requires cfg.Valid() && |ws| == |steps| + 1 && CameAbout(cfg, ws, steps, k, c, p)
    ensures CameAbout(cfg, ws, steps, k + 1, c, p)
  {
    hide BeganAt, LetAt;
  }

  lemma {:induction false} HowItCame(cfg: Config, ws: seq<World>, steps: seq<Step>, k: nat, c: nat)
    requires IsRun(cfg, ws, steps) && k < |ws| && c in ws[k].calls
    ensures CameAbout(cfg, ws, steps, k, c, ws[k].calls[c])
    decreases k
  {
    hide CameAbout, Begun, AfterFirst, AfterSecond, AfterDelivery, Attested;
    if k > 0 {
      var w, step := ws[k - 1], steps[k - 1];
      assert Enabled(w, step) && ws[k] == After(cfg, w, step);
      if step.Elsewhere? || step.call != c {
        HowItCame(cfg, ws, steps, k - 1, c);
        LaterCameAbout(cfg, ws, steps, k - 1, c, ws[k].calls[c]);
      } else {
        if !step.Begin? { HowItCame(cfg, ws, steps, k - 1, c); }
        match step
        case Begin(_, _, _, _, _) => BegunCame(cfg, ws, steps, k - 1, c);
        case Observe(_, _) =>
          RunHolds(cfg, ws, steps, k - 1);
          if w.calls[c].Observing? {
            FirstCame(cfg, ws, steps, k - 1, c);
          } else {
            SecondCame(cfg, ws, steps, k - 1, c);
          }
        case Deliver(_, _) => DeliveredCame(cfg, ws, steps, k - 1, c);
      }
    }
  }

  lemma BegunCame(cfg: Config, ws: seq<World>, steps: seq<Step>, n: nat, c: nat)
    requires cfg.Valid() && |ws| == |steps| + 1 && n < |steps| && steps[n].Begin? && steps[n].call == c && Enabled(ws[n], steps[n])
    ensures CameAbout(cfg, ws, steps, n + 1, c, Outcome(cfg, ws[n], steps[n]).1)
  {
    hide MayBegin, WasLet;
    var step, s := steps[n], ws[n].shared;
    var p := Begun(cfg, s, step.candidate, step.limit, step.core, step.known).1;
    NothingReady(cfg, s, step.candidate, step.limit, step.core, step.known);
    hide Begun;
    if p.Observing? {
      BeginsExactly(cfg, s, step.candidate, step.limit, step.core, step.known, p.q, p.view);
      assert BeganAt(cfg, ws, steps, n, c, p.q, p.view);
    }
  }

  lemma NothingReady(cfg: Config, s: Shared, candidate: Json, limit: Option<nat>, core: CoreOutcome, known: bool)
    requires cfg.Valid()
    ensures var p := Begun(cfg, s, candidate, limit, core, known).1; ReadyOf(p).None? && !p.Confirming?
  {
    hide Inspect, EarlyError, Refusal;
  }

  lemma FirstCame(cfg: Config, ws: seq<World>, steps: seq<Step>, n: nat, c: nat)
    requires cfg.Valid() && |ws| == |steps| + 1 && n < |steps| && steps[n].Observe? && steps[n].call == c && Enabled(ws[n], steps[n])
    requires ws[n].calls[c].Observing? && CameAbout(cfg, ws, steps, n, c, ws[n].calls[c])
    ensures CameAbout(cfg, ws, steps, n + 1, c, Outcome(cfg, ws[n], steps[n]).1)
  {
    hide LetsGoOn, Covers, HasBody, BeganAt, HoldsExactly, WasLet;
    var q, view, raw := ws[n].calls[c].q, ws[n].calls[c].view, steps[n].raw;
    var p := AfterFirst(cfg, ws[n].shared, q, view, raw).1;
    ConfirmsExactly(cfg, ws[n].shared, q, view, raw);
    FirstIsNotReady(cfg, ws[n].shared, q, view, raw);
    hide AfterFirst;
    if p.Confirming? {
      var b :| b < n && BeganAt(cfg, ws, steps, b, c, q, view);
      assert LetAt(ws, steps, n, c, q, view, p.first);
    }
  }

  lemma FirstIsNotReady(cfg: Config, s: Shared, q: Request, view: View, raw: Raw)
    ensures var p := AfterFirst(cfg, s, q, view, raw).1; ReadyOf(p).None? && !p.Observing?
  {
    hide Observation, Project, Scoped, Refusal;
  }

  lemma SecondCame(cfg: Config, ws: seq<World>, steps: seq<Step>, n: nat, c: nat)
    requires cfg.Valid() && |ws| == |steps| + 1 && n < |steps| && steps[n].Observe? && steps[n].call == c && Enabled(ws[n], steps[n])
    requires Holds(cfg, ws[n]) && ws[n].calls[c].Confirming? && CameAbout(cfg, ws, steps, n, c, ws[n].calls[c])
    ensures CameAbout(cfg, ws, steps, n + 1, c, Outcome(cfg, ws[n], steps[n]).1)
  {
    hide LetsGoOn, Covers, BeganAt, Restricted, Scoped, Replied, Composed, Admissible, Usable;
    var call, raw := ws[n].calls[c], steps[n].raw;
    assert PhaseHolds(cfg, ws[n].shared, call);
    var p := AfterSecond(cfg, ws[n].shared, call.q, call.view, call.first, call.body, raw).1;
    ReadiesExactly(cfg, ws[n].shared, call.q, call.view, call.first, call.body, raw);
    SecondIs(cfg, ws[n].shared, call.q, call.view, call.first, call.body, raw);
    hide AfterSecond;
    if ReadyOf(p).Some? {
      var r := ReadyOf(p).value;
      var b, i :| b < i < n && BeganAt(cfg, ws, steps, b, c, call.q, call.view) && LetAt(ws, steps, i, c, call.q, call.view, call.first);
      assert LetAt(ws, steps, n, c, r.q, r.view, r.second);
      assert WasLet(cfg, ws, steps, n + 1, c, r);
    }
  }

  lemma SecondIs(cfg: Config, s: Shared, q: Request, view: View, first: Context, body: Body, raw: Raw)
    requires cfg.Valid()
    ensures var p := AfterSecond(cfg, s, q, view, first, body, raw).1;
            && !p.Observing? && !p.Confirming?
            && (ReadyOf(p).Some? ==>
                 var r := ReadyOf(p).value;
                 r.q == q && r.view == view && r.first == first && raw.Gives? && r.second == ContextOf(raw.value))
  {
    hide Observation, Scoped, Refusal, ContextOf, Replied, MintedFor;
    SeenIsGiven(s.revocations, q, view, raw);
    if raw.Gives? && Scoped(body, AsSet(ContextOf(raw.value).scope)).Some? {
      RepliedIs(cfg, Composed(cfg, s.sequence, q, view, first, ContextOf(raw.value), Scoped(body, AsSet(ContextOf(raw.value).scope)).value));
    }
  }

  lemma DeliveredCame(cfg: Config, ws: seq<World>, steps: seq<Step>, n: nat, c: nat)
    requires cfg.Valid() && |ws| == |steps| + 1 && n < |steps| && steps[n].Deliver? && steps[n].call == c && Enabled(ws[n], steps[n])
    requires CameAbout(cfg, ws, steps, n, c, ws[n].calls[c])
    ensures CameAbout(cfg, ws, steps, n + 1, c, Outcome(cfg, ws[n], steps[n]).1)
  {
    hide WasLet, BeganAt, LetAt, CameAbout;
    var was, p := ws[n].calls[c], Outcome(cfg, ws[n], steps[n]).1;
    LaterCameAbout(cfg, ws, steps, n, c, was);
    SameReadyCame(cfg, ws, steps, n + 1, c, was, p);
  }

  lemma SameReadyCame(cfg: Config, ws: seq<World>, steps: seq<Step>, k: nat, c: nat, was: Phase, p: Phase)
    requires cfg.Valid() && |ws| == |steps| + 1 && CameAbout(cfg, ws, steps, k, c, was)
    requires !p.Observing? && !p.Confirming? && (ReadyOf(p).Some? ==> was.Delivering? && ReadyOf(was) == ReadyOf(p))
    ensures CameAbout(cfg, ws, steps, k, c, p)
  {
    hide WasLet;
  }

  /**
   In every run, a call that is ready began with a candidate of its request, with a snapshot
   that goes with it, and was let go on by two observations after that, one after the other.
   */
  lemma ReadyWasLet(cfg: Config, ws: seq<World>, steps: seq<Step>, k: nat, c: nat)
    requires IsRun(cfg, ws, steps) && k < |ws| && c in ws[k].calls && ReadyOf(ws[k].calls[c]).Some?
    ensures cfg.Valid() && |ws| == |steps| + 1 && WasLet(cfg, ws, steps, k, c, ReadyOf(ws[k].calls[c]).value)
  {
    hide WasLet;
    HowItCame(cfg, ws, steps, k, c);
  }
}
