/**
 Read calls on one Host, cut at the points where they wait: for the first observation,
 for the second, and for the delivery. The functions say what each piece computes from
 the shared state; the methods of the Host are the pieces.
 */
module ReadCalls {
  import opened Bytes
  import opened JsonValues
  import opened JsonPrinter
  import opened ReadValues
  import opened ReadBudget
  import opened ReadAdmission
  import opened ReadProjection
  import opened ReadHost

  type PlainMembers = m: Members | forall name | name in m :: Plain(m[name]) witness map[]

  datatype CoreStates = Pending | Complete | Reported(core: Text, interpretation: Text)

  datatype Permission = Unasked | Denied | Allowed

  datatype States = States(core: CoreStates, permission: Permission, confirmation: Confirmation)

  /** What Core says of the input: a snapshot, or a reason and perhaps states. */
  datatype CoreOutcome = Accepted(view: View) | Refused(reason: Text, states: CoreStates)

  /** What a ready envelope is made of. */
  datatype Ready = Ready(
    q: Request, view: View, first: Context, second: Context, body: Body, handles: seq<Handle>, receipt: nat, states: States)

  /** What is prepared for delivery. */
  datatype Prepared =
    | AdmissionResponse
    | Unready(answer: Answer)
    | ReadyEnvelope(sheet: Sheet, ready: Ready)

  datatype Result = Delivered(prepared: Prepared) | TransportFailure

  datatype Phase =
    | Observing(q: Request, view: View)
    | Confirming(q: Request, view: View, first: Context, body: Body)
    | Delivering(prepared: Prepared)
    | Finished(result: Result)

  /** The constants of the contract, how envelopes are written, and whether the Host has a delivery callback. */
  datatype Config = Config(
    versions: Versions, fields: seq<Text>, render: Ready -> PlainMembers, refuse: (Text, Code, States) -> PlainMembers,
    delivers: bool)
  {
    ghost predicate Valid() { versions.Valid() }
  }

  // ---- What each piece computes --------------------------------------------------------------

  function Blank(members: PlainMembers, limit: Safe): (s: Sheet)
    ensures s.Valid()
  {
    Sheet(members, limit, Fixed(0), Fixed(0))
  }

  ghost function Refusal(cfg: Config, id: Text, budget: Safe, code: Code, states: States): (p: Prepared)
    ensures p.Unready?
  {
    var s := Blank(cfg.refuse(id, code, states), budget);
    Unready(Answered(s, false, Some(code), s))
  }

  /** Handles are entered under their ids. */
  function Entered(table: map<Text, Handle>, handles: seq<Handle>): map<Text, Handle>
    decreases |handles|
  {
    if handles == [] then table else Entered(table[handles[0].handleId := handles[0]], handles[1..])
  }

  function Confirmed(s: Shared, prepared: Prepared): Shared {
    if prepared.ReadyEnvelope? then s.(handles := Entered(s.handles, prepared.ready.handles)) else s
  }

  /** To the delivery, if there is one. */
  function Dispatched(cfg: Config, s: Shared, prepared: Prepared, known: bool): (Shared, Phase) {
    if prepared.Unready? && prepared.answer.Raised? then (s, Finished(TransportFailure))
    else if known && cfg.delivers then (s, Delivering(prepared))
    else (Confirmed(s, prepared), Finished(Delivered(prepared)))
  }

  function VersionCode(r: VersionRejection): Code {
    if r == VersionRejection.MixedVersionTuple then Code.MixedVersionTuple else Code.UnsupportedVersion
  }

  /** Why a request goes no further than its snapshot and its handle. */
  function EarlyError(cfg: Config, s: Shared, q: Request, view: View, known: bool): Option<Code>
    requires cfg.versions.Valid()
  {
    var error := ProjectionError(cfg.versions, q, view);
    if error.Some? then error
    else if q.ask.Expand? && !(known && q.ask.handle.handleId in s.handles && s.handles[q.ask.handle.handleId] == q.ask.handle)
    then Some(HandleUntrusted)
    else if HandleError(cfg.versions, q, view).Some? then HandleError(cfg.versions, q, view)
    else if !known then Some(HostContextUntrusted)
    else None
  }

  /** From the candidate to the first wait. `limit` is what the control provider allows; `known` says that the Host is one. */
  ghost function Begun(cfg: Config, s: Shared, candidate: Json, limit: Option<nat>, core: CoreOutcome, known: bool)
    : (Shared, Phase)
    requires cfg.Valid()
  {
    match Inspect(cfg.versions, candidate)
    case Uninspectable => (s, Finished(TransportFailure))
    case Rejected(_, _) =>
      if limit.None? then (s, Finished(TransportFailure)) else Dispatched(cfg, s, AdmissionResponse, known)
    case Admitted(record) =>
      if limit.None? then (s, Finished(TransportFailure))
      else
        var pending := States(Pending, Unasked, NotEvaluated);
        var id, budget := record.requestId, record.budgetBytes;
        if record.version.Some? || record.request.None? then
          var code := if record.version.Some? then VersionCode(record.version.value) else InputInvalid;
          Dispatched(cfg, s, Refusal(cfg, id, budget, code, pending), known)
        else
          match core
          case Refused(reason, states) =>
            Dispatched(cfg, s, Refusal(cfg, id, budget, CoreRejected(reason), pending.(core := states)), known)
          case Accepted(view) =>
            var error := EarlyError(cfg, s, record.request.value, view, known);
            if error.Some?
            then Dispatched(cfg, s, Refusal(cfg, id, budget, error.value, pending.(core := Complete)), known)
            else (s, Observing(record.request.value, view))
  }

  /** A read that an observation has stopped. */
  ghost function Stopped(cfg: Config, s: Shared, q: Request, seen: Observed): (Shared, Phase)
    requires !seen.Seen?
  {
    if seen.Interrupted? then (s, Finished(TransportFailure))
    else
      var states := States(Complete, if seen.code == HostDenied then Denied else Unasked, NotEvaluated);
      Dispatched(cfg, s, Refusal(cfg, q.requestId, q.budgetBytes, seen.code, states), true)
  }

  ghost function Declined(cfg: Config, s: Shared, q: Request, code: Code): (Shared, Phase) {
    Dispatched(cfg, s, Refusal(cfg, q.requestId, q.budgetBytes, code, States(Complete, Unasked, NotEvaluated)), true)
  }

  ghost function AfterFirst(cfg: Config, s: Shared, q: Request, view: View, raw: Raw): (Shared, Phase) {
    var (revocations, seen) := Observation(s.revocations, q, view, raw);
    var t := s.(revocations := revocations);
    if !seen.Seen? then Stopped(cfg, t, q, seen)
    else
      var body := Project(cfg.fields, q.ask, view);
      if body.None? then Declined(cfg, t, q, ProjectionInvalid)
      else
        var scoped := Scoped(body.value, AsSet(seen.context.scope));
        if scoped.None? then Declined(cfg, t, q, ScopeDenied)
        else (t, Confirming(q, view, seen.context, scoped.value))
  }

  ghost function AfterSecond(cfg: Config, s: Shared, q: Request, view: View, first: Context, body: Body, raw: Raw)
    : (Shared, Phase)
    requires cfg.Valid()
  {
    var (revocations, seen) := Observation(s.revocations, q, view, raw);
    var t := s.(revocations := revocations);
    if !seen.Seen? then Stopped(cfg, t, q, seen)
    else
      var scoped := Scoped(body, AsSet(seen.context.scope));
      if scoped.None? then Declined(cfg, t, q, ScopeDenied)
      else
        var ready := Composed(cfg, s.sequence, q, view, first, seen.context, scoped.value);
        Dispatched(cfg, t.(sequence := ready.receipt), Replied(cfg, ready), true)
  }

  function Composed(cfg: Config, number: nat, q: Request, view: View, first: Context, second: Context, body: Body): Ready
    requires cfg.Valid()
  {
    var handles := MintedFor(cfg, number, q, view, second);
    Ready(q, view, first, second, body, handles, number + |handles| + 1, States(Complete, Allowed, body.confirmation))
  }

  function MintedFor(cfg: Config, number: nat, q: Request, view: View, c: Context): seq<Handle>
    requires cfg.Valid()
  {
    if q.ask.Exact? then Minted(cfg.versions, view, q.ask.selected, c, view.targets, number) else []
  }

  /** A ready envelope, or what is answered when it does not fit. */
  ghost function Replied(cfg: Config, ready: Ready): Prepared {
    var q := ready.q;
    var sheet := Blank(cfg.render(ready), q.budgetBytes);
    var instead := Blank(cfg.refuse(q.requestId, BudgetInsufficient, ready.states), q.budgetBytes);
    var answer := Answered(sheet, true, None, instead);
    if answer.ReadEnvelope? && answer.ready then ReadyEnvelope(answer.sheet, ready) else Unready(answer)
  }

  function AfterDelivery(s: Shared, prepared: Prepared, confirmed: bool): (Shared, Phase) {
    if confirmed then (Confirmed(s, prepared), Finished(Delivered(prepared))) else (s, Finished(TransportFailure))
  }

  // ---- The pieces -------------------------------------------------------------------------------

  /** A Host: its tables, and the counter, which other Hosts move as well. */
  class TrustedHost {
    const config: Config
    var handles: map<Text, Handle>
    var revocations: set<Denial>
    var sequence: nat

    function State(): Shared
      reads this
    {
      Shared(handles, revocations, sequence)
    }

    constructor (config: Config, sequence: nat)
      ensures this.config == config && State() == Shared(map[], {}, sequence)
    {
      this.config, handles, revocations, this.sequence := config, map[], {}, sequence;
    }

    method Observe(q: Request, view: View, raw: Raw) returns (seen: Observed)
      modifies this
      ensures Observation(old(revocations), q, view, raw) == (revocations, seen)
      ensures State() == old(State()).(revocations := revocations)
    {
      if raw.Throws? { return Interrupted; }
      if raw.NotJson? { return Observed.Failed(HostContextUntrusted); }
      var error := ObservationError(q, view, raw.value);
      if error.Some? { return Observed.Failed(error.value); }
      var value := ContextOf(raw.value);
      var denial := DenialOf(value, view);
      if value.lift { revocations := revocations - {denial}; }
      if value.revoked || !value.allow { revocations := revocations + {denial}; }
      if denial in revocations { return Observed.Failed(HostDenied); }
      return Seen(value);
    }

    method Mint(q: Request, view: View, context: Context) returns (minted: seq<Handle>)
      requires config.Valid()
      modifies this
      ensures minted == MintedFor(config, old(sequence), q, view, context)
      ensures State() == old(State()).(sequence := old(sequence) + |minted|)
    {
      minted := [];
      if !q.ask.Exact? { return; }
      var targets, v := view.targets, config.versions;
      for i := 0 to |targets|
        invariant State() == old(State()).(sequence := old(sequence) + |minted|)
        invariant Minted(v, view, q.ask.selected, context, targets, old(sequence))
               == minted + Minted(v, view, q.ask.selected, context, targets[i..], sequence)
      {
        assert targets[i..][0] == targets[i] && targets[i..][1..] == targets[i + 1..];
        if !Expandable(q.ask.selected, context, targets[i]) { continue; }
        sequence := sequence + 1;
        minted := minted + [HandleFor(v, view, q.ask.selected, context, targets[i], sequence)];
      }
      assert targets[|targets|..] == [];
    }

    method Enter(minted: seq<Handle>)
      modifies this
      ensures State() == old(State()).(handles := Entered(old(handles), minted))
    {
      for i := 0 to |minted|
        invariant State() == old(State()).(handles := handles)
        invariant Entered(handles, minted[i..]) == Entered(old(handles), minted)
      {
        assert minted[i..][1..] == minted[i + 1..];
        handles := handles[minted[i].handleId := minted[i]];
      }
    }

    /** An answer for the code of a rejection. */
    method Refuse(id: Text, budget: Safe, code: Code, states: States) returns (prepared: Prepared)
      ensures prepared == Refusal(config, id, budget, code, states)
    {
      var members := config.refuse(id, code, states);
      var envelope := new Envelope(members, budget);
      var answer := Finish(envelope, false, Some(code), members);
      return Unready(answer);
    }

    method Dispatch(prepared: Prepared, known: bool) returns (phase: Phase)
      modifies this
      ensures (State(), phase) == Dispatched(config, old(State()), prepared, known)
    {
      if prepared.Unready? && prepared.answer.Raised? { return Finished(TransportFailure); }
      if known && config.delivers { return Delivering(prepared); }
      if prepared.ReadyEnvelope? { Enter(prepared.ready.handles); }
      return Finished(Delivered(prepared));
    }

    method Begin(candidate: Json, limit: Option<nat>, core: CoreOutcome, known: bool) returns (phase: Phase)
      requires config.Valid()
      modifies this
      ensures (State(), phase) == Begun(config, old(State()), candidate, limit, core, known)
    {
      var inspection := Inspect(config.versions, candidate);
      if limit.None? || inspection.Uninspectable? { return Finished(TransportFailure); }
      if inspection.Rejected? {
        phase := Dispatch(AdmissionResponse, known);
        return;
      }
      var record, states := inspection.record, States(Pending, Unasked, NotEvaluated);
      var code := InputInvalid;
      if record.version.Some? {
        code := VersionCode(record.version.value);
      } else if record.request.Some? {
        if core.Refused? {
          states, code := states.(core := core.states), CoreRejected(core.reason);
        } else {
          states := states.(core := Complete);
          var error := EarlyError(config, State(), record.request.value, core.view, known);
          if error.None? { return Observing(record.request.value, core.view); }
          code := error.value;
        }
      }
      var prepared := Refuse(record.requestId, record.budgetBytes, code, states);
      phase := Dispatch(prepared, known);
    }

    method Stop(q: Request, code: Code, states: States) returns (phase: Phase)
      modifies this
      ensures (State(), phase)
           == Dispatched(config, old(State()), Refusal(config, q.requestId, q.budgetBytes, code, states), true)
    {
      var prepared := Refuse(q.requestId, q.budgetBytes, code, states);
      phase := Dispatch(prepared, true);
    }

    method First(q: Request, view: View, raw: Raw) returns (phase: Phase)
      modifies this
      ensures (State(), phase) == AfterFirst(config, old(State()), q, view, raw)
    {
      var states := States(Complete, Unasked, NotEvaluated);
      var seen := Observe(q, view, raw);
      if seen.Interrupted? { return Finished(TransportFailure); }
      if seen.Failed? {
        phase := Stop(q, seen.code, if seen.code == HostDenied then states.(permission := Denied) else states);
        return;
      }
      var body := Project(config.fields, q.ask, view);
      if body.None? {
        phase := Stop(q, ProjectionInvalid, states);
        return;
      }
      var projection := new Projection(body.value);
      var covered := projection.Scope(seen.context.scope);
      if !covered {
        phase := Stop(q, ScopeDenied, states);
        return;
      }
      return Confirming(q, view, seen.context, projection.Contents());
    }

    method Second(q: Request, view: View, first: Context, body: Body, raw: Raw) returns (phase: Phase)
      requires config.Valid()
      modifies this
      ensures (State(), phase) == AfterSecond(config, old(State()), q, view, first, body, raw)
    {
      var states := States(Complete, Unasked, NotEvaluated);
      var seen := Observe(q, view, raw);
      if seen.Interrupted? { return Finished(TransportFailure); }
      if seen.Failed? {
        phase := Stop(q, seen.code, if seen.code == HostDenied then states.(permission := Denied) else states);
        return;
      }
      var projection := new Projection(body);
      var covered := projection.Scope(seen.context.scope);
      if !covered {
        phase := Stop(q, ScopeDenied, states);
        return;
      }
      phase := Compose(q, view, first, seen.context, projection.Contents());
    }

    method Compose(q: Request, view: View, first: Context, second: Context, body: Body) returns (phase: Phase)
      requires config.Valid()
      modifies this
      ensures var ready := Composed(config, old(sequence), q, view, first, second, body);
              (State(), phase) == Dispatched(config, old(State()).(sequence := ready.receipt), Replied(config, ready), true)
    {
      hide Entered, Answered, MintedFor;
      var states := States(Complete, Allowed, body.confirmation);
      var minted := Mint(q, view, second);
      sequence := sequence + 1;
      var ready := Ready(q, view, first, second, body, minted, sequence, states);
      var envelope := new Envelope(config.render(ready), q.budgetBytes);
      var answer := Finish(envelope, true, None, config.refuse(q.requestId, BudgetInsufficient, states));
      var prepared := if answer.ReadEnvelope? && answer.ready then ReadyEnvelope(answer.sheet, ready) else Unready(answer);
      phase := Dispatch(prepared, true);
    }

    method Delivery(prepared: Prepared, confirmed: bool) returns (phase: Phase)
      modifies this
      ensures (State(), phase) == AfterDelivery(old(State()), prepared, confirmed)
    {
      if !confirmed { return Finished(TransportFailure); }
      if prepared.ReadyEnvelope? { Enter(prepared.ready.handles); }
      return Finished(Delivered(prepared));
    }
  }
}
