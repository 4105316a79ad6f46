/**
 A Host's observations and its tables. Each call runs to the next point where it waits;
 between two such points nothing else touches the tables.
 */
module ReadHost {
  import opened Bytes
  import opened JsonValues
  import opened JsonPrinter
  import opened ReadValues
  import opened ReadBudget
  import opened ReadAdmission
  import opened ReadProjection
  import JsonRoundTrip

  const HOUR := 3600000

  /** What a callback gives: it may raise, and what it returns may not be a JSON value. */
  datatype Raw = Throws | NotJson | Gives(value: Json)

  datatype Context = Context(
    hostId: Text, hostEpoch: Text, decisionId: Text, scope: seq<Text>, issuedAt: nat, expiresAt: nat, currentMs: nat,
    allow: bool, revoked: bool, lift: bool)

  /** The entry that `jcs([host_id, host_epoch, asset_id])` names. */
  datatype Denial = Denial(hostId: Text, hostEpoch: Text, assetId: Text)

  /** The state that the calls on one Host share, and the counter that all calls share. */
  datatype Shared = Shared(handles: map<Text, Handle>, revocations: set<Denial>, sequence: nat)

  const CONTEXT_KEYS: set<Key> := {
    HostId, HostEpoch, DecisionId, RequestId, SnapshotId, DigestA, DigestC, Scope, IssuedAt, ExpiresAt, Decision, PolicyId,
    CurrentMs, Revoked, LiftDenial}

  const ALLOW: Text := [0x61, 0x6c, 0x6c, 0x6f, 0x77]
  const DENY: Text := [0x64, 0x65, 0x6e, 0x79]

  // ---- Observing ------------------------------------------------------------------------

  predicate IsIdentifier(v: Json) { v.Chars? && Identifier(v.text) }

  predicate IsUint(v: Json) { v.Whole? && Uint(v.n) }

  predicate IsScope(v: Json) {
    v.List? && (forall item | item in v.items :: IsIdentifier(item)) && Distinct(v.items)
  }

  /** The observation is well formed and speaks of this request and this snapshot. */
  predicate Trusted(q: Request, view: View, v: Json) {
    && v.Dict? && v.entries.Keys <= CONTEXT_KEYS
    && (forall k | k in {Revoked, LiftDenial} :: k in v.entries ==> v.entries[k].Truth?)
    && (forall k | k in {HostId, HostEpoch, DecisionId, RequestId, SnapshotId, PolicyId} :: IsIdentifier(Member(v, k)))
    && Member(v, RequestId) == Chars(q.requestId) && Member(v, SnapshotId) == Chars(view.snapshotId)
    && Member(v, DigestA) == Chars(view.a) && Member(v, DigestC) == Chars(view.c)
    && (Member(v, Decision) == Chars(ALLOW) || Member(v, Decision) == Chars(DENY))
    && IsScope(Member(v, Scope))
    && IsUint(Member(v, IssuedAt)) && IsUint(Member(v, ExpiresAt))
    && Member(v, IssuedAt).n < Member(v, ExpiresAt).n <= Member(v, IssuedAt).n + HOUR
  }

  function ContextOf(v: Json): Context {
    Context(
      TextOf(Member(v, HostId)), TextOf(Member(v, HostEpoch)), TextOf(Member(v, DecisionId)), ScopeOf(Member(v, Scope)),
      NatOf(Member(v, IssuedAt)), NatOf(Member(v, ExpiresAt)), NatOf(Member(v, CurrentMs)),
      Member(v, Decision) == Chars(ALLOW), Member(v, Revoked) == Truth(true), Member(v, LiftDenial) == Truth(true))
  }

  /** Why an observation cannot be used, before denials are looked up. */
  function ObservationError(q: Request, view: View, v: Json): Option<Code> {
    if !Trusted(q, view, v) then Some(HostContextUntrusted)
    else
      var c, now := ContextOf(v), Member(v, CurrentMs);
      if q.ask.Expand? && (q.ask.handle.hostId != c.hostId || q.ask.handle.hostEpoch != c.hostEpoch)
      then Some(HostEpochMismatch)
      else if !IsUint(now) || now.n < c.issuedAt || (q.ask.Expand? && now.n < q.ask.handle.issuedAt) then Some(HostTimeInvalid)
      else if q.ask.Expand? && now.n >= q.ask.handle.expiresAt then Some(HandleExpired)
      else if now.n >= c.expiresAt then Some(HostContextExpired)
      else None
  }

  function DenialOf(c: Context, view: View): Denial { Denial(c.hostId, c.hostEpoch, view.assetId) }

  /** The denials after a usable observation: a lift comes first, a revocation or denial last. */
  function Updated(revocations: set<Denial>, c: Context, view: View): set<Denial> {
    var d := DenialOf(c, view);
    var lifted := if c.lift then revocations - {d} else revocations;
    if c.revoked || !c.allow then lifted + {d} else lifted
  }

  datatype Observed = Seen(context: Context) | Failed(code: Code) | Interrupted

  function Observation(revocations: set<Denial>, q: Request, view: View, raw: Raw): (set<Denial>, Observed) {
    match raw
    case Throws => (revocations, Interrupted)
    case NotJson => (revocations, Failed(HostContextUntrusted))
    case Gives(v) =>
      var error := ObservationError(q, view, v);
      if error.Some? then (revocations, Failed(error.value))
      else
        var c := ContextOf(v);
        var after := Updated(revocations, c, view);
        (after, if DenialOf(c, view) in after then Failed(HostDenied) else Seen(c))
  }

  /** The canonical JSON that the source keeps instead of the triple names the same denials. */
  lemma DenialKeysAreDistinct(d: Denial, e: Denial)
    requires forall t | t in {d.hostId, d.hostEpoch, d.assetId, e.hostId, e.hostEpoch, e.assetId} :: ScalarText(t)
    requires Print(Arr([Value.Str(d.hostId), Value.Str(d.hostEpoch), Value.Str(d.assetId)]))
          == Print(Arr([Value.Str(e.hostId), Value.Str(e.hostEpoch), Value.Str(e.assetId)]))
    ensures d == e
  {
    var v := Arr([Value.Str(d.hostId), Value.Str(d.hostEpoch), Value.Str(d.assetId)]);
    var w := Arr([Value.Str(e.hostId), Value.Str(e.hostEpoch), Value.Str(e.assetId)]);
    JsonRoundTrip.PrintingIsInjective(v, w);
    assert v.items[0] == w.items[0] && v.items[1] == w.items[1] && v.items[2] == w.items[2];
  }

  // ---- Expansion handles ------------------------------------------------------------------

  const HANDLE: Text := [0x68, 0x61, 0x6e, 0x64, 0x6c, 0x65, COLON]

  /** `handle:<snapshot>:<number>` */
  function HandleName(snapshotId: Text, number: nat): Text { HANDLE + snapshotId + [COLON] + NatText(number) }

  function Earlier(a: nat, b: nat): nat { if a <= b then a else b }

  function HandleFor(v: Versions, view: View, s: Selection, c: Context, target: ExpansionTarget, number: nat): Handle
    requires Core in v.value && Ir in v.value && Read in v.value
  {
    Handle(
      HandleName(view.snapshotId, number), view.assetId, view.assetVersion, view.a, view.c, view.snapshotId,
      v.value[Core], v.value[Ir], v.value[Read], s, target.target, target.scope,
      c.currentMs, Earlier(c.expiresAt, c.currentMs + HOUR), c.hostId, c.hostEpoch)
  }

  predicate Expandable(s: Selection, c: Context, target: ExpansionTarget) {
    target.selection.judgmentId == s.judgmentId && AsSet(target.scope) <= AsSet(c.scope)
  }

  /** The handles for these targets, numbered from behind `number`. */
  function Minted(v: Versions, view: View, s: Selection, c: Context, targets: seq<ExpansionTarget>, number: nat)
    : (handles: seq<Handle>)
    requires Core in v.value && Ir in v.value && Read in v.value
  {
    if targets == [] then []
    else if Expandable(s, c, targets[0])
    then [HandleFor(v, view, s, c, targets[0], number + 1)] + Minted(v, view, s, c, targets[1..], number + 1)
    else Minted(v, view, s, c, targets[1..], number)
  }
}
