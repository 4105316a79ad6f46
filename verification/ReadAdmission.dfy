/** Read requests: the inspection of a candidate, field by field, and the request it stands for. */
module ReadAdmission {
  import opened Bytes
  import opened JsonValues
  import opened JsonPrinter
  import opened ReadValues

  /** The member names that are looked for; any other name is `Other`. */
  datatype Key =
    | RequestId | Tuple | BudgetBytes | Mode | Select | Expansion
    | AssetId | AssetVersion | JudgmentId
    | HandleId | DigestA | DigestC | SnapshotId | CoreVersion | IrVersion | ReadVersion | Target | Scope
    | IssuedAt | ExpiresAt | HostId | HostEpoch
    | Core | Ir | Read | PayloadProfile
    | DecisionId | Decision | PolicyId | CurrentMs | Revoked | LiftDenial
    | Other(name: Text)

  /** A candidate; numbers that are not integers are `Fraction`. */
  datatype Json =
    | Nil
    | Truth(b: bool)
    | Whole(n: int)
    | Fraction
    | Chars(text: Text)
    | List(items: seq<Json>)
    | Dict(entries: map<Key, Json>)

  datatype Reason =
    | WrongType | UnknownField | MissingRequired | InvalidIdentifier | UnsafeInteger | OutOfRange | ModeShapeInvalid
    | RepresentationNotObject

  /** The field that a diagnostic names. */
  datatype Place = Candidate | Unknown | Field(key: Key) | In(outer: Key, inner: Key)

  datatype Checked = Passed | Fails(reason: Reason, place: Place) {
    predicate IsFailure() { Fails? }

    function PropagateFailure(): Checked { this }
  }

  // ---- What is asked for ----------------------------------------------------------------

  datatype Selection = Selection(assetId: Text, assetVersion: Text, judgmentId: Text)

  datatype Handle = Handle(
    handleId: Text, assetId: Text, assetVersion: Text, a: Text, c: Text, snapshotId: Text,
    coreVersion: Text, irVersion: Text, readVersion: Text, selection: Selection, target: Text, scope: seq<Text>,
    issuedAt: nat, expiresAt: nat, hostId: Text, hostEpoch: Text)

  datatype Ask =
    | WholeAsset
    | Catalog
    | Exact(selected: Selection)
    | Expand(selected: Selection, handle: Handle)

  datatype Request = Request(requestId: Text, budgetBytes: Safe, ask: Ask) {
    function Selected(): Option<Selection> {
      if ask.Exact? || ask.Expand? then Some(ask.selected) else None
    }
  }

  type Safe = n: int | 0 <= n <= MAX_SAFE_INTEGER

  datatype VersionRejection = MixedVersionTuple | UnsupportedVersion

  /** What the registry keeps for an admitted request. */
  datatype Record = Record(requestId: Text, budgetBytes: Safe, request: Option<Request>, version: Option<VersionRejection>)

  /** The outcome of inspecting a candidate: copying it may raise. */
  datatype Inspection = Admitted(record: Record) | Rejected(reason: Reason, place: Place) | Uninspectable

  const TOP: seq<Key> := [RequestId, Tuple, BudgetBytes, Mode, Select, Expansion]

  const SELECTION_KEYS: seq<Key> := [AssetId, AssetVersion, JudgmentId]

  const HANDLE_KEYS: seq<Key> := [
    HandleId, AssetId, AssetVersion, DigestA, DigestC, SnapshotId, CoreVersion, IrVersion, ReadVersion,
    Select, Target, Scope, IssuedAt, ExpiresAt, HostId, HostEpoch]

  const MAX_LIST := 10000

  const WHOLE_ASSET: Text := [0x77, 0x68, 0x6f, 0x6c, 0x65, 0x5f, 0x61, 0x73, 0x73, 0x65, 0x74]
  const CATALOG: Text := [0x63, 0x61, 0x74, 0x61, 0x6c, 0x6f, 0x67]
  const EXACT: Text := [0x65, 0x78, 0x61, 0x63, 0x74, 0x5f, 0x73, 0x65, 0x6c, 0x65, 0x63, 0x74, 0x69, 0x6f, 0x6e]
  const EXPAND: Text := [0x65, 0x78, 0x70, 0x61, 0x6e, 0x64]

  // ---- Inspecting a candidate ---------------------------------------------------------------

  /** The first failure, if there is one. */
  function First(checks: seq<Checked>): (first: Checked)
    ensures first == Passed <==> forall k | 0 <= k < |checks| :: checks[k] == Passed
  {
    if checks == [] then Passed else if checks[0].Fails? then checks[0]
    else
      assert checks == [checks[0]] + checks[1..];
      First(checks[1..])
  }

  function Missing(entries: map<Key, Json>, required: seq<Key>, place: Key -> Place): (c: Checked)
    ensures c.Passed? <==> forall k | 0 <= k < |required| :: required[k] in entries
  {
    var checks := seq(|required|, k requires 0 <= k < |required| =>
      if required[k] in entries then Passed else Fails(MissingRequired, place(required[k])));
    assert forall k | 0 <= k < |required| :: checks[k] == Passed <==> required[k] in entries;
    First(checks)
  }

  /** A dictionary with no members but the allowed ones, and all of the required ones. */
  function Keys(o: Json, allowed: seq<Key>, required: seq<Key>, whole: Place, place: Key -> Place): (c: Checked)
    ensures c.Passed? <==>
              (&& o.Dict? && (forall k | k in o.entries :: k in allowed)
               && (forall k | 0 <= k < |required| :: required[k] in o.entries))
  {
    if !o.Dict? then Fails(WrongType, whole)
    else if exists k | k in o.entries :: k !in allowed then Fails(UnknownField, Unknown)
    else Missing(o.entries, required, place)
  }

  function Ident(v: Json, place: Place): Checked {
    if !v.Chars? then Fails(WrongType, place) else if !Identifier(v.text) then Fails(InvalidIdentifier, place) else Passed
  }

  function SafeInteger(v: Json, place: Place): Checked {
    if !v.Whole? && !v.Fraction? then Fails(WrongType, place)
    else if v.Fraction? || !(Uint(v.n) || Uint(-v.n)) then Fails(UnsafeInteger, place)
    else if v.n < 0 then Fails(OutOfRange, place)
    else Passed
  }

  function DigestText(v: Json, place: Place): Checked {
    if !v.Chars? then Fails(WrongType, place) else if !IsDigest(v.text) then Fails(InvalidIdentifier, place) else Passed
  }

  function SelectionAt(v: Json, outer: Place, place: Key -> Place): Checked {
    var members := Keys(v, SELECTION_KEYS, SELECTION_KEYS, outer, place);
    :- members;
    First(seq(3, k requires 0 <= k < 3 && SELECTION_KEYS[k] in v.entries =>
      Ident(v.entries[SELECTION_KEYS[k]], place(SELECTION_KEYS[k]))))
  }

  predicate IsTexts(items: seq<Json>) { forall k | 0 <= k < |items| :: items[k].Chars? }

  function TextsOf(items: seq<Json>): seq<Text>
    requires IsTexts(items)
  {
    seq(|items|, k requires 0 <= k < |items| => items[k].text)
  }

  function ScopeMembers(items: seq<Json>): seq<Checked> {
    seq(|items|, k requires 0 <= k < |items| => Ident(items[k], In(Expansion, Scope)))
  }

  function ScopeAt(v: Json): Checked {
    var place := In(Expansion, Scope);
    if !v.List? then Fails(WrongType, place)
    else
      :- First(ScopeMembers(v.items));
      if v.items == [] || !Distinct(v.items) then Fails(ModeShapeInvalid, Field(Expansion)) else Passed
  }

  function HandleMember(k: Key, v: Json): Checked {
    var place := In(Expansion, k);
    if k == Select then SelectionAt(v, place, _ => place)
    else if k == Scope then ScopeAt(v)
    else if k == IssuedAt || k == ExpiresAt then SafeInteger(v, place)
    else if k == DigestA || k == DigestC then DigestText(v, place)
    else Ident(v, place)
  }

  function HandleMembers(e: map<Key, Json>): seq<Checked>
    requires forall k | 0 <= k < |HANDLE_KEYS| :: HANDLE_KEYS[k] in e
  {
    seq(|HANDLE_KEYS|, k requires 0 <= k < |HANDLE_KEYS| => HandleMember(HANDLE_KEYS[k], e[HANDLE_KEYS[k]]))
  }

  function HandleAt(v: Json): Checked {
    var members := Keys(v, HANDLE_KEYS, HANDLE_KEYS, Field(Expansion), k => In(Expansion, k));
    :- members;
    :- First(HandleMembers(v.entries));
    if Times(v.entries) then Passed else Fails(ModeShapeInvalid, Field(Expansion))
  }

  predicate Times(e: map<Key, Json>) {
    && IssuedAt in e && ExpiresAt in e && e[IssuedAt].Whole? && e[ExpiresAt].Whole?
    && e[IssuedAt].n < e[ExpiresAt].n
  }

  /** The version tuple, and the order its members are listed in. */
  datatype Versions = Versions(order: seq<Key>, value: map<Key, Text>) {
    ghost predicate Valid() {
      && (forall k :: k in order <==> k in value) && Core in value && Ir in value && Read in value
      && Identifier(value[Core]) && Identifier(value[Ir]) && Identifier(value[Read])
      && (forall k | k in value :: TupleText(value[k]))
    }

    function AsJson(): Json { Dict(map k | k in value :: Chars(value[k])) }
  }

  predicate TupleText(t: Text) { ScalarText(t) && Utf8Size(t) <= 0x10_0000 }

  function TupleMember(e: map<Key, Json>, k: Key): Checked {
    if k !in e then Passed
    else if !e[k].Chars? then Fails(WrongType, In(Tuple, k))
    else if !TupleText(e[k].text) then Fails(InvalidIdentifier, In(Tuple, k))
    else Passed
  }

  function TupleAt(v: Versions, t: Json): Checked {
    var members := Keys(t, v.order, [], Field(Tuple), k => In(Tuple, k));
    :- members;
    First(seq(|v.order|, k requires 0 <= k < |v.order| => TupleMember(t.entries, v.order[k])))
  }

  function Opening(v: Versions, c: Json): Checked {
    var members := Keys(c, TOP, TOP, Candidate, k => Field(k));
    :- members;
    :- Ident(c.entries[TOP[0]], Field(RequestId));
    :- SafeInteger(c.entries[TOP[2]], Field(BudgetBytes));
    TupleAt(v, c.entries[TOP[1]])
  }

  function VersionFailure(v: Versions, t: Json): VersionRejection
    requires t.Dict?
  {
    if exists k | k in v.value :: k != PayloadProfile && k in t.entries && t.entries[k] == Chars(v.value[k])
    then MixedVersionTuple else UnsupportedVersion
  }

  /** The mode, and the selection and handle that it calls for. */
  function Shape(mode: Json, selection: Json, handle: Json): Checked {
    var whole := mode == Chars(WHOLE_ASSET) || mode == Chars(CATALOG);
    if !whole && mode != Chars(EXACT) && mode != Chars(EXPAND) then Fails(ModeShapeInvalid, Field(Mode))
    else
      :- if !whole then SelectionAt(selection, Field(Select), k => In(Select, k))
         else if selection == Nil then Passed else Fails(ModeShapeInvalid, Field(Select));
      if mode == Chars(EXPAND) then HandleAt(handle)
      else if handle == Nil then Passed else Fails(ModeShapeInvalid, Field(Expansion))
  }

  function TextOf(v: Json): Text { if v.Chars? then v.text else [] }

  function NatOf(v: Json): nat { if v.Whole? && v.n >= 0 then v.n else 0 }

  function SafeOf(v: Json): Safe { if v.Whole? && Uint(v.n) then v.n else 0 }

  function Member(v: Json, k: Key): Json { if v.Dict? && k in v.entries then v.entries[k] else Nil }

  function SelectionOf(v: Json): Selection {
    Selection(TextOf(Member(v, AssetId)), TextOf(Member(v, AssetVersion)), TextOf(Member(v, JudgmentId)))
  }

  function ScopeOf(v: Json): seq<Text> { if v.List? && IsTexts(v.items) then TextsOf(v.items) else [] }

  function HandleOf(v: Json): Handle {
    Handle(
      TextOf(Member(v, HandleId)), TextOf(Member(v, AssetId)), TextOf(Member(v, AssetVersion)),
      TextOf(Member(v, DigestA)), TextOf(Member(v, DigestC)), TextOf(Member(v, SnapshotId)),
      TextOf(Member(v, CoreVersion)), TextOf(Member(v, IrVersion)), TextOf(Member(v, ReadVersion)),
      SelectionOf(Member(v, Select)), TextOf(Member(v, Target)), ScopeOf(Member(v, Scope)),
      NatOf(Member(v, IssuedAt)), NatOf(Member(v, ExpiresAt)), TextOf(Member(v, HostId)), TextOf(Member(v, HostEpoch)))
  }

  function AskOf(mode: Json, selection: Json, handle: Json): Ask {
    if mode == Chars(WHOLE_ASSET) then WholeAsset
    else if mode == Chars(CATALOG) then Catalog
    else if mode == Chars(EXACT) then Exact(SelectionOf(selection))
    else Expand(SelectionOf(selection), HandleOf(handle))
  }

  /** `_candidate`: the record of a request, or why there is none. */
  function Inspect(v: Versions, c: Json): Inspection {
    if !c.Dict? then Rejected(RepresentationNotObject, Candidate)
    else
      var opening := Opening(v, c);
      if opening.Fails? then Rejected(opening.reason, opening.place)
      else
        var id, budget := TextOf(Member(c, RequestId)), SafeOf(Member(c, BudgetBytes));
        if Member(c, Tuple) != v.AsJson() then Admitted(Record(id, budget, None, Some(VersionFailure(v, Member(c, Tuple)))))
        else
          var mode, selection, handle := Member(c, Mode), Member(c, Select), Member(c, Expansion);
          var shape := Shape(mode, selection, handle);
          if shape.Fails? then Rejected(shape.reason, shape.place)
          else
            var ask := AskOf(mode, selection, handle);
            if ask.Expand? && |ask.handle.scope| > MAX_LIST then Uninspectable
            else Admitted(Record(id, budget, Some(Request(id, budget, ask)), None))
  }

  // ---- Well-formed requests and their candidates ------------------------------------------------

  ghost predicate ProperSelection(s: Selection) {
    Identifier(s.assetId) && Identifier(s.assetVersion) && Identifier(s.judgmentId)
  }

  ghost predicate ProperScope(scope: seq<Text>) {
    scope != [] && Distinct(scope) && forall k | 0 <= k < |scope| :: Identifier(scope[k])
  }

  ghost predicate ProperField(h: Handle, k: Key) {
    match k
    case HandleId => Identifier(h.handleId)
    case AssetId => Identifier(h.assetId)
    case AssetVersion => Identifier(h.assetVersion)
    case DigestA => IsDigest(h.a)
    case DigestC => IsDigest(h.c)
    case SnapshotId => Identifier(h.snapshotId)
    case CoreVersion => Identifier(h.coreVersion)
    case IrVersion => Identifier(h.irVersion)
    case ReadVersion => Identifier(h.readVersion)
    case Select => ProperSelection(h.selection)
    case Target => Identifier(h.target)
    case Scope => ProperScope(h.scope)
    case IssuedAt => Uint(h.issuedAt)
    case ExpiresAt => Uint(h.expiresAt)
    case HostId => Identifier(h.hostId)
    case HostEpoch => Identifier(h.hostEpoch)
    case _ => true
  }

  ghost predicate ProperHandle(h: Handle) {
    h.issuedAt < h.expiresAt && forall k: Key :: ProperField(h, k)
  }

  ghost predicate ProperAsk(ask: Ask) {
    match ask
    case Exact(selected) => ProperSelection(selected)
    case Expand(selected, handle) => ProperSelection(selected) && ProperHandle(handle)
    case _ => true
  }

  ghost predicate Proper(q: Request) {
    && Identifier(q.requestId) && ProperAsk(q.ask)
    && (q.ask.Expand? ==> |q.ask.handle.scope| <= MAX_LIST)
  }

  function SelectionJson(s: Selection): Json {
    Dict(map[AssetId := Chars(s.assetId), AssetVersion := Chars(s.assetVersion), JudgmentId := Chars(s.judgmentId)])
  }

  function ScopeJson(scope: seq<Text>): Json { List(seq(|scope|, k requires 0 <= k < |scope| => Chars(scope[k]))) }

  function HandleField(h: Handle, k: Key): Json {
    match k
    case HandleId => Chars(h.handleId)
    case AssetId => Chars(h.assetId)
    case AssetVersion => Chars(h.assetVersion)
    case DigestA => Chars(h.a)
    case DigestC => Chars(h.c)
    case SnapshotId => Chars(h.snapshotId)
    case CoreVersion => Chars(h.coreVersion)
    case IrVersion => Chars(h.irVersion)
    case ReadVersion => Chars(h.readVersion)
    case Select => SelectionJson(h.selection)
    case Target => Chars(h.target)
    case Scope => ScopeJson(h.scope)
    case IssuedAt => Whole(h.issuedAt)
    case ExpiresAt => Whole(h.expiresAt)
    case HostId => Chars(h.hostId)
    case HostEpoch => Chars(h.hostEpoch)
    case _ => Nil
  }

  function HandleJson(h: Handle): Json { Dict(map k | k in HANDLE_KEYS :: HandleField(h, k)) }

  function ModeText(ask: Ask): Text {
    match ask
    case WholeAsset => WHOLE_ASSET
    case Catalog => CATALOG
    case Exact(_) => EXACT
    case Expand(_, _) => EXPAND
  }

  function AskSelection(ask: Ask): Json {
    if ask.Exact? || ask.Expand? then SelectionJson(ask.selected) else Nil
  }

  function AskHandle(ask: Ask): Json { if ask.Expand? then HandleJson(ask.handle) else Nil }

  /** The candidate that asks for this. */
  function CandidateField(v: Versions, q: Request, k: Key): Json {
    match k
    case RequestId => Chars(q.requestId)
    case Tuple => v.AsJson()
    case BudgetBytes => Whole(q.budgetBytes)
    case Mode => Chars(ModeText(q.ask))
    case Select => AskSelection(q.ask)
    case Expansion => AskHandle(q.ask)
    case _ => Nil
  }

  function CandidateJson(v: Versions, q: Request): Json { Dict(map k | k in TOP :: CandidateField(v, q, k)) }

  // ---- Exactly the candidates of well-formed requests are admitted ---------------------------------

  lemma SelectionPassed(v: Json, outer: Place, place: Key -> Place)
    requires SelectionAt(v, outer, place).Passed?
    ensures ProperSelection(SelectionOf(v)) && v == SelectionJson(SelectionOf(v))
  {
    var checks := seq(3, k requires 0 <= k < 3 && SELECTION_KEYS[k] in v.entries =>
      Ident(v.entries[SELECTION_KEYS[k]], place(SELECTION_KEYS[k])));
    assert checks[0].Passed? && checks[1].Passed? && checks[2].Passed?;
    assert SELECTION_KEYS[0] == AssetId && SELECTION_KEYS[1] == AssetVersion && SELECTION_KEYS[2] == JudgmentId;
    assert v.entries == SelectionJson(SelectionOf(v)).entries;
  }

  lemma SelectionAccepted(v: Json, outer: Place, place: Key -> Place)
    requires ProperSelection(SelectionOf(v)) && v == SelectionJson(SelectionOf(v))
    ensures SelectionAt(v, outer, place).Passed?
  {
    assert SELECTION_KEYS[0] == AssetId && SELECTION_KEYS[1] == AssetVersion && SELECTION_KEYS[2] == JudgmentId;
    assert forall k | 0 <= k < 3 :: SELECTION_KEYS[k] in v.entries;
    assert forall k | k in v.entries :: k in SELECTION_KEYS;
  }

  lemma SelectionChecked(v: Json, outer: Place, place: Key -> Place)
    ensures SelectionAt(v, outer, place).Passed? <==> ProperSelection(SelectionOf(v)) && v == SelectionJson(SelectionOf(v))
  {
    hide SelectionAt, ProperSelection, SelectionOf;
    if SelectionAt(v, outer, place).Passed? { SelectionPassed(v, outer, place); }
    if ProperSelection(SelectionOf(v)) && v == SelectionJson(SelectionOf(v)) { SelectionAccepted(v, outer, place); }
  }

  lemma ScopeChecked(v: Json)
    ensures ScopeAt(v).Passed? <==> ProperScope(ScopeOf(v)) && v == ScopeJson(ScopeOf(v))
  {
    if v.List? {
      var scope, checks := ScopeOf(v), ScopeMembers(v.items);
      hide Identifier, ScopeMembers;
      if First(checks).Passed? {
        forall k | 0 <= k < |v.items| ensures v.items[k].Chars? && Identifier(v.items[k].text) {
          ScopeMemberChecked(v.items, k);
        }
      }
      if ProperScope(scope) && v == ScopeJson(scope) {
        forall k | 0 <= k < |v.items| ensures checks[k] == Passed {
          ScopeMemberChecked(v.items, k);
        }
      }
      if IsTexts(v.items) {
        assert forall k | 0 <= k < |v.items| :: v.items[k] == Chars(scope[k]);
        assert v.items == ScopeJson(scope).items;
      }
    }
  }

  lemma ScopeMemberChecked(items: seq<Json>, k: nat)
    requires k < |items|
    ensures |ScopeMembers(items)| == |items|
    ensures ScopeMembers(items)[k] == Passed <==> items[k].Chars? && Identifier(items[k].text)
  {
  }

  predicate IsHandleKey(k: Key) {
    match k
    case HandleId | AssetId | AssetVersion | DigestA | DigestC | SnapshotId | CoreVersion | IrVersion | ReadVersion => true
    case Select | Target | Scope | IssuedAt | ExpiresAt | HostId | HostEpoch => true
    case _ => false
  }

  lemma ListedKey(i: nat)
    requires i < |HANDLE_KEYS|
    ensures IsHandleKey(HANDLE_KEYS[i])
  {
  }

  lemma KeyListed(k: Key)
    requires IsHandleKey(k)
    ensures k in HANDLE_KEYS
  {
    var i := match k
      case HandleId => 0 case AssetId => 1 case AssetVersion => 2 case DigestA => 3 case DigestC => 4 case SnapshotId => 5
      case CoreVersion => 6 case IrVersion => 7 case ReadVersion => 8 case Select => 9 case Target => 10 case Scope => 11
      case IssuedAt => 12 case ExpiresAt => 13 case HostId => 14 case _ => 15;
    assert HANDLE_KEYS[i] == k;
  }

  lemma HandleKeysAre()
    ensures forall k :: k in HANDLE_KEYS <==> IsHandleKey(k)
  {
    forall i | 0 <= i < |HANDLE_KEYS| ensures IsHandleKey(HANDLE_KEYS[i]) { ListedKey(i); }
    forall k | IsHandleKey(k) ensures k in HANDLE_KEYS { KeyListed(k); }
  }

  lemma HandleFieldIs(v: Json, k: Key)
    requires IsHandleKey(k)
    ensures var h, m := HandleOf(v), Member(v, k);
            if k == Select then ProperField(h, k) == ProperSelection(SelectionOf(m)) && HandleField(h, k) == SelectionJson(SelectionOf(m))
            else if k == Scope then ProperField(h, k) == ProperScope(ScopeOf(m)) && HandleField(h, k) == ScopeJson(ScopeOf(m))
            else if k == IssuedAt || k == ExpiresAt then ProperField(h, k) == Uint(NatOf(m)) && HandleField(h, k) == Whole(NatOf(m))
            else
              && HandleField(h, k) == Chars(TextOf(m))
              && ProperField(h, k) == (if k == DigestA || k == DigestC then IsDigest(TextOf(m)) else Identifier(TextOf(m)))
  {
    hide Identifier, IsDigest, ProperScope, ScopeOf, SelectionOf, SelectionJson, ScopeJson, ProperSelection, TextOf, NatOf, Member;
  }

  lemma HandleMemberChecked(v: Json, k: Key)
    requires v.Dict? && k in v.entries && IsHandleKey(k)
    ensures HandleMember(k, v.entries[k]) == Passed <==>
              ProperField(HandleOf(v), k) && v.entries[k] == HandleField(HandleOf(v), k)
  {
    hide Identifier, IsDigest, ProperScope, ScopeAt, ScopeOf, SelectionAt, SelectionOf, SelectionJson, ScopeJson, ProperSelection;
    hide HandleOf, ProperField, HandleField;
    HandleFieldIs(v, k);
    if k == Select {
      SelectionChecked(v.entries[k], In(Expansion, k), _ => In(Expansion, k));
    } else if k == Scope {
      ScopeChecked(v.entries[k]);
    }
  }

  /** All sixteen members are as the handle has them. */
  lemma HandleMembersChecked(v: Json)
    requires v.Dict? && forall i | 0 <= i < |HANDLE_KEYS| :: HANDLE_KEYS[i] in v.entries
    ensures First(HandleMembers(v.entries)) == Passed <==>
              forall k | IsHandleKey(k) :: ProperField(HandleOf(v), k) && Member(v, k) == HandleField(HandleOf(v), k)
  {
    hide HandleMember, HandleOf, HandleField, ProperField, IsHandleKey;
    HandleKeysAre();
    var h, checks := HandleOf(v), HandleMembers(v.entries);
    forall i | 0 <= i < |HANDLE_KEYS|
      ensures checks[i] == Passed <==> ProperField(h, HANDLE_KEYS[i]) && Member(v, HANDLE_KEYS[i]) == HandleField(h, HANDLE_KEYS[i])
    {
      HandleMemberChecked(v, HANDLE_KEYS[i]);
    }
    if First(checks) == Passed {
      forall k | IsHandleKey(k) ensures ProperField(h, k) && Member(v, k) == HandleField(h, k) {
        var i :| 0 <= i < |HANDLE_KEYS| && HANDLE_KEYS[i] == k;
        assert checks[i] == Passed;
      }
    }
  }

  lemma HandlePassed(v: Json)
    requires HandleAt(v).Passed?
    ensures ProperHandle(HandleOf(v)) && v == HandleJson(HandleOf(v))
  {
    var h := HandleOf(v);
    assert forall k | !IsHandleKey(k) :: ProperField(h, k);
    hide HandleMember, HandleMembers, First, HandleOf, HandleField, ProperField, IsHandleKey;
    HandleKeysAre();
    HandleMembersChecked(v);
    TimesAre(v, h);
    assert v.entries == HandleJson(h).entries;
  }

  lemma HandleAccepted(v: Json)
    requires ProperHandle(HandleOf(v)) && v == HandleJson(HandleOf(v))
    ensures HandleAt(v).Passed?
  {
    hide HandleMember, HandleMembers, First, HandleOf, HandleField, ProperField, IsHandleKey;
    HandleKeysAre();
    HandleMembersChecked(v);
    TimesAre(v, HandleOf(v));
  }

  lemma HandleChecked(v: Json)
    ensures HandleAt(v).Passed? <==> ProperHandle(HandleOf(v)) && v == HandleJson(HandleOf(v))
  {
    hide HandleAt, ProperHandle, HandleOf, HandleJson;
    if HandleAt(v).Passed? { HandlePassed(v); }
    if ProperHandle(HandleOf(v)) && v == HandleJson(HandleOf(v)) { HandleAccepted(v); }
  }

  lemma TimesAre(v: Json, h: Handle)
    requires v.Dict? && forall k | IsHandleKey(k) :: k in v.entries && Member(v, k) == HandleField(h, k)
    ensures Times(v.entries) <==> h.issuedAt < h.expiresAt
  {
    assert IsHandleKey(IssuedAt) && IsHandleKey(ExpiresAt);
  }

  lemma ModesDiffer()
    ensures WHOLE_ASSET != CATALOG && WHOLE_ASSET != EXACT && WHOLE_ASSET != EXPAND
    ensures CATALOG != EXACT && CATALOG != EXPAND && EXACT != EXPAND
  {
    assert |WHOLE_ASSET| == 11 && |CATALOG| == 7 && |EXACT| == 15 && |EXPAND| == 6;
  }

  lemma ShapeChecked(mode: Json, selection: Json, handle: Json)
    ensures var ask := AskOf(mode, selection, handle);
            Shape(mode, selection, handle).Passed? <==>
              (&& mode == Chars(ModeText(ask)) && selection == AskSelection(ask) && handle == AskHandle(ask)
               && ProperAsk(ask))
  {
    hide HandleAt, HandleOf, HandleJson, ProperHandle, SelectionAt, SelectionOf, SelectionJson, ProperSelection;
    ModesDiffer();
    SelectionChecked(selection, Field(Select), k => In(Select, k));
    HandleChecked(handle);
  }

  lemma AskIsRead(ask: Ask)
    requires ProperAsk(ask)
    ensures AskOf(Chars(ModeText(ask)), AskSelection(ask), AskHandle(ask)) == ask
  {
    ModesDiffer();
    if ask.Exact? || ask.Expand? { assert SelectionOf(SelectionJson(ask.selected)) == ask.selected; }
    if ask.Expand? { HandleIsRead(ask.handle); }
  }

  lemma MemberIs(h: Handle, k: Key)
    requires IsHandleKey(k)
    ensures Member(HandleJson(h), k) == HandleField(h, k)
  {
    KeyListed(k);
  }

  lemma IdentityIsRead(h: Handle)
    ensures var v := HandleJson(h);
            && Member(v, HandleId) == Chars(h.handleId) && Member(v, AssetId) == Chars(h.assetId)
            && Member(v, AssetVersion) == Chars(h.assetVersion) && Member(v, DigestA) == Chars(h.a)
            && Member(v, DigestC) == Chars(h.c) && Member(v, SnapshotId) == Chars(h.snapshotId)
            && Member(v, CoreVersion) == Chars(h.coreVersion) && Member(v, IrVersion) == Chars(h.irVersion)
  {
    hide HandleJson, Member;
    MemberIs(h, HandleId);
    MemberIs(h, AssetId);
    MemberIs(h, AssetVersion);
    MemberIs(h, DigestA);
    MemberIs(h, DigestC);
    MemberIs(h, SnapshotId);
    MemberIs(h, CoreVersion);
    MemberIs(h, IrVersion);
  }

  lemma GrantIsRead(h: Handle)
    ensures var v := HandleJson(h);
            && Member(v, ReadVersion) == Chars(h.readVersion) && Member(v, Select) == SelectionJson(h.selection)
            && Member(v, Target) == Chars(h.target) && Member(v, Scope) == ScopeJson(h.scope)
            && Member(v, IssuedAt) == Whole(h.issuedAt) && Member(v, ExpiresAt) == Whole(h.expiresAt)
            && Member(v, HostId) == Chars(h.hostId) && Member(v, HostEpoch) == Chars(h.hostEpoch)
  {
    hide HandleJson, Member, SelectionJson, ScopeJson;
    MemberIs(h, ReadVersion);
    MemberIs(h, Select);
    MemberIs(h, Target);
    MemberIs(h, Scope);
    MemberIs(h, IssuedAt);
    MemberIs(h, ExpiresAt);
    MemberIs(h, HostId);
    MemberIs(h, HostEpoch);
  }

  lemma HandleIsRead(h: Handle)
    ensures HandleOf(HandleJson(h)) == h
  {
    hide HandleJson, Member, SelectionOf, ScopeOf, ScopeJson, SelectionJson;
    SelectionIsRead(h.selection);
    ScopeIsRead(h.scope);
    IdentityIsRead(h);
    GrantIsRead(h);
  }

  lemma SelectionIsRead(s: Selection)
    ensures SelectionOf(SelectionJson(s)) == s
  {
  }

  lemma ScopeIsRead(scope: seq<Text>)
    ensures ScopeOf(ScopeJson(scope)) == scope
  {
  }

  lemma OpeningChecked(v: Versions, c: Json)
    requires v.Valid()
    ensures Opening(v, c).Passed? && Member(c, Tuple) == v.AsJson() <==>
              (&& c.Dict? && c.entries.Keys == (set k | k in TOP) && Member(c, Tuple) == v.AsJson()
               && Member(c, RequestId) == Chars(TextOf(Member(c, RequestId))) && Identifier(TextOf(Member(c, RequestId)))
               && Member(c, BudgetBytes) == Whole(SafeOf(Member(c, BudgetBytes))))
  {
    hide Identifier, TupleText;
    if Member(c, Tuple) == v.AsJson() {
      var t := v.AsJson();
      assert TupleAt(v, t).Passed? by {
        forall k | 0 <= k < |v.order| ensures TupleMember(t.entries, v.order[k]) == Passed {
          assert v.order[k] in v.order;
        }
      }
    }
  }

  lemma TopKeysAre()
    ensures forall k :: k in TOP <==> k in {RequestId, Tuple, BudgetBytes, Mode, Select, Expansion}
  {
    assert TOP[0] == RequestId && TOP[1] == Tuple && TOP[2] == BudgetBytes && TOP[3] == Mode && TOP[4] == Select;
    assert TOP[5] == Expansion;
  }

  lemma ProperIsAdmitted(v: Versions, q: Request)
    requires v.Valid() && Proper(q)
    ensures Inspect(v, CandidateJson(v, q)) == Admitted(Record(q.requestId, q.budgetBytes, Some(q), None))
  {
    hide Opening, Shape, AskOf, AskSelection, AskHandle, ModeText, ProperAsk, Identifier;
    var c := CandidateJson(v, q);
    TopKeysAre();
    assert c.entries.Keys == set k | k in TOP;
    OpeningChecked(v, c);
    ShapeChecked(Member(c, Mode), Member(c, Select), Member(c, Expansion));
    AskIsRead(q.ask);
  }

  lemma AdmittedIsProper(v: Versions, c: Json, q: Request)
    requires v.Valid() && Inspect(v, c) == Admitted(Record(q.requestId, q.budgetBytes, Some(q), None))
    ensures Proper(q) && c == CandidateJson(v, q)
  {
    hide Opening, Shape, AskOf, AskSelection, AskHandle, ModeText, ProperAsk, Identifier;
    OpeningChecked(v, c);
    ShapeChecked(Member(c, Mode), Member(c, Select), Member(c, Expansion));
    TopKeysAre();
    assert forall k | k in TOP :: Member(c, k) == CandidateField(v, q, k);
    assert c.entries == CandidateJson(v, q).entries;
  }

  /** The candidates that are admitted are those of proper requests, which are read back whole. */
  lemma AdmitsExactlyProperRequests(v: Versions, c: Json, q: Request)
    requires v.Valid()
    ensures Inspect(v, c) == Admitted(Record(q.requestId, q.budgetBytes, Some(q), None)) <==>
              Proper(q) && c == CandidateJson(v, q)
  {
    hide Inspect, Proper, CandidateJson;
    if Proper(q) { ProperIsAdmitted(v, q); }
    if Inspect(v, c) == Admitted(Record(q.requestId, q.budgetBytes, Some(q), None)) { AdmittedIsProper(v, c, q); }
  }
}
