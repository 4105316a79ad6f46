/** What is wrong with a candidate that is rejected, and where. */
module ReadDiagnostics {
  import opened Bytes
  import opened JsonValues
  import opened JsonPrinter
  import opened ReadValues
  import opened ReadAdmission

  // ---- What has to stand where ----------------------------------------------------------------------

  datatype Kind = AnObject | AList | ANumber | AnIdentifier | ADigest | AString

  ghost predicate IsMember(o: Json, k: Key, x: Json) { o.Dict? && k in o.entries && o.entries[k] == x }

  ghost function HandleKind(k: Key): Kind {
    match k
    case Select => AnObject
    case Scope => AList
    case IssuedAt => ANumber
    case ExpiresAt => ANumber
    case DigestA => ADigest
    case DigestC => ADigest
    case _ => AnIdentifier
  }

  /** A value of the handle: a member, a member of its selection, or an item of its scope. */
  ghost predicate StandsInHandle(h: Json, k: Key, kind: Kind, x: Json) {
    || (IsMember(h, k, x) && kind == HandleKind(k))
    || (k == Select && kind == AnIdentifier && exists s, j :: IsMember(h, Select, s) && IsMember(s, j, x))
    || (k == Scope && kind == AnIdentifier && exists items :: IsMember(h, Scope, List(items)) && x in items)
  }

  /** A value of the candidate at a place, and the kind that is wanted there. */
  ghost predicate Stands(c: Json, place: Place, kind: Kind, x: Json) {
    match place
    case Candidate => kind == AnObject && x == c
    case Field(k) =>
      IsMember(c, k, x)
      && (match k
          case RequestId => kind == AnIdentifier
          case BudgetBytes => kind == ANumber
          case _ => kind == AnObject && (k == Tuple || k == Select || k == Expansion))
    case In(outer, k) =>
      exists o :: IsMember(c, outer, o)
        && (match outer
            case Tuple => IsMember(o, k, x) && kind == AString
            case Select => IsMember(o, k, x) && kind == AnIdentifier
            case Expansion => StandsInHandle(o, k, kind, x)
            case _ => false)
    case Unknown => false
  }

  ghost predicate HasKind(kind: Kind, x: Json) {
    match kind
    case AnObject => x.Dict?
    case AList => x.List?
    case ANumber => x.Whole? || x.Fraction?
    case _ => x.Chars?
  }

  ghost predicate IsProper(kind: Kind, t: Text) {
    match kind
    case ADigest => IsDigest(t)
    case AString => ScalarText(t) && Utf8Size(t) <= 1048576
    case _ => Identifier(t)
  }

  ghost predicate IsTopKey(k: Key) { k in {RequestId, Tuple, BudgetBytes, Mode, Select, Expansion} }

  ghost predicate IsSelectionKey(k: Key) { k in {AssetId, AssetVersion, JudgmentId} }

  ghost predicate HasOther(o: Json, isKey: Key -> bool) { o.Dict? && exists k :: k in o.entries && !isKey(k) }

  ghost predicate Lacks(o: Json, k: Key) { o.Dict? && k !in o.entries }

  // ---- What a diagnostic says -----------------------------------------------------------------------

  /** Some object of the candidate has a member that it must not have. */
  ghost predicate HasUnknown(v: Versions, c: Json) {
    || HasOther(c, k => IsTopKey(k))
    || (exists t :: IsMember(c, Tuple, t) && HasOther(t, k => k in v.value))
    || (exists s :: IsMember(c, Select, s) && HasOther(s, k => IsSelectionKey(k)))
    || (exists h :: IsMember(c, Expansion, h)
          && (HasOther(h, k => IsHandleKey(k)) || exists s :: IsMember(h, Select, s) && HasOther(s, k => IsSelectionKey(k))))
  }

  ghost predicate IsMissing(c: Json, place: Place) {
    match place
    case Field(k) => IsTopKey(k) && Lacks(c, k)
    case In(outer, k) =>
      exists o :: IsMember(c, outer, o)
        && (match outer
            case Select => IsSelectionKey(k) && Lacks(o, k)
            case Expansion =>
              || (IsHandleKey(k) && Lacks(o, k))
              || (k == Select && exists s, j :: IsMember(o, Select, s) && IsSelectionKey(j) && Lacks(s, j))
            case _ => false)
    case _ => false
  }

  ghost predicate IsMode(c: Json, mode: string)
    requires forall k | 0 <= k < |mode| :: mode[k] < '\U{0080}'
  {
    IsMember(c, Mode, Chars(Ascii(mode)))
  }

  ghost predicate IsSelective(c: Json) { IsMode(c, "exact_selection") || IsMode(c, "expand") }

  /** A handle whose scope is empty or names something twice, or that ends before it starts. */
  ghost predicate IsOdd(h: Json) {
    || (exists items :: IsMember(h, Scope, List(items)) && (items == [] || !Distinct(items)))
    || (exists from, to :: IsMember(h, IssuedAt, Whole(from)) && IsMember(h, ExpiresAt, Whole(to)) && to <= from)
  }

  /** No mode, or a selection or a handle that does not go with it. */
  ghost predicate IsMisshapen(c: Json, place: Place) {
    match place
    case Field(k) =>
      (match k
       case Mode => !IsMode(c, "whole_asset") && !IsMode(c, "catalog") && !IsSelective(c)
       case Select => !IsSelective(c) && !IsMember(c, Select, Nil)
       case Expansion =>
         if IsMode(c, "expand") then exists h :: IsMember(c, Expansion, h) && IsOdd(h) else !IsMember(c, Expansion, Nil)
       case _ => false)
    case _ => false
  }

  ghost predicate IsTrue(v: Versions, c: Json, reason: Reason, place: Place) {
    match reason
    case RepresentationNotObject => !c.Dict? && place == Candidate
    case UnknownField => place == Unknown && HasUnknown(v, c)
    case MissingRequired => IsMissing(c, place)
    case WrongType => exists kind, x :: Stands(c, place, kind, x) && !HasKind(kind, x)
    case InvalidIdentifier => exists kind, x :: Stands(c, place, kind, x) && x.Chars? && !IsProper(kind, x.text)
    case UnsafeInteger =>
      exists x :: Stands(c, place, ANumber, x) && (x.Fraction? || (x.Whole? && !(-0x1f_ffff_ffff_ffff <= x.n <= 0x1f_ffff_ffff_ffff)))
    case OutOfRange => exists x :: Stands(c, place, ANumber, x) && x.Whole? && x.n < 0
    case ModeShapeInvalid => IsMisshapen(c, place)
  }

  ghost predicate Holds(v: Versions, c: Json, checked: Checked) {
    checked.Fails? ==> IsTrue(v, c, checked.reason, checked.place)
  }

  // ---- The checks -----------------------------------------------------------------------------------

  lemma {:induction false} FirstHolds(v: Versions, c: Json, checks: seq<Checked>)
    requires forall k | 0 <= k < |checks| :: Holds(v, c, checks[k])
    ensures Holds(v, c, First(checks))
  {
    if checks != [] {
      assert Holds(v, c, checks[0]);
      FirstHolds(v, c, checks[1..]);
    }
  }

  lemma IdentHolds(v: Versions, c: Json, x: Json, place: Place)
    requires Stands(c, place, AnIdentifier, x)
    ensures Holds(v, c, Ident(x, place))
  {
    hide Stands;
    assert !HasKind(AnIdentifier, x) || IsProper(AnIdentifier, x.text) || Ident(x, place).Fails?;
  }

  lemma NumberHolds(v: Versions, c: Json, x: Json, place: Place)
    requires Stands(c, place, ANumber, x)
    ensures Holds(v, c, SafeInteger(x, place))
  {
    hide Stands;
    assert HasKind(ANumber, x) <==> x.Whole? || x.Fraction?;
  }

  lemma DigestHolds(v: Versions, c: Json, x: Json, place: Place)
    requires Stands(c, place, ADigest, x)
    ensures Holds(v, c, DigestText(x, place))
  {
    hide Stands;
    assert HasKind(ADigest, x) <==> x.Chars?;
    assert x.Chars? ==> (IsProper(ADigest, x.text) <==> IsDigest(x.text));
  }

  /** The first required member that is not there. */
  lemma MissingOne(entries: map<Key, Json>, required: seq<Key>, place: Key -> Place)
    ensures var m := Missing(entries, required, place);
            m.Fails? ==> m.reason == MissingRequired && exists k :: k in required && k !in entries && m.place == place(k)
  {
    var checks := seq(|required|, k requires 0 <= k < |required| =>
      if required[k] in entries then Passed else Fails(MissingRequired, place(required[k])));
    FirstIsOne(checks);
  }

  lemma {:induction false} FirstIsOne(checks: seq<Checked>)
    ensures First(checks).Fails? ==> exists k :: 0 <= k < |checks| && checks[k] == First(checks)
  {
    if checks != [] && checks[0].Passed? {
      FirstIsOne(checks[1..]);
      if First(checks).Fails? {
        var k :| 0 <= k < |checks[1..]| && checks[1..][k] == First(checks[1..]);
        assert checks[k + 1] == First(checks);
      }
    }
  }

  ghost predicate IsKeysFailure(o: Json, isKey: Key -> bool, required: seq<Key>, whole: Place, place: Key -> Place, checked: Checked) {
    || (checked == Fails(WrongType, whole) && !o.Dict?)
    || (checked == Fails(UnknownField, Unknown) && HasOther(o, isKey))
    || (exists k :: k in required && Lacks(o, k) && checked == Fails(MissingRequired, place(k)))
  }

  lemma KeysFailure(o: Json, allowed: seq<Key>, isKey: Key -> bool, required: seq<Key>, whole: Place, place: Key -> Place)
    requires forall k :: k in allowed <==> isKey(k)
    ensures var checked := Keys(o, allowed, required, whole, place);
            checked.Fails? ==> IsKeysFailure(o, isKey, required, whole, place, checked)
  {
    if o.Dict? {
      MissingOne(o.entries, required, place);
      if k :| k in o.entries && k !in allowed { assert !isKey(k); }
    }
  }

  lemma SelectionKeysAre()
    ensures forall k :: k in SELECTION_KEYS <==> IsSelectionKey(k)
  {
    assert SELECTION_KEYS[0] == AssetId && SELECTION_KEYS[1] == AssetVersion && SELECTION_KEYS[2] == JudgmentId;
  }

  lemma SelectionHolds(v: Versions, c: Json, s: Json)
    requires IsMember(c, Select, s)
    ensures Holds(v, c, SelectionAt(s, Field(Select), k => In(Select, k)))
  {
    hide Ident, Keys;
    var place := (k: Key) => In(Select, k);
    SelectionKeysAre();
    KeysFailure(s, SELECTION_KEYS, k => IsSelectionKey(k), SELECTION_KEYS, Field(Select), place);
    var checked := Keys(s, SELECTION_KEYS, SELECTION_KEYS, Field(Select), place);
    if checked.Fails? {
      assert Stands(c, Field(Select), AnObject, s);
    } else {
      var checks := seq(3, k requires 0 <= k < 3 && SELECTION_KEYS[k] in s.entries =>
        Ident(s.entries[SELECTION_KEYS[k]], place(SELECTION_KEYS[k])));
      forall k | 0 <= k < 3 ensures Holds(v, c, checks[k]) {
        IdentHolds(v, c, s.entries[SELECTION_KEYS[k]], In(Select, SELECTION_KEYS[k]));
      }
      FirstHolds(v, c, checks);
    }
  }

  lemma SelectionOfHandleHolds(v: Versions, c: Json, h: Json, s: Json)
    requires IsMember(c, Expansion, h) && IsMember(h, Select, s)
    ensures Holds(v, c, SelectionAt(s, In(Expansion, Select), _ => In(Expansion, Select)))
  {
    hide Ident, Keys;
    var place := (_: Key) => In(Expansion, Select);
    SelectionKeysAre();
    KeysFailure(s, SELECTION_KEYS, k => IsSelectionKey(k), SELECTION_KEYS, In(Expansion, Select), place);
    var checked := Keys(s, SELECTION_KEYS, SELECTION_KEYS, In(Expansion, Select), place);
    if checked.Fails? {
      assert StandsInHandle(h, Select, AnObject, s) && Stands(c, In(Expansion, Select), AnObject, s);
      assert checked.reason == WrongType ==> !HasKind(AnObject, s);
      assert checked.reason == MissingRequired ==> exists j :: IsSelectionKey(j) && Lacks(s, j);
    } else {
      var checks := seq(3, k requires 0 <= k < 3 && SELECTION_KEYS[k] in s.entries =>
        Ident(s.entries[SELECTION_KEYS[k]], place(SELECTION_KEYS[k])));
      forall k | 0 <= k < 3 ensures Holds(v, c, checks[k]) {
        assert IsMember(s, SELECTION_KEYS[k], s.entries[SELECTION_KEYS[k]]);
        assert StandsInHandle(h, Select, AnIdentifier, s.entries[SELECTION_KEYS[k]]);
        IdentHolds(v, c, s.entries[SELECTION_KEYS[k]], In(Expansion, Select));
      }
      FirstHolds(v, c, checks);
    }
  }

  lemma ScopeHolds(v: Versions, c: Json, h: Json, scope: Json)
    requires IsMode(c, "expand") && IsMember(c, Expansion, h) && IsMember(h, Scope, scope)
    ensures Holds(v, c, ScopeAt(scope))
  {
    hide Ident, IsMode, Distinct;
    if !scope.List? {
      assert StandsInHandle(h, Scope, AList, scope);
      assert Stands(c, In(Expansion, Scope), AList, scope) && !HasKind(AList, scope);
    } else {
      assert IsMember(h, Scope, List(scope.items));
      var checks := ScopeMembers(scope.items);
      forall k | 0 <= k < |checks| ensures Holds(v, c, checks[k]) {
        assert StandsInHandle(h, Scope, AnIdentifier, scope.items[k]);
        IdentHolds(v, c, scope.items[k], In(Expansion, Scope));
      }
      FirstHolds(v, c, checks);
      if scope.items == [] || !Distinct(scope.items) { assert IsOdd(h); }
    }
  }

  lemma MemberOfHandleStands(c: Json, h: Json, k: Key, x: Json)
    requires IsMember(c, Expansion, h) && IsMember(h, k, x)
    ensures Stands(c, In(Expansion, k), HandleKind(k), x)
  {
    assert StandsInHandle(h, k, HandleKind(k), x);
  }

  lemma HandleMemberHolds(v: Versions, c: Json, h: Json, k: Key)
    requires IsMode(c, "expand") && IsMember(c, Expansion, h) && h.Dict? && k in h.entries
    ensures Holds(v, c, HandleMember(k, h.entries[k]))
  {
    hide Holds, IsMode, SelectionAt, ScopeAt, SafeInteger, DigestText, Ident, Stands;
    var x := h.entries[k];
    assert Stands(c, In(Expansion, k), HandleKind(k), x) by { MemberOfHandleStands(c, h, k, x); }
    if k == Select { SelectionOfHandleHolds(v, c, h, x); }
    else if k == Scope { ScopeHolds(v, c, h, x); }
    else if k == IssuedAt || k == ExpiresAt { NumberHolds(v, c, x, In(Expansion, k)); }
    else if k == DigestA || k == DigestC { DigestHolds(v, c, x, In(Expansion, k)); }
    else { IdentHolds(v, c, x, In(Expansion, k)); }
  }

  lemma HandleHolds(v: Versions, c: Json, h: Json)
    requires IsMode(c, "expand") && IsMember(c, Expansion, h)
    ensures Holds(v, c, HandleAt(h))
  {
    hide Keys, IsMode, HandleMember, IsHandleKey, IsOdd, Holds;
    HandleKeysHold(v, c, h);
    if Keys(h, HANDLE_KEYS, HANDLE_KEYS, Field(Expansion), k => In(Expansion, k)).Passed? {
      var checks := HandleMembers(h.entries);
      forall k | 0 <= k < |checks| ensures Holds(v, c, checks[k]) { HandleMemberHolds(v, c, h, HANDLE_KEYS[k]); }
      FirstHolds(v, c, checks);
      if First(checks).Passed? && !Times(h.entries) {
        TimesAreOdd(h);
        assert Holds(v, c, Fails(ModeShapeInvalid, Field(Expansion))) by { OddHolds(v, c, h); }
      }
      assert Holds(v, c, Passed) by { PassedHolds(v, c); }
    }
  }

  lemma PassedHolds(v: Versions, c: Json)
    ensures Holds(v, c, Passed)
  {
  }

  lemma OddHolds(v: Versions, c: Json, h: Json)
    requires IsMode(c, "expand") && IsMember(c, Expansion, h) && IsOdd(h)
    ensures Holds(v, c, Fails(ModeShapeInvalid, Field(Expansion)))
  {
    hide IsMode, IsOdd;
  }

  lemma HandleKeysHold(v: Versions, c: Json, h: Json)
    requires IsMember(c, Expansion, h)
    ensures Holds(v, c, Keys(h, HANDLE_KEYS, HANDLE_KEYS, Field(Expansion), k => In(Expansion, k)))
  {
    hide Keys, IsHandleKey;
    var place := (k: Key) => In(Expansion, k);
    HandleKeysAre();
    KeysFailure(h, HANDLE_KEYS, k => IsHandleKey(k), HANDLE_KEYS, Field(Expansion), place);
    if Keys(h, HANDLE_KEYS, HANDLE_KEYS, Field(Expansion), place).Fails? {
      assert Stands(c, Field(Expansion), AnObject, h);
    }
  }

  lemma TimesAreOdd(h: Json)
    requires h.Dict? && (forall k | 0 <= k < |HANDLE_KEYS| :: HANDLE_KEYS[k] in h.entries)
    requires First(HandleMembers(h.entries)).Passed? && !Times(h.entries)
    ensures IsOdd(h)
  {
    hide IsHandleKey;
    KeyListed(IssuedAt);
    KeyListed(ExpiresAt);
    var checks := HandleMembers(h.entries);
    var i :| 0 <= i < |HANDLE_KEYS| && HANDLE_KEYS[i] == IssuedAt;
    var j :| 0 <= j < |HANDLE_KEYS| && HANDLE_KEYS[j] == ExpiresAt;
    assert checks[i] == Passed && checks[j] == Passed;
    assert IsMember(h, IssuedAt, Whole(h.entries[IssuedAt].n)) && IsMember(h, ExpiresAt, Whole(h.entries[ExpiresAt].n));
  }

  lemma TupleHolds(v: Versions, c: Json, t: Json)
    requires v.Valid() && IsMember(c, Tuple, t)
    ensures Holds(v, c, TupleAt(v, t))
  {
    hide Keys;
    var place := (k: Key) => In(Tuple, k);
    KeysFailure(t, v.order, k => k in v.value, [], Field(Tuple), place);
    var checked := Keys(t, v.order, [], Field(Tuple), place);
    if checked.Fails? {
      assert Stands(c, Field(Tuple), AnObject, t);
    } else {
      var checks := seq(|v.order|, k requires 0 <= k < |v.order| => TupleMember(t.entries, v.order[k]));
      forall k | 0 <= k < |checks| ensures Holds(v, c, checks[k]) { TupleMemberHolds(v, c, t, v.order[k]); }
      FirstHolds(v, c, checks);
    }
  }

  lemma TupleMemberHolds(v: Versions, c: Json, t: Json, k: Key)
    requires IsMember(c, Tuple, t) && t.Dict?
    ensures Holds(v, c, TupleMember(t.entries, k))
  {
    if k in t.entries {
      var x := t.entries[k];
      assert Stands(c, In(Tuple, k), AString, x);
      assert HasKind(AString, x) <==> x.Chars?;
      assert x.Chars? ==> (IsProper(AString, x.text) <==> TupleText(x.text));
    }
  }

  lemma OpeningHolds(v: Versions, c: Json)
    requires v.Valid() && c.Dict?
    ensures Holds(v, c, Opening(v, c))
  {
    hide Keys, Ident, SafeInteger, TupleAt, Holds;
    TopHolds(v, c);
    assert TOP[0] == RequestId && TOP[1] == Tuple && TOP[2] == BudgetBytes;
    if Keys(c, TOP, TOP, Candidate, k => Field(k)).Passed? {
      IdentHolds(v, c, c.entries[RequestId], Field(RequestId));
      NumberHolds(v, c, c.entries[BudgetBytes], Field(BudgetBytes));
      TupleHolds(v, c, c.entries[Tuple]);
    }
  }

  lemma TopHolds(v: Versions, c: Json)
    requires c.Dict?
    ensures Holds(v, c, Keys(c, TOP, TOP, Candidate, k => Field(k)))
  {
    hide Keys;
    TopKeysAre();
    KeysFailure(c, TOP, k => IsTopKey(k), TOP, Candidate, k => Field(k));
  }

  lemma ModesAre()
    ensures WHOLE_ASSET == Ascii("whole_asset") && CATALOG == Ascii("catalog")
    ensures EXACT == Ascii("exact_selection") && EXPAND == Ascii("expand")
  {
  }

  lemma ShapeHolds(v: Versions, c: Json, mode: Json, selection: Json, handle: Json)
    requires IsMember(c, Mode, mode) && IsMember(c, Select, selection) && IsMember(c, Expansion, handle)
    ensures Holds(v, c, Shape(mode, selection, handle))
  {
    hide SelectionAt, HandleAt, Ascii;
    ModesAre();
    ModesDiffer();
    SelectionHolds(v, c, selection);
    if mode == Chars(EXPAND) { HandleHolds(v, c, handle); }
  }

  /** Every diagnostic is true of the candidate at the place that it names. */
  lemma DiagnosticsAreTrue(v: Versions, c: Json)
    requires v.Valid()
    ensures var i := Inspect(v, c); i.Rejected? ==> IsTrue(v, c, i.reason, i.place)
  {
    hide Opening, Shape, IsTrue;
    if !c.Dict? {
      assert IsTrue(v, c, RepresentationNotObject, Candidate) by { NotAnObject(v, c); }
    } else {
      OpeningHolds(v, c);
      if Opening(v, c).Passed? {
        MembersAreThere(v, c);
        ShapeHolds(v, c, Member(c, Mode), Member(c, Select), Member(c, Expansion));
      }
    }
  }

  lemma NotAnObject(v: Versions, c: Json)
    requires !c.Dict?
    ensures IsTrue(v, c, RepresentationNotObject, Candidate)
  {
  }

  lemma MembersAreThere(v: Versions, c: Json)
    requires c.Dict? && Opening(v, c).Passed?
    ensures forall k | IsTopKey(k) :: IsMember(c, k, Member(c, k))
  {
    hide TupleAt, Ident, SafeInteger;
    TopKeysAre();
    forall k | IsTopKey(k) ensures k in c.entries {
      assert k in TOP;
    }
  }

  /** Another tuple is of mixed versions when a version in it, other than that of the payload, is the supported one. */
  lemma VersionRejectionsAre(v: Versions, c: Json)
    requires v.Valid() && Inspect(v, c).Admitted? && Inspect(v, c).record.version.Some?
    ensures Inspect(v, c).record.request.None? && exists t: Json :: IsMember(c, Tuple, t) && t != v.AsJson()
    ensures Inspect(v, c).record.version == Some(MixedVersionTuple)
            <==> exists t: Json, k: Key :: IsMember(c, Tuple, t) && k in v.value && k != PayloadProfile && IsMember(t, k, Chars(v.value[k]))
  {
    hide Inspect, Opening, IsMember, VersionFailure;
    var t := Member(c, Tuple);
    VersionIs(v, c);
    MembersAreThere(v, c);
    TupleIsThere(v, c);
    assert forall u | IsMember(c, Tuple, u) :: u == t by { OneMember(c, Tuple); }
    assert VersionFailure(v, t) == MixedVersionTuple
           <==> exists k :: k in v.value && k != PayloadProfile && IsMember(t, k, Chars(v.value[k])) by { MixedIs(v, t); }
  }

  lemma VersionIs(v: Versions, c: Json)
    requires Inspect(v, c).Admitted? && Inspect(v, c).record.version.Some?
    ensures c.Dict? && Opening(v, c).Passed? && Member(c, Tuple) != v.AsJson() && Inspect(v, c).record.request.None?
    ensures Member(c, Tuple).Dict? && Inspect(v, c).record.version == Some(VersionFailure(v, Member(c, Tuple)))
  {
    hide Shape, Opening, VersionFailure;
    if c.Dict? && Opening(v, c).Passed? { TupleIsThere(v, c); }
  }

  lemma OneMember(o: Json, k: Key)
    ensures forall x | IsMember(o, k, x) :: x == Member(o, k)
  {
  }

  lemma MixedIs(v: Versions, t: Json)
    requires t.Dict?
    ensures VersionFailure(v, t) == MixedVersionTuple
            <==> exists k :: k in v.value && k != PayloadProfile && IsMember(t, k, Chars(v.value[k]))
  {
  }

  lemma TupleIsThere(v: Versions, c: Json)
    requires c.Dict? && Opening(v, c).Passed?
    ensures Member(c, Tuple).Dict?
  {
    hide Ident, SafeInteger;
    assert TOP[1] == Tuple && TOP[1] in c.entries;
  }
}
