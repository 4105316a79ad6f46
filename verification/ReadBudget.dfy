/**
 Envelopes that state their own size. The counts are written into a fixed-width field,
 so writing them does not change the size that was counted.
 */
module ReadBudget {
  import opened Bytes
  import opened JsonValues
  import opened JsonPrinter
  import opened ReadValues

  type Members = map<Text, Value>

  datatype Code =
    | InputInvalid | UnsupportedVersion | MixedVersionTuple | SnapshotUnattested
    | AssetMismatch | AssetVersionMismatch | SelectionNotFound | SelectionAmbiguous
    | HandleUntrusted | HandleVersionMismatch | HandleStale | HandleAssetMismatch | HandleScopeMismatch
    | HostContextUntrusted | HostEpochMismatch | HostTimeInvalid | HandleExpired | HostContextExpired | HostDenied
    | ProjectionInvalid | ScopeDenied | BudgetInsufficient
    | CoreRejected(reason: Text)

  const BUDGET: Text := [0x62, 0x75, 0x64, 0x67, 0x65, 0x74]
  const LIMIT_BYTES: Text := [0x6c, 0x69, 0x6d, 0x69, 0x74, 0x5f, 0x62, 0x79, 0x74, 0x65, 0x73]
  const REQUIRED_BYTES: Text :=
    [0x72, 0x65, 0x71, 0x75, 0x69, 0x72, 0x65, 0x64, 0x5f, 0x62, 0x79, 0x74, 0x65, 0x73]
  const ACTUAL_BYTES: Text := [0x61, 0x63, 0x74, 0x75, 0x61, 0x6c, 0x5f, 0x62, 0x79, 0x74, 0x65, 0x73]

  /** An envelope: its members but for the budget, and the budget. */
  datatype Sheet = Sheet(members: Members, limit: nat, required: Text, actual: Text) {
    function Counts(): Value {
      Obj(map[LIMIT_BYTES := Num(Integer(limit)), REQUIRED_BYTES := Str(required), ACTUAL_BYTES := Str(actual)])
    }

    function AsValue(): Value { Obj(members[BUDGET := Counts()]) }

    /** All members are canonical JSON, and the limit is a safe integer. */
    ghost predicate Valid() {
      && Uint(limit) && |required| == |actual| == WIDTH && AllDigits(required) && AllDigits(actual)
      && forall name | name in members :: Plain(members[name])
    }
  }

  lemma CountsPlain(s: Sheet)
    requires s.Valid()
    ensures Plain(s.Counts()) && Plain(s.AsValue())
  {
  }

  /** The envelope's own size. */
  ghost function SheetSize(s: Sheet): nat
    requires s.Valid()
  {
    CountsPlain(s);
    Size(s.AsValue())
  }

  /** Every way to fill in the counts gives the same size. */
  lemma CountsKeepTheSize(s: Sheet, required: Text, actual: Text)
    requires s.Valid() && s.(required := required, actual := actual).Valid()
    ensures SheetSize(s) == SheetSize(s.(required := required, actual := actual))
  {
    hide Print, Ordered, Escaped, Utf8Size;
    var t := s.(required := required);
    var u := t.(actual := actual);
    CountsPlain(s);
    CountsPlain(t);
    CountsPlain(u);
    SizeOfDigits(s.required);
    SizeOfDigits(required);
    SizeOfDigits(s.actual);
    SizeOfDigits(actual);
    RequiredKeepsTheSize(s, required);
    ActualKeepsTheSize(t, actual);
    SizeOfMember(s.members, BUDGET, s.Counts(), u.Counts());
  }

  lemma NamesAreDistinct()
    ensures LIMIT_BYTES != REQUIRED_BYTES && LIMIT_BYTES != ACTUAL_BYTES && REQUIRED_BYTES != ACTUAL_BYTES
  {
    assert |LIMIT_BYTES| == 11 && |REQUIRED_BYTES| == 14 && |ACTUAL_BYTES| == 12;
  }

  lemma RequiredKeepsTheSize(s: Sheet, required: Text)
    requires s.Valid() && s.(required := required).Valid()
    ensures Plain(s.Counts()) && Plain(s.(required := required).Counts())
    ensures Size(s.Counts()) == Size(s.(required := required).Counts())
  {
    hide Utf8Size, Escaped, Ordered, AllDigits, Quoted;
    NamesAreDistinct();
    var other := map[LIMIT_BYTES := Num(Integer(s.limit)), ACTUAL_BYTES := Str(s.actual)];
    assert s.Counts() == Obj(other[REQUIRED_BYTES := Str(s.required)]);
    assert s.(required := required).Counts() == Obj(other[REQUIRED_BYTES := Str(required)]);
    SizeOfDigits(s.required);
    SizeOfDigits(required);
    SizeOfMember(other, REQUIRED_BYTES, Str(s.required), Str(required));
  }

  lemma ActualKeepsTheSize(s: Sheet, actual: Text)
    requires s.Valid() && s.(actual := actual).Valid()
    ensures Plain(s.Counts()) && Plain(s.(actual := actual).Counts())
    ensures Size(s.Counts()) == Size(s.(actual := actual).Counts())
  {
    hide Utf8Size, Escaped, Ordered, AllDigits, Quoted;
    NamesAreDistinct();
    var other := map[LIMIT_BYTES := Num(Integer(s.limit)), REQUIRED_BYTES := Str(s.required)];
    assert s.Counts() == Obj(other[ACTUAL_BYTES := Str(s.actual)]);
    assert s.(actual := actual).Counts() == Obj(other[ACTUAL_BYTES := Str(actual)]);
    SizeOfDigits(s.actual);
    SizeOfDigits(actual);
    SizeOfMember(other, ACTUAL_BYTES, Str(s.actual), Str(actual));
  }

  // ---- Measuring -----------------------------------------------------------------------

  /** `required` as it is written: the given count, or the size itself. */
  function Needed(required: Option<nat>, size: nat): nat { if required.Some? then required.value else size }

  /** The envelope with its counts filled in; nothing when a count does not fit its field or a text is malformed. */
  ghost function Measured(s: Sheet, required: Option<nat>): (m: Option<Sheet>)
    requires s.Valid()
    ensures m.Some? ==> m.value.Valid()
  {
    CountsPlain(s);
    var n := SheetSize(s);
    if Scalar(s.AsValue()) && Uint(n) && Uint(Needed(required, n))
    then Some(s.(required := Fixed(Needed(required, n)), actual := Fixed(n)))
    else None
  }

  /** An envelope that was measured states its own size. */
  lemma MeasuredStatesItsSize(s: Sheet, required: Option<nat>)
    requires s.Valid() && Measured(s, required).Some?
    ensures var m := Measured(s, required).value;
            && Uint(SheetSize(m)) && m.actual == Fixed(SheetSize(m)) && SheetSize(m) == SheetSize(s)
            && m.required == Fixed(Needed(required, SheetSize(m)))
            && m.members == s.members && m.limit == s.limit
  {
    var m := Measured(s, required).value;
    CountsKeepTheSize(s, m.required, m.actual);
  }

  class Envelope {
    const members: Members
    const limit: nat
    var required: Text
    var actual: Text

    function AsSheet(): Sheet
      reads this
    {
      Sheet(members, limit, required, actual)
    }

    constructor (members: Members, limit: nat)
      requires Sheet(members, limit, Fixed(0), Fixed(0)).Valid()
      ensures AsSheet() == Sheet(members, limit, Fixed(0), Fixed(0))
    {
      this.members, this.limit, required, actual := members, limit, Fixed(0), Fixed(0);
    }

    /** Nothing when it raises. */
    method Measure(needed: Option<nat>) returns (count: Option<nat>)
      requires AsSheet().Valid()
      modifies this
      ensures AsSheet().Valid()
      ensures count.Some? == Measured(old(AsSheet()), needed).Some?
      ensures count.Some? ==>
                && count.value == SheetSize(old(AsSheet()))
                && Some(AsSheet()) == Measured(old(AsSheet()), needed)
    {
      ghost var before := AsSheet();
      actual := Fixed(0);
      if needed.Some? && !Uint(needed.value) { return None; }
      required := Fixed(if needed.Some? then needed.value else 0);
      CountsPlain(AsSheet());
      CountsPlain(before);
      CountsKeepTheSize(before, required, actual);
      ScalarCounts(before, required, actual);
      var text := Serialize(AsSheet().AsValue());
      if text.None? { return None; }
      var size := Utf8Size(text.value);
      if !Uint(size) { return None; }
      actual := Fixed(size);
      if needed.None? { required := Fixed(size); }
      return Some(size);
    }
  }

  lemma ScalarCounts(s: Sheet, required: Text, actual: Text)
    requires s.Valid() && s.(required := required, actual := actual).Valid()
    ensures Scalar(s.AsValue()) == Scalar(s.(required := required, actual := actual).AsValue())
  {
    CountsAreScalar(s);
    CountsAreScalar(s.(required := required, actual := actual));
  }

  lemma NamesAreScalar()
    ensures ScalarText(BUDGET) && ScalarText(LIMIT_BYTES) && ScalarText(REQUIRED_BYTES) && ScalarText(ACTUAL_BYTES)
  {
    hide ScalarText;
    AsciiIsScalar(BUDGET);
    AsciiIsScalar(LIMIT_BYTES);
    AsciiIsScalar(REQUIRED_BYTES);
    AsciiIsScalar(ACTUAL_BYTES);
  }

  lemma CountsAreScalar(s: Sheet)
    requires s.Valid()
    ensures Scalar(s.Counts())
    ensures Scalar(s.AsValue()) <==>
              forall name | name in s.members && name != BUDGET :: ScalarText(name) && Scalar(s.members[name])
  {
    hide ScalarText;
    NamesAreScalar();
    AsciiIsScalar(s.required);
    AsciiIsScalar(s.actual);
    var whole := s.members[BUDGET := s.Counts()];
    assert forall name | name in s.members && name != BUDGET :: name in whole && whole[name] == s.members[name];
  }

  // ---- Answering within the budget ---------------------------------------------------------

  /** What a read answers: an envelope, a control without a body, or an exception on the way. */
  datatype Answer =
    | ReadEnvelope(sheet: Sheet, ready: bool, code: Option<Code>)
    | NoBody(cause: Code)
    | Raised

  /**
   The answer to an envelope of the given status and first error code; `rejection` is what
   is sent when a ready one does not fit.
   */
  ghost function Answered(s: Sheet, ready: bool, code: Option<Code>, rejection: Sheet): Answer
    requires s.Valid() && rejection.Valid() && (!ready ==> code.Some?)
  {
    var whole := Measured(s, None);
    var instead := if ready then Measured(rejection, Some(SheetSize(s))) else whole;
    if whole.None? || instead.None? then Raised
    else if ready && code.None? && SheetSize(s) <= s.limit then ReadEnvelope(whole.value, true, None)
    else
      var cause := if code.Some? then code.value else BudgetInsufficient;
      var size := if ready then SheetSize(rejection) else SheetSize(s);
      if size <= s.limit then ReadEnvelope(instead.value, false, Some(if ready then BudgetInsufficient else cause))
      else NoBody(cause)
  }

  method Finish(envelope: Envelope, ready: bool, code: Option<Code>, rejected: Members) returns (answer: Answer)
    requires envelope.AsSheet().Valid() && Sheet(rejected, envelope.limit, Fixed(0), Fixed(0)).Valid()
    requires !ready ==> code.Some?
    modifies envelope
    ensures answer == Answered(old(envelope.AsSheet()), ready, code, Sheet(rejected, envelope.limit, Fixed(0), Fixed(0)))
  {
    hide SheetSize, Scalar, Plain, Fixed, DigitsValue, AllDigits;
    var count := envelope.Measure(None);
    if count.None? { return Raised; }
    var rejection, rejectionBytes := envelope, count;
    if ready {
      rejection := new Envelope(rejected, envelope.limit);
      rejectionBytes := rejection.Measure(count);
      if rejectionBytes.None? { return Raised; }
    }
    if ready && code.None? && count.value <= envelope.limit {
      return ReadEnvelope(envelope.AsSheet(), true, None);
    }
    if rejectionBytes.value <= envelope.limit {
      return ReadEnvelope(rejection.AsSheet(), false, if ready then Some(BudgetInsufficient) else code);
    }
    return NoBody(if code.Some? then code.value else BudgetInsufficient);
  }

  /** An answered envelope states its own size, which is within the limit. */
  lemma AnswerStatesItsSize(s: Sheet, ready: bool, code: Option<Code>, rejection: Sheet)
    requires s.Valid() && rejection.Valid() && s.limit == rejection.limit && (!ready ==> code.Some?)
    ensures var a := Answered(s, ready, code, rejection);
            a.ReadEnvelope? ==>
              && a.sheet.Valid() && Uint(SheetSize(a.sheet)) && a.sheet.actual == Fixed(SheetSize(a.sheet))
              && SheetSize(a.sheet) <= a.sheet.limit == s.limit
  {
    hide SheetSize, Scalar, Plain, Fixed, DigitsValue, AllDigits;
    var a := Answered(s, ready, code, rejection);
    if a.ReadEnvelope? {
      MeasuredStatesItsSize(s, None);
      if ready { MeasuredStatesItsSize(rejection, Some(SheetSize(s))); }
    }
  }

  /**
   A ready envelope is answered exactly when it is within the limit. Otherwise the rejection
   states the size that was needed, and without room for that there is no body.
   */
  lemma ReadyAnswer(s: Sheet, rejection: Sheet)
    requires s.Valid() && rejection.Valid() && s.limit == rejection.limit
    requires Scalar(s.AsValue()) && Scalar(rejection.AsValue()) && Uint(SheetSize(s)) && Uint(SheetSize(rejection))
    ensures var a := Answered(s, true, None, rejection);
            if SheetSize(s) <= s.limit then
              a.ReadEnvelope? && a.ready && a.sheet.members == s.members && a.sheet.required == a.sheet.actual
            else if SheetSize(rejection) <= s.limit then
              && a.ReadEnvelope? && !a.ready && a.code == Some(BudgetInsufficient)
              && a.sheet.members == rejection.members
              && a.sheet.required == Fixed(SheetSize(s)) && DigitsValue(a.sheet.required) > a.sheet.limit
            else a == NoBody(BudgetInsufficient)
  {
    hide SheetSize, Scalar, Plain, Fixed, DigitsValue, AllDigits;
    MeasuredStatesItsSize(s, None);
    MeasuredStatesItsSize(rejection, Some(SheetSize(s)));
  }

  // ---- Admission responses --------------------------------------------------------------

  const CONTROL_BUDGET: Text :=
    [0x63, 0x6f, 0x6e, 0x74, 0x72, 0x6f, 0x6c, 0x5f, 0x62, 0x75, 0x64, 0x67, 0x65, 0x74]

  /** The body of an admission rejection, whose budget has one count. */
  function AdmissionBody(members: Members, limit: nat, actual: Text): Value {
    Obj(members[CONTROL_BUDGET := Obj(map[LIMIT_BYTES := Num(Integer(limit)), ACTUAL_BYTES := Str(actual)])])
  }

  datatype Response = Rejection(body: Value) | TooSmall | Unprintable

  ghost predicate ValidResponse(members: Members, limit: nat) {
    Uint(limit) && forall name | name in members :: Plain(members[name])
  }

  lemma AdmissionCountKeepsTheSize(members: Members, limit: nat, a: Text, b: Text)
    requires ValidResponse(members, limit) && |a| == |b| && AllDigits(a) && AllDigits(b)
    ensures Plain(AdmissionBody(members, limit, a)) && Plain(AdmissionBody(members, limit, b))
    ensures Size(AdmissionBody(members, limit, a)) == Size(AdmissionBody(members, limit, b))
  {
    hide Print, Ordered, Escaped, Utf8Size;
    SizeOfDigits(a);
    SizeOfDigits(b);
    var other := map[LIMIT_BYTES := Num(Integer(limit))];
    assert Size(Str(a)) == Size(Str(b)) by { StringSize(a); StringSize(b); }
    SizeOfMember(other, ACTUAL_BYTES, Str(a), Str(b));
    SizeOfMember(members, CONTROL_BUDGET, Obj(other[ACTUAL_BYTES := Str(a)]), Obj(other[ACTUAL_BYTES := Str(b)]));
  }

  lemma StringSize(t: Text)
    requires AllDigits(t)
    ensures Size(Str(t)) == |t| + 2
  {
    SizeOfDigits(t);
  }

  method RespondToInvalid(members: Members, limit: nat) returns (response: Response)
    requires ValidResponse(members, limit)
    ensures response.Rejection? ==>
              && Plain(response.body) && Size(response.body) <= limit && Uint(Size(response.body))
              && response.body == AdmissionBody(members, limit, Fixed(Size(response.body)))
    ensures response.TooSmall? ==>
              forall n: nat | Uint(n) && Plain(AdmissionBody(members, limit, Fixed(n))) ::
                Size(AdmissionBody(members, limit, Fixed(n))) > limit
  {
    var zeros := AdmissionBody(members, limit, Fixed(0));
    AdmissionCountKeepsTheSize(members, limit, Fixed(0), Fixed(0));
    var text := Serialize(zeros);
    if text.None? { return Unprintable; }
    var count := Utf8Size(text.value);
    if !Uint(count) { return Unprintable; }
    if count <= limit {
      AdmissionCountKeepsTheSize(members, limit, Fixed(0), Fixed(count));
      return Rejection(AdmissionBody(members, limit, Fixed(count)));
    }
    forall n: nat | Uint(n) && Plain(AdmissionBody(members, limit, Fixed(n)))
      ensures Size(AdmissionBody(members, limit, Fixed(n))) > limit
    {
      AdmissionCountKeepsTheSize(members, limit, Fixed(0), Fixed(n));
    }
    return TooSmall;
  }
}
