/**
 Version precedence: SemVer 2.0.0 as the ecosystem manifest compares it, and the loader's
 comparison of digit strings, which never converts them.
 */
module SemVer {
  import opened Bytes
  import opened JsonValues
  import opened JsonPrinter

  // ---- Versions as text ---------------------------------------------------------------------

  function Find(t: Text, i: nat, u: Unit): (j: nat)
    requires i <= |t|
    ensures i <= j <= |t| && (j < |t| ==> t[j] == u) && forall k | i <= k < j :: t[k] != u
    decreases |t| - i
  {
    if i == |t| || t[i] == u then i else Find(t, i + 1, u)
  }

  /** `split('.')` */
  function Split(t: Text): (parts: seq<Text>)
    ensures parts != [] && WithDots(parts) == t
    decreases |t|
  {
    var dot := Find(t, 0, DOT);
    if dot == |t| then [t]
    else
      assert t == t[..dot] + [DOT] + t[dot + 1..];
      [t[..dot]] + Split(t[dot + 1..])
  }

  function WithDots(parts: seq<Text>): Text {
    if parts == [] then [] else if |parts| == 1 then parts[0] else parts[0] + [DOT] + WithDots(parts[1..])
  }

  /** `0|[1-9][0-9]*` */
  predicate IsNumber(t: Text) { t != [] && AllDigits(t) && (t[0] == ZERO ==> |t| == 1) }

  predicate IsLetter(u: Unit) { IsDigit(u) || 0x41 <= u <= 0x5a || 0x61 <= u <= 0x7a || u == MINUS }

  predicate IsIdentifier(t: Text) { t != [] && forall k | 0 <= k < |t| :: IsLetter(t[k]) }

  predicate IsNumeric(t: Text) { t != [] && AllDigits(t) }

  predicate IsPrereleaseIdentifier(t: Text) { IsIdentifier(t) && (IsNumeric(t) ==> IsNumber(t)) }

  datatype Version = Version(core: seq<Text>, prerelease: Option<Text>)

  predicate IsCore(core: seq<Text>) { |core| == 3 && IsNumber(core[0]) && IsNumber(core[1]) && IsNumber(core[2]) }

  /** A version behind whose core and prerelease there may be build metadata. */
  function Matched(t: Text, isPrereleasePart: Text -> bool): (v: Option<Version>)
    ensures v.Some? ==> IsCore(v.value.core)
    ensures v.Some? && v.value.prerelease.Some? ==>
              forall p | p in Split(v.value.prerelease.value) :: isPrereleasePart(p)
  {
    var plus := Find(t, 0, PLUS);
    var rest := t[..plus];
    var dash := Find(rest, 0, MINUS);
    var core := Split(rest[..dash]);
    var prerelease := if dash < |rest| then Some(rest[dash + 1..]) else None;
    if !IsCore(core)
      || (prerelease.Some? && exists p | p in Split(prerelease.value) :: !isPrereleasePart(p))
      || (plus < |t| && exists p | p in Split(t[plus + 1..]) :: !IsIdentifier(p))
    then None
    else Some(Version(core, prerelease))
  }

  function MatchSemver(t: Text): (v: Option<Version>)
    ensures v.Some? ==> Valid(v.value)
  {
    Matched(t, p => IsPrereleaseIdentifier(p))
  }

  predicate Valid(v: Version) {
    IsCore(v.core) && (v.prerelease.Some? ==> forall p | p in Split(v.prerelease.value) :: IsPrereleaseIdentifier(p))
  }

  // ---- Comparison ---------------------------------------------------------------------------------

  /** -1, 0 or 1 */
  type Order = n: int | -1 <= n <= 1

  function Sign(a: int, b: int): Order { if a < b then -1 else if a > b then 1 else 0 }

  function CompareNumbers(a: Text, b: Text): Order
    requires AllDigits(a) && AllDigits(b)
  {
    Sign(DigitsValue(a), DigitsValue(b))
  }

  function CompareTexts(a: Text, b: Text): Order { if a == b then 0 else if Before(b, a) then 1 else -1 }

  function CompareIdentifiers(a: Text, b: Text): Order {
    if IsNumeric(a) && IsNumeric(b) then CompareNumbers(a, b)
    else if IsNumeric(a) != IsNumeric(b) then if IsNumeric(a) then -1 else 1
    else CompareTexts(a, b)
  }

  /** The first difference decides; otherwise the longer list comes later. */
  function CompareParts(a: seq<Text>, b: seq<Text>): Order {
    if a == [] || b == [] then Sign(|a|, |b|)
    else
      var first := CompareIdentifiers(a[0], b[0]);
      if first != 0 then first else CompareParts(a[1..], b[1..])
  }

  function ComparePrerelease(a: Option<Text>, b: Option<Text>): Order {
    if a == b then 0 else if a.None? then 1 else if b.None? then -1 else CompareParts(Split(a.value), Split(b.value))
  }

  function CompareCore(a: seq<Text>, b: seq<Text>): Order
    requires IsCore(a) && IsCore(b)
  {
    var major, minor, patch := CompareNumbers(a[0], b[0]), CompareNumbers(a[1], b[1]), CompareNumbers(a[2], b[2]);
    if major != 0 then major else if minor != 0 then minor else patch
  }

  function Compare(a: Version, b: Version): Order
    requires Valid(a) && Valid(b)
  {
    var core := CompareCore(a.core, b.core);
    if core != 0 then core else ComparePrerelease(a.prerelease, b.prerelease)
  }

  method ComparePrereleaseIdentifiers(left: Option<Text>, right: Option<Text>) returns (order: Order)
    ensures order == ComparePrerelease(left, right)
  {
    if left == right { return 0; }
    if left.None? { return 1; }
    if right.None? { return -1; }
    var leftParts, rightParts := Split(left.value), Split(right.value);
    var shared := if |leftParts| <= |rightParts| then |leftParts| else |rightParts|;
    for index := 0 to shared
      invariant CompareParts(leftParts, rightParts) == CompareParts(leftParts[index..], rightParts[index..])
    {
      var leftPart, rightPart := leftParts[index], rightParts[index];
      assert leftParts[index..][1..] == leftParts[index + 1..] && rightParts[index..][1..] == rightParts[index + 1..];
      var leftNumeric, rightNumeric := IsNumeric(leftPart), IsNumeric(rightPart);
      if leftNumeric && rightNumeric {
        var leftValue, rightValue := DigitsValue(leftPart), DigitsValue(rightPart);
        if leftValue > rightValue { return 1; }
        if leftValue < rightValue { return -1; }
        continue;
      }
      if leftNumeric != rightNumeric { return if leftNumeric then -1 else 1; }
      if leftPart != rightPart { return if Before(rightPart, leftPart) then 1 else -1; }
    }
    if |leftParts| == |rightParts| { return 0; }
    return if |leftParts| > |rightParts| then 1 else -1;
  }

  /** Nothing when it throws. */
  method CompareSemver(left: Text, right: Text) returns (order: Option<Order>)
    ensures var l, r := MatchSemver(left), MatchSemver(right);
            order == if l.None? || r.None? then None else Some(Compare(l.value, r.value))
  {
    var leftMatch, rightMatch := MatchSemver(left), MatchSemver(right);
    if leftMatch.None? || rightMatch.None? { return None; }
    var l, r := leftMatch.value, rightMatch.value;
    for index := 0 to 3
      invariant forall k | 0 <= k < index :: DigitsValue(l.core[k]) == DigitsValue(r.core[k])
    {
      var leftPart, rightPart := DigitsValue(l.core[index]), DigitsValue(r.core[index]);
      if leftPart > rightPart { return Some(1); }
      if leftPart < rightPart { return Some(-1); }
    }
    var rest := ComparePrereleaseIdentifiers(l.prerelease, r.prerelease);
    return Some(rest);
  }

  // ---- Precedence is a total preorder ---------------------------------------------------------------

  lemma {:induction false} NumbersAreTheirValues(a: Text, b: Text)
    requires IsNumber(a) && IsNumber(b) && DigitsValue(a) == DigitsValue(b)
    ensures a == b
    decreases |a|
  {
    if |a| < |b| { LengthOrdersNumbers(a, b); }
    if |b| < |a| { LengthOrdersNumbers(b, a); }
    if |a| == 1 {
      assert a == [a[0]] && b == [b[0]] && a[..0] == b[..0] == [];
    } else {
      FrontIsNumber(a);
      FrontIsNumber(b);
      NumbersAreTheirValues(a[..|a| - 1], b[..|b| - 1]);
      assert a == a[..|a| - 1] + [a[|a| - 1]] && b == b[..|b| - 1] + [b[|b| - 1]];
    }
  }

  lemma FrontIsNumber(a: Text)
    requires IsNumber(a) && |a| > 1
    ensures IsNumber(a[..|a| - 1]) && a[..|a| - 1] != [ZERO]
    ensures DigitsValue(a) == 10 * DigitsValue(a[..|a| - 1]) + (a[|a| - 1] - ZERO)
  {
  }

  lemma {:induction false} LongNumbersAreNotZero(a: Text)
    requires IsNumber(a) && a != [ZERO]
    ensures DigitsValue(a) > 0
    decreases |a|
  {
    if |a| > 1 {
      FrontIsNumber(a);
      LongNumbersAreNotZero(a[..|a| - 1]);
    } else {
      assert a[..0] == [];
    }
  }

  /** Without leading zeros, the longer number is the larger one. */
  lemma {:induction false} LengthOrdersNumbers(a: Text, b: Text)
    requires IsNumber(a) && IsNumber(b) && |a| < |b|
    ensures DigitsValue(a) < DigitsValue(b)
    decreases |b|
  {
    FrontIsNumber(b);
    if |a| == 1 {
      LongNumbersAreNotZero(b[..|b| - 1]);
      assert a[..0] == [];
    } else {
      FrontIsNumber(a);
      LengthOrdersNumbers(a[..|a| - 1], b[..|b| - 1]);
    }
  }

  lemma CompareTextsIsAnOrder(a: Text, b: Text, c: Text)
    ensures CompareTexts(a, b) == -CompareTexts(b, a)
    ensures CompareTexts(a, b) == 0 <==> a == b
    ensures CompareTexts(a, b) < 0 && CompareTexts(b, c) < 0 ==> CompareTexts(a, c) < 0
  {
    BeforeTotal(a, b);
    BeforeTotal(b, c);
    BeforeTotal(a, c);
    if Before(a, b) && Before(b, c) { BeforeTransitive(a, b, c); }
  }

  lemma IdentifiersAreOrdered(a: Text, b: Text, c: Text)
    requires IsPrereleaseIdentifier(a) && IsPrereleaseIdentifier(b) && IsPrereleaseIdentifier(c)
    ensures CompareIdentifiers(a, b) == -CompareIdentifiers(b, a)
    ensures CompareIdentifiers(a, b) == 0 <==> a == b
    ensures CompareIdentifiers(a, b) < 0 && CompareIdentifiers(b, c) < 0 ==> CompareIdentifiers(a, c) < 0
  {
    hide CompareTexts, DigitsValue;
    CompareTextsIsAnOrder(a, b, c);
    if IsNumeric(a) && IsNumeric(b) && DigitsValue(a) == DigitsValue(b) { NumbersAreTheirValues(a, b); }
  }

  ghost predicate AllIdentifiers(parts: seq<Text>) { forall p | p in parts :: IsPrereleaseIdentifier(p) }

  lemma {:induction false} PartsAreOrdered(a: seq<Text>, b: seq<Text>, c: seq<Text>)
    requires AllIdentifiers(a) && AllIdentifiers(b) && AllIdentifiers(c)
    ensures CompareParts(a, b) == -CompareParts(b, a)
    ensures CompareParts(a, b) == 0 <==> a == b
    ensures CompareParts(a, b) < 0 && CompareParts(b, c) < 0 ==> CompareParts(a, c) < 0
    decreases |a| + |b| + |c|
  {
    hide CompareIdentifiers, IsPrereleaseIdentifier;
    if a != [] && b != [] {
      assert a == [a[0]] + a[1..] && b == [b[0]] + b[1..];
      IdentifiersAreOrdered(a[0], b[0], if c == [] then a[0] else c[0]);
      if c == [] {
        PartsAreOrdered(a[1..], b[1..], []);
      } else {
        assert c == [c[0]] + c[1..];
        IdentifiersAreOrdered(b[0], c[0], a[0]);
        IdentifiersAreOrdered(a[0], c[0], b[0]);
        PartsAreOrdered(a[1..], b[1..], c[1..]);
      }
    }
  }

  lemma PrereleasesAreOrdered(a: Version, b: Version, c: Version)
    requires Valid(a) && Valid(b) && Valid(c)
    ensures ComparePrerelease(a.prerelease, b.prerelease) == -ComparePrerelease(b.prerelease, a.prerelease)
    ensures ComparePrerelease(a.prerelease, b.prerelease) == 0 <==> a.prerelease == b.prerelease
    ensures ComparePrerelease(a.prerelease, b.prerelease) < 0 && ComparePrerelease(b.prerelease, c.prerelease) < 0 ==>
              ComparePrerelease(a.prerelease, c.prerelease) < 0
  {
    hide CompareParts, IsPrereleaseIdentifier, Split;
    var none: seq<Text> := [];
    var x, y := if a.prerelease.Some? then Split(a.prerelease.value) else none, if b.prerelease.Some? then Split(b.prerelease.value) else none;
    var z := if c.prerelease.Some? then Split(c.prerelease.value) else none;
    PartsAreOrdered(x, y, z);
    PartsAreOrdered(y, z, x);
    PartsAreOrdered(x, z, y);
  }

  lemma CoresAreOrdered(a: seq<Text>, b: seq<Text>, c: seq<Text>)
    requires IsCore(a) && IsCore(b) && IsCore(c)
    ensures CompareCore(a, b) == -CompareCore(b, a)
    ensures CompareCore(a, b) == 0 <==> a == b
    ensures CompareCore(a, b) <= 0 && CompareCore(b, c) <= 0 ==> CompareCore(a, c) <= 0
    ensures CompareCore(a, b) < 0 && CompareCore(b, c) <= 0 ==> CompareCore(a, c) < 0
    ensures CompareCore(a, b) <= 0 && CompareCore(b, c) < 0 ==> CompareCore(a, c) < 0
  {
    hide DigitsValue;
    if CompareCore(a, b) == 0 {
      NumbersAreTheirValues(a[0], b[0]);
      NumbersAreTheirValues(a[1], b[1]);
      NumbersAreTheirValues(a[2], b[2]);
      assert a == b;
    }
  }

  /**
   Precedence is reflexive, changes its sign with its arguments and is transitive; it is
   zero exactly for the same core and the same prerelease text, whatever the build metadata.
   */
  lemma PrecedenceIsATotalOrder(a: Version, b: Version, c: Version)
    requires Valid(a) && Valid(b) && Valid(c)
    ensures Compare(a, a) == 0 && Compare(a, b) == -Compare(b, a)
    ensures Compare(a, b) == 0 <==> a == b
    ensures Compare(a, b) <= 0 && Compare(b, c) <= 0 ==> Compare(a, c) <= 0
  {
    hide CompareCore, ComparePrerelease, IsPrereleaseIdentifier, Split, IsNumber;
    CoresAreOrdered(a.core, a.core, a.core);
    CoresAreOrdered(a.core, b.core, c.core);
    CoresAreOrdered(b.core, c.core, a.core);
    PrereleasesAreOrdered(a, a, a);
    PrereleasesAreOrdered(a, b, c);
    PrereleasesAreOrdered(b, c, a);
  }

  // ---- Section 11 of SemVer 2.0.0 ------------------------------------------------------------------

  /** 11.4.1 to 11.4.3: identifiers that differ. */
  ghost predicate IdentifierPrecedes(a: Text, b: Text) {
    if IsNumeric(a) && IsNumeric(b) then DigitsValue(a) < DigitsValue(b)
    else if IsNumeric(a) || IsNumeric(b) then IsNumeric(a)
    else Before(a, b)
  }

  /** The first place where the lists differ, and its identifiers decide. */
  ghost predicate DecidedAt(a: seq<Text>, b: seq<Text>, k: nat) {
    k < |a| && k < |b| && a[..k] == b[..k] && a[k] != b[k] && IdentifierPrecedes(a[k], b[k])
  }

  /** 11.4: the first identifiers that differ decide; 11.4.4: with none, the larger set of fields is higher. */
  ghost predicate PartsPrecede(a: seq<Text>, b: seq<Text>) {
    a < b || exists k: nat :: DecidedAt(a, b, k)
  }

  /** 11.2: the first of major, minor and patch that differ decide. */
  ghost predicate CorePrecedes(a: seq<Text>, b: seq<Text>)
    requires IsCore(a) && IsCore(b)
  {
    exists k | 0 <= k < 3 :: DigitsValue(a[k]) < DigitsValue(b[k]) && forall j | 0 <= j < k :: DigitsValue(a[j]) == DigitsValue(b[j])
  }

  /** 11.3: a prerelease comes before its release. */
  ghost predicate Precedes(a: Version, b: Version)
    requires Valid(a) && Valid(b)
  {
    || CorePrecedes(a.core, b.core)
    || (&& a.core == b.core && a.prerelease.Some?
        && (b.prerelease.Some? ==> PartsPrecede(Split(a.prerelease.value), Split(b.prerelease.value))))
  }

  lemma DecidedInRest(a: seq<Text>, b: seq<Text>, k: nat)
    requires a != [] && b != [] && a[0] == b[0]
    ensures DecidedAt(a[1..], b[1..], k) <==> DecidedAt(a, b, k + 1)
  {
    hide IdentifierPrecedes;
    if k + 1 < |a| && k + 1 < |b| {
      assert a[..k + 1] == [a[0]] + a[1..][..k] && b[..k + 1] == [b[0]] + b[1..][..k];
      assert a[..k + 1][1..] == a[1..][..k] && b[..k + 1][1..] == b[1..][..k];
    }
  }

  lemma PartsPrecedeBehindFirst(a: seq<Text>, b: seq<Text>)
    requires a != [] && b != [] && a[0] == b[0]
    ensures PartsPrecede(a, b) <==> PartsPrecede(a[1..], b[1..])
  {
    hide IdentifierPrecedes;
    var x, y := a[1..], b[1..];
    assert a == [a[0]] + x && b == [b[0]] + y;
    assert a < b <==> x < y;
    if k: nat :| DecidedAt(a, b, k) {
      assert k > 0;
      DecidedInRest(a, b, k - 1);
    }
    if k: nat :| DecidedAt(x, y, k) { DecidedInRest(a, b, k); }
  }

  lemma HeadsOfPrefixes(a: seq<Text>, b: seq<Text>, k: nat)
    requires 0 < k <= |a| && k <= |b|
    ensures a[0] != b[0] ==> a[..k] != b[..k]
  {
    assert a[..k][0] == a[0] && b[..k][0] == b[0];
  }

  lemma PartsPrecedeAtFirst(a: seq<Text>, b: seq<Text>)
    requires a != [] && b != [] && a[0] != b[0]
    ensures PartsPrecede(a, b) <==> IdentifierPrecedes(a[0], b[0])
  {
    hide IdentifierPrecedes;
    if IdentifierPrecedes(a[0], b[0]) { assert DecidedAt(a, b, 0); }
    forall k: nat | DecidedAt(a, b, k) ensures k == 0 {
      if k > 0 { HeadsOfPrefixes(a, b, k); }
    }
  }

  lemma {:induction false} PartsFollowSection11(a: seq<Text>, b: seq<Text>)
    requires AllIdentifiers(a) && AllIdentifiers(b)
    ensures CompareParts(a, b) < 0 <==> PartsPrecede(a, b)
    decreases |a|
  {
    if a != [] && b != [] {
      IdentifiersAreOrdered(a[0], b[0], a[0]);
      if a[0] != b[0] {
        IdentifierFollowsSection11(a[0], b[0]);
        PartsPrecedeAtFirst(a, b);
      } else {
        PartsFollowSection11(a[1..], b[1..]);
        PartsPrecedeBehindFirst(a, b);
      }
    } else {
      assert a < b <==> |a| < |b|;
    }
  }

  lemma IdentifierFollowsSection11(a: Text, b: Text)
    requires IsPrereleaseIdentifier(a) && IsPrereleaseIdentifier(b) && a != b
    ensures CompareIdentifiers(a, b) < 0 <==> IdentifierPrecedes(a, b)
  {
    hide DigitsValue;
    BeforeTotal(a, b);
  }

  /** The comparison is the precedence of section 11. */
  lemma FollowsSection11(a: Version, b: Version)
    requires Valid(a) && Valid(b)
    ensures Compare(a, b) < 0 <==> Precedes(a, b)
  {
    hide CompareParts, PartsPrecede, Split, IsPrereleaseIdentifier;
    CoresAreOrdered(a.core, b.core, a.core);
    hide DigitsValue, IsNumber;
    if a.prerelease.Some? && b.prerelease.Some? {
      PartsFollowSection11(Split(a.prerelease.value), Split(b.prerelease.value));
      PartsAreOrdered(Split(a.prerelease.value), Split(b.prerelease.value), []);
    }
  }

  // ---- The loader's comparison ---------------------------------------------------------------------

  /** A loader coordinate: its prerelease identifiers may have leading zeros. */
  function MatchCoordinate(t: Text): (core: Option<seq<Text>>)
    ensures core.Some? ==> IsCore(core.value)
  {
    var v := Matched(t, p => IsIdentifier(p));
    if v.Some? then Some(v.value.core) else None
  }

  /** `x.y.z` and nothing else. */
  function MatchStrict(t: Text): (core: Option<seq<Text>>)
    ensures core.Some? ==> IsCore(core.value)
  {
    if IsCore(Split(t)) then Some(Split(t)) else None
  }

  /** By length, then by digits. */
  function CompareNumericIdentifier(left: Text, right: Text): Order {
    if |left| != |right| then if |left| < |right| then -1 else 1
    else if left == right then 0
    else if Before(left, right) then -1 else 1
  }

  /** Nothing when it throws. */
  method CompareLoaderVersions(leftVersion: Text, rightVersion: Text) returns (order: Option<Order>)
    ensures var l, r := MatchCoordinate(leftVersion), MatchCoordinate(rightVersion);
            order == if l.None? || r.None? then None else Some(CompareCore(l.value, r.value))
  {
    var left, right := MatchCoordinate(leftVersion), MatchCoordinate(rightVersion);
    if left.None? || right.None? { return None; }
    var l, r := left.value, right.value;
    for index := 0 to 3
      invariant forall k | 0 <= k < index :: CompareNumbers(l[k], r[k]) == 0
    {
      LengthThenDigitsIsNumeric(l[index], r[index]);
      var comparison := CompareNumericIdentifier(l[index], r[index]);
      if comparison != 0 { return Some(comparison); }
    }
    return Some(0);
  }

  /** Whether a loader meets a requirement; nothing for a requirement that is not `x.y.z`. */
  method AssessLoaderCompatibility(required: Text, loader: Text) returns (compatible: Option<bool>)
    requires MatchCoordinate(loader).Some?
    ensures compatible == Compatible(required, loader)
  {
    if MatchStrict(required).None? { return None; }
    StrictIsCoordinate(required);
    var order := CompareLoaderVersions(required, loader);
    return Some(order.value <= 0);
  }

  function Compatible(required: Text, loader: Text): Option<bool>
    requires MatchCoordinate(loader).Some?
  {
    var r := MatchStrict(required);
    if r.None? then None else Some(CompareCore(r.value, MatchCoordinate(loader).value) <= 0)
  }

  lemma {:induction false} SameLengthComparesDigits(a: Text, b: Text)
    requires AllDigits(a) && AllDigits(b) && |a| == |b|
    ensures Before(a, b) <==> DigitsValue(a) < DigitsValue(b)
    ensures a == b <==> DigitsValue(a) == DigitsValue(b)
    decreases |a|
  {
    if a != [] {
      var x, y := a[..|a| - 1], b[..|b| - 1];
      var i, j := a[|a| - 1], b[|b| - 1];
      SameLengthComparesDigits(x, y);
      assert a == x + [i] && b == y + [j];
      BeforeAtEnd(x, y, i, j);
    }
  }

  lemma {:induction false} BeforeAtEnd(x: Text, y: Text, i: Unit, j: Unit)
    requires |x| == |y|
    ensures Before(x + [i], y + [j]) <==> Before(x, y) || (x == y && i < j)
  {
    if x == [] {
      assert x + [i] == [i] && y + [j] == [j];
    } else {
      assert (x + [i])[1..] == x[1..] + [i] && (y + [j])[1..] == y[1..] + [j];
      assert x == [x[0]] + x[1..] && y == [y[0]] + y[1..];
      BeforeAtEnd(x[1..], y[1..], i, j);
    }
  }

  /** Comparing by length and then by digits is comparing the integers, of any size. */
  lemma LengthThenDigitsIsNumeric(left: Text, right: Text)
    requires IsNumber(left) && IsNumber(right)
    ensures CompareNumericIdentifier(left, right) == Sign(DigitsValue(left), DigitsValue(right))
  {
    if |left| < |right| {
      LengthOrdersNumbers(left, right);
    } else if |right| < |left| {
      LengthOrdersNumbers(right, left);
    } else {
      SameLengthComparesDigits(left, right);
    }
  }

  lemma NoUnit(t: Text, u: Unit)
    requires u !in t
    ensures Find(t, 0, u) == |t|
  {
  }

  lemma {:induction false} DottedUnits(parts: seq<Text>, u: Unit)
    requires u != DOT && forall p | p in parts :: u !in p
    ensures u !in WithDots(parts)
  {
    if |parts| > 1 {
      assert parts == [parts[0]] + parts[1..];
      DottedUnits(parts[1..], u);
    }
  }

  /** A strict version is a coordinate, and a SemVer version without prerelease. */
  lemma StrictIsCoordinate(t: Text)
    requires MatchStrict(t).Some?
    ensures MatchCoordinate(t) == MatchStrict(t) && MatchSemver(t) == Some(Version(MatchStrict(t).value, None))
  {
    var core := Split(t);
    assert forall p | p in core :: AllDigits(p);
    DottedUnits(core, PLUS);
    DottedUnits(core, MINUS);
    NoUnit(t, PLUS);
    NoUnit(t, MINUS);
    assert t[..|t|] == t;
  }

  /** On strict versions the loader's comparison is that of SemVer. */
  lemma StrictComparisonsAgree(left: Text, right: Text)
    requires MatchStrict(left).Some? && MatchStrict(right).Some?
    ensures MatchSemver(left).Some? && MatchSemver(right).Some? && MatchCoordinate(left).Some? && MatchCoordinate(right).Some?
    ensures CompareCore(MatchCoordinate(left).value, MatchCoordinate(right).value)
         == Compare(MatchSemver(left).value, MatchSemver(right).value)
  {
    StrictIsCoordinate(left);
    StrictIsCoordinate(right);
  }

  /**
   On all SemVer versions the two comparisons agree exactly when the cores differ or the
   prereleases are the same: the loader does not look at prereleases.
   */
  lemma ComparisonsAgreeExactly(a: Version, b: Version)
    requires Valid(a) && Valid(b)
    ensures CompareCore(a.core, b.core) == Compare(a, b) <==> a.core != b.core || a.prerelease == b.prerelease
  {
    hide IsPrereleaseIdentifier, Split, CompareParts, IsNumber;
    CoresAreOrdered(a.core, b.core, a.core);
    PrereleasesAreOrdered(a, b, a);
  }

  /** A loader that meets a requirement meets every lower one. */
  lemma CompatibilityIsDownwardClosed(required: Text, lower: Text, loader: Text)
    requires MatchCoordinate(loader).Some? && Compatible(required, loader) == Some(true) && MatchStrict(lower).Some?
    requires CompareCore(MatchStrict(lower).value, MatchStrict(required).value) <= 0
    ensures Compatible(lower, loader) == Some(true)
  {
    hide IsNumber, Split;
    CoresAreOrdered(MatchStrict(lower).value, MatchStrict(required).value, MatchCoordinate(loader).value);
  }
}
