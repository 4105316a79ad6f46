/**
 What a ready body holds, in each mode of a Read, said of the snapshot and of the two scopes
 alone; and when a request is answered at all.
 */
module ReadBodies {
  import opened Bytes
  import opened JsonValues
  import opened ReadBudget
  import opened ReadAdmission
  import opened ReadProjection
  import opened ReadHost
  import opened ReadCalls
  import opened ReadRuns

  // ---- Selections of a list -----------------------------------------------------------------

  /** Ascending places in a list: those of all the items that are wanted. */
  ghost predicate ArePlaces<T(!new)>(places: seq<nat>, items: seq<T>, wanted: T -> bool) {
    && (forall j, k | 0 <= j < k < |places| :: places[j] < places[k])
    && forall p: nat :: p in places <==> p < |items| && wanted(items[p])
  }

  ghost function At<T>(items: seq<T>, places: seq<nat>): seq<T>
    requires forall p | p in places :: p < |items|
  {
    seq(|places|, k requires 0 <= k < |places| => assert places[k] in places; items[places[k]])
  }

  /** The wanted items of a list, all of them, in their order. */
  ghost predicate IsPick<T(!new)>(picked: seq<T>, items: seq<T>, wanted: T -> bool) {
    exists places :: ArePlaces(places, items, wanted) && picked == At(items, places)
  }

  lemma {:induction false} WherePicks<T(!new)>(items: seq<T>, keep: T -> bool) returns (places: seq<nat>)
    ensures ArePlaces(places, items, keep) && Where(items, keep) == At(items, places)
  {
    hide ArePlaces, At, Where;
    if items == [] {
      places := [];
      NothingPicked(items, keep);
    } else {
      var n := |items| - 1;
      var front := WherePicks(items[..n], keep);
      WhereLast(items, keep);
      places := if keep(items[n]) then front + [n] else front;
      assert items == items[..n] + [items[n]];
      OneMorePlace(items[..n], items[n], keep, front);
    }
  }

  lemma NothingPicked<T(!new)>(items: seq<T>, keep: T -> bool)
    requires items == []
    ensures ArePlaces([], items, keep) && Where(items, keep) == At(items, [])
  {
  }

  lemma OneMorePlace<T(!new)>(items: seq<T>, x: T, keep: T -> bool, places: seq<nat>)
    requires ArePlaces(places, items, keep)
    ensures var more := if keep(x) then places + [|items|] else places;
            ArePlaces(more, items + [x], keep) && At(items + [x], more) == At(items, places) + if keep(x) then [x] else []
  {
    var all, more := items + [x], if keep(x) then places + [|items|] else places;
    forall k | 0 <= k < |places| ensures places[k] < |items| {
      assert places[k] in places;
    }
    forall p: nat ensures p in more <==> p < |all| && keep(all[p]) {
      assert p in more <==> p in places || (keep(x) && p == |items|);
    }
  }

  lemma {:induction false} WhereLast<T>(items: seq<T>, keep: T -> bool)
    requires items != []
    ensures var n := |items| - 1;
            Where(items, keep) == Where(items[..n], keep) + if keep(items[n]) then [items[n]] else []
  {
    var n := |items| - 1;
    if n > 0 {
      WhereLast(items[1..], keep);
      assert items[1..][..n - 1] == items[..n][1..];
    }
  }

  lemma PickIs<T(!new)>(items: seq<T>, keep: T -> bool, wanted: T -> bool)
    requires forall x | x in items :: keep(x) <==> wanted(x)
    ensures IsPick(Where(items, keep), items, wanted)
  {
    var places := WherePicks(items, keep);
    assert ArePlaces(places, items, wanted);
  }

  /** The first item of a list that is wanted. */
  ghost predicate IsFirst<T(!new)>(items: seq<T>, k: int, wanted: T -> bool) {
    0 <= k < |items| && wanted(items[k]) && forall j | 0 <= j < k :: !wanted(items[j])
  }

  // ---- What a body holds ----------------------------------------------------------------------

  const DECLARED: set<Role> := {AssetDeclaration, Declaration, ScopeRole, Cohesion, Attribution}

  ghost predicate IsDeclared(n: Node) { n.owner.None? && n.role in DECLARED }

  ghost predicate IsClaimed(n: Node) { n.role in {Provenance, Attribution} }

  /** The nodes of these ids, in this order: of two of the same id, the last one. */
  ghost predicate AreNodes(closure: seq<Node>, nodes: seq<Node>, ids: seq<Text>) {
    && |closure| == |ids|
    && forall k | 0 <= k < |ids| :: closure[k].id == ids[k] && IsLastNode(nodes, closure[k])
  }

  ghost predicate IsLastNode(nodes: seq<Node>, n: Node) {
    exists p :: 0 <= p < |nodes| && nodes[p] == n && forall q | p < q < |nodes| :: nodes[q].id != n.id
  }

  ghost predicate IsWhole(ask: Ask) { ask.WholeAsset? || ask.Catalog? }

  /** The entry is listed: all are, or those of the selected judgment. */
  ghost predicate IsAsked(ask: Ask, e: Entry) { IsWhole(ask) || e.judgmentId == ask.selected.judgmentId }

  /** The judgment of the entry is not disclosed. */
  ghost predicate IsLeftOut(ask: Ask, e: Entry) { IsWhole(ask) || e.judgmentId != ask.selected.judgmentId }

  /** The first mandatory closure of this selection. */
  ghost predicate IsMandatory(view: View, s: Selection, k: int) {
    IsFirst(view.closures, k, (c: Closure) => c.selection == s)
  }

  ghost predicate IsTarget(view: View, target: Text, s: Selection, k: int) {
    IsFirst(view.targets, k, (t: ExpansionTarget) => t.target == target && t.selection == s)
  }

  /** What a request discloses: nothing, a mandatory closure, or the scope of an expansion target. */
  ghost predicate Discloses(ask: Ask, view: View, ids: seq<Text>) {
    match ask
    case WholeAsset => ids == []
    case Catalog => ids == []
    case Exact(s) => exists k :: IsMandatory(view, s, k) && ids == view.closures[k].nodeIds
    case Expand(s, h) =>
      && (exists k :: IsMandatory(view, s, k))
      && exists k :: IsTarget(view, h.target, s, k) && ids == view.targets[k].scope
  }

  ghost predicate InClosure(b: Body, role: Role, valueId: Text) { exists n | n in b.closure :: n.role == role && n.valueId == valueId }

  /** The declarations, catalog entries, references, relationships and claims of the snapshot that are in the body. */
  ghost predicate HoldsOfView(ask: Ask, view: View, allowed: set<Text>, b: Body) {
    && IsPick(b.declarations, view.nodes, (n: Node) => !ask.Catalog? && IsDeclared(n) && n.id in allowed)
    && IsPick(b.catalog, view.catalog,
              (e: Entry) => IsAsked(ask, e) && e.nodeRef in allowed)
    && IsPick(b.references, view.references,
              (r: Reference) => (exists n | n in b.closure :: n.id == r.source) && (exists n | n in b.closure :: n.id == r.target))
    && IsPick(b.relationships, view.relationships,
              (r: Relationship) => InClosure(b, Relation, r.id) && forall p | p in r.participants :: InClosure(b, Judgment, p))
    && IsPick(b.claims, view.nodes, (n: Node) => IsClaimed(n) && n.id in allowed)
    && (b.confirmation == if exists n | n in b.claims :: n.role == Provenance || n.provided then ClaimedUnverified else NotEvaluated)
  }

  ghost predicate IsAuthored(view: View, k: int) { IsFirst(view.nodes, k, (n: Node) => n.role.Declaration? && n.owner.None?) }

  /** The fields that the first declaration of the asset does not have. */
  ghost predicate HoldsMissing(fields: seq<Text>, view: View, b: Body) {
    && (forall k | IsAuthored(view, k) :: IsPick(b.missing, fields, (f: Text) => f !in view.nodes[k].names))
    && ((exists k :: IsAuthored(view, k)) || b.missing == fields)
  }

  /** The judgments left out, by these entries, and then the declarations left out. */
  ghost predicate AreOmissions(ask: Ask, omissions: seq<Omission>, entries: seq<Entry>, declarations: seq<Node>) {
    && |omissions| == |entries| + |declarations|
    && (forall k | 0 <= k < |entries| ::
          omissions[k] == Omission(entries[k].nodeRef, Ascii("judgment"), if IsWhole(ask) then NotInMode else OutsideSelection))
    && forall k | 0 <= k < |declarations| ::
         omissions[|entries| + k] == Omission(declarations[k].id, Ascii("declaration"), NotInMode)
  }

  /** What is left out is said, as far as it is in scope. */
  ghost predicate HoldsOmissions(ask: Ask, view: View, allowed: set<Text>, b: Body) {
    exists entries, declarations ::
      && IsPick(entries, view.catalog,
                (e: Entry) => IsLeftOut(ask, e) && e.nodeRef in allowed)
      && IsPick(declarations, view.nodes, (n: Node) => ask.Catalog? && IsDeclared(n) && n.id in allowed)
      && AreOmissions(ask, b.omissions, entries, declarations)
  }

  /** The closure is what the request discloses, all of it in scope. */
  ghost predicate HoldsClosure(ask: Ask, view: View, allowed: set<Text>, b: Body) {
    && b.selected == (if IsWhole(ask) then None else Some(ask.selected))
    && exists ids :: Discloses(ask, view, ids) && AreNodes(b.closure, view.nodes, ids) && forall id | id in ids :: id in allowed
  }

  /** All that a body holds. */
  ghost predicate HoldsExactly(fields: seq<Text>, ask: Ask, view: View, allowed: set<Text>, b: Body) {
    && HoldsClosure(ask, view, allowed, b) && HoldsOfView(ask, view, allowed, b)
    && HoldsMissing(fields, view, b) && HoldsOmissions(ask, view, allowed, b)
  }

  // ---- The body that is projected and cut -------------------------------------------------------

  lemma {:induction false} NextIsFirst<T(!new)>(items: seq<T>, wanted: T -> bool) returns (k: int)
    ensures Next(items, wanted).Some? ==> IsFirst(items, k, wanted) && items[k] == Next(items, wanted).value
    ensures Next(items, wanted).None? ==> forall j :: !IsFirst(items, j, wanted)
  {
    k := 0;
    if items != [] && !wanted(items[0]) {
      var j := NextIsFirst(items[1..], wanted);
      k := j + 1;
    }
  }

  lemma FirstIsUnique<T(!new)>(items: seq<T>, j: int, k: int, wanted: T -> bool)
    requires IsFirst(items, j, wanted) && IsFirst(items, k, wanted)
    ensures j == k
  {
  }

  lemma NonePicked<T(!new)>(items: seq<T>, wanted: T -> bool)
    requires forall x | x in items :: !wanted(x)
    ensures IsPick([], items, wanted)
  {
    assert ArePlaces([], items, wanted) && [] == At(items, []);
  }

  /** Two passes over a list pick what both want. */
  lemma TwicePicked<T(!new)>(items: seq<T>, p: T -> bool, q: T -> bool, wanted: T -> bool)
    requires forall x | x in items :: wanted(x) <==> p(x) && q(x)
    ensures IsPick(Where(Where(items, p), q), items, wanted)
  {
    WhereTwice(items, p, q, wanted);
    PickIs(items, wanted, wanted);
  }

  lemma {:induction false} NodeOfIsLast(nodes: seq<Node>, id: Text)
    requires NodeOf(nodes, id).Some?
    ensures IsLastNode(nodes, NodeOf(nodes, id).value)
  {
    var n := |nodes| - 1;
    if nodes[n].id == id {
      assert nodes[n] == NodeOf(nodes, id).value;
    } else {
      NodeOfIsLast(nodes[..n], id);
      var node := NodeOf(nodes, id).value;
      var p :| 0 <= p < n && nodes[..n][p] == node && forall q | p < q < n :: nodes[..n][q].id != node.id;
      assert nodes[p] == node;
      forall q | p < q < |nodes| ensures nodes[q].id != node.id {
        if q < n { assert nodes[q] == nodes[..n][q]; }
      }
    }
  }

  lemma DisclosedIs(ask: Ask, view: View)
    ensures Disclosed(ask, view).Some? ==> Discloses(ask, view, Disclosed(ask, view).value)
    ensures Disclosed(ask, view).None? ==> forall ids :: !Discloses(ask, view, ids)
  {
    if !IsWhole(ask) {
      var k := NextIsFirst(view.closures, (c: Closure) => c.selection == ask.selected);
      if Next(view.closures, (c: Closure) => c.selection == ask.selected).Some? { assert IsMandatory(view, ask.selected, k); }
      if ask.Expand? {
        var j := NextIsFirst(view.targets, (t: ExpansionTarget) => t.target == ask.handle.target && t.selection == ask.selected);
        if TargetOf(view, ask.handle.target, ask.selected).Some? { assert IsTarget(view, ask.handle.target, ask.selected, j); }
      }
    }
  }

  lemma ClosureHolds(fields: seq<Text>, ask: Ask, view: View, allowed: set<Text>)
    requires Project(fields, ask, view).Some? && Scoped(Project(fields, ask, view).value, allowed).Some?
    ensures HoldsClosure(ask, view, allowed, Scoped(Project(fields, ask, view).value, allowed).value)
  {
    hide Where, IsDeclaration, IsClaim, HasClaim, Omissions, Participates, KeptRelationship, Disclosed, Discloses, IsLastNode;
    DisclosedIs(ask, view);
    var ids, closure := Disclosed(ask, view).value, Project(fields, ask, view).value.closure;
    forall k | 0 <= k < |ids| ensures IsLastNode(view.nodes, closure[k]) && ids[k] in allowed {
      assert ids[k] in ids && closure[k] in closure;
      NodeOfIsLast(view.nodes, ids[k]);
    }
  }

  /** Where the parts of a body come from. */
  ghost predicate Parts(fields: seq<Text>, ask: Ask, view: View, allowed: set<Text>, b: Body)
    requires Project(fields, ask, view).Some?
  {
    var p := Project(fields, ask, view).value;
    && b.closure == p.closure && b.missing == p.missing
    && b.declarations == Where(p.declarations, (n: Node) => n.id in allowed)
    && b.catalog == Where(p.catalog, (e: Entry) => e.nodeRef in allowed)
    && b.claims == Where(p.claims, (n: Node) => n.id in allowed)
    && b.relationships == Where(p.relationships, KeptRelationship(p.closure, allowed))
    && b.references == Where(p.references, (r: Reference) => r.source in allowed && r.target in allowed)
    && b.omissions == Where(p.omissions, (o: Omission) => o.target in allowed)
    && (forall n | n in b.closure :: n.id in allowed)
    && (b.confirmation == if HasClaim(b.claims) then ClaimedUnverified else NotEvaluated)
  }

  lemma ScopedParts(fields: seq<Text>, ask: Ask, view: View, allowed: set<Text>)
    requires Project(fields, ask, view).Some? && Scoped(Project(fields, ask, view).value, allowed).Some?
    ensures Parts(fields, ask, view, allowed, Scoped(Project(fields, ask, view).value, allowed).value)
  {
    hide Where, Project, KeptRelationship;
    ProjectedReportsClaims(fields, ask, view);
    ScopedIsInScope(Project(fields, ask, view).value, allowed);
  }

  lemma DeclarationsHold(fields: seq<Text>, ask: Ask, view: View, allowed: set<Text>, b: Body)
    requires Project(fields, ask, view).Some? && Parts(fields, ask, view, allowed, b)
    ensures IsPick(b.declarations, view.nodes, (n: Node) => !ask.Catalog? && IsDeclared(n) && n.id in allowed)
    ensures IsPick(b.claims, view.nodes, (n: Node) => IsClaimed(n) && n.id in allowed)
  {
    hide Where, IsPick, Disclosed, Participates, KeptRelationship, Omissions;
    if ask.Catalog? {
      NothingWhere((n: Node) => n.id in allowed);
      NonePicked(view.nodes, (n: Node) => !ask.Catalog? && IsDeclared(n) && n.id in allowed);
    } else {
      TwicePicked(view.nodes, n => IsDeclaration(n), (n: Node) => n.id in allowed,
                  (n: Node) => !ask.Catalog? && IsDeclared(n) && n.id in allowed);
    }
    TwicePicked(view.nodes, n => IsClaim(n), (n: Node) => n.id in allowed, (n: Node) => IsClaimed(n) && n.id in allowed);
  }

  lemma NothingWhere<T(!new)>(keep: T -> bool)
    ensures Where([], keep) == []
  {
  }

  lemma CatalogHolds(fields: seq<Text>, ask: Ask, view: View, allowed: set<Text>, b: Body)
    requires Project(fields, ask, view).Some? && Parts(fields, ask, view, allowed, b)
    ensures IsPick(b.catalog, view.catalog,
                   (e: Entry) => IsAsked(ask, e) && e.nodeRef in allowed)
  {
    hide Where, IsPick, Disclosed, Participates, KeptRelationship, Omissions;
    if IsWhole(ask) {
      PickIs(view.catalog, (e: Entry) => e.nodeRef in allowed,
             (e: Entry) => IsAsked(ask, e) && e.nodeRef in allowed);
    } else {
      TwicePicked(view.catalog, (e: Entry) => e.judgmentId == ask.selected.judgmentId, (e: Entry) => e.nodeRef in allowed,
                  (e: Entry) => IsAsked(ask, e) && e.nodeRef in allowed);
    }
  }

  lemma LinksHold(fields: seq<Text>, ask: Ask, view: View, allowed: set<Text>, b: Body)
    requires Project(fields, ask, view).Some? && Parts(fields, ask, view, allowed, b)
    ensures IsPick(b.references, view.references,
              (r: Reference) => (exists n | n in b.closure :: n.id == r.source) && (exists n | n in b.closure :: n.id == r.target))
    ensures IsPick(b.relationships, view.relationships,
              (r: Relationship) => InClosure(b, Relation, r.id) && forall p | p in r.participants :: InClosure(b, Judgment, p))
  {
    hide Where, IsPick, Disclosed, Omissions;
    var closure := b.closure;
    var closed := set n | n in closure :: n.id;
    TwicePicked(view.references, (r: Reference) => r.source in closed && r.target in closed,
                (r: Reference) => r.source in allowed && r.target in allowed,
                (r: Reference) => (exists n | n in b.closure :: n.id == r.source) && (exists n | n in b.closure :: n.id == r.target));
    TwicePicked(view.relationships, (r: Relationship) => forall p | p in r.participants :: Participates(closure, p),
                KeptRelationship(closure, allowed),
                (r: Relationship) => InClosure(b, Relation, r.id) && forall p | p in r.participants :: InClosure(b, Judgment, p));
  }

  lemma MissingHolds(fields: seq<Text>, ask: Ask, view: View, allowed: set<Text>, b: Body)
    requires Project(fields, ask, view).Some? && Parts(fields, ask, view, allowed, b)
    ensures HoldsMissing(fields, view, b)
  {
    hide Where, IsPick, Disclosed, Omissions, Participates, KeptRelationship;
    var authored := Next(view.nodes, (n: Node) => n.role.Declaration? && n.owner.None?);
    var first := NextIsFirst(view.nodes, (n: Node) => n.role.Declaration? && n.owner.None?);
    var keep := (f: Text) => authored.None? || f !in authored.value.names;
    if authored.None? {
      WhereAll(fields, keep);
    } else {
      assert IsAuthored(view, first);
      forall k | IsAuthored(view, k) ensures IsPick(b.missing, fields, (f: Text) => f !in view.nodes[k].names) {
        FirstIsUnique(view.nodes, k, first, (n: Node) => n.role.Declaration? && n.owner.None?);
        PickIs(fields, keep, (f: Text) => f !in view.nodes[k].names);
      }
    }
  }

  // ---- What is left out ------------------------------------------------------------------------

  lemma {:induction false} WhereSum<T>(a: seq<T>, b: seq<T>, keep: T -> bool)
    ensures Where(a + b, keep) == Where(a, keep) + Where(b, keep)
  {
    if a == [] {
      assert a + b == b;
    } else {
      assert (a + b)[1..] == a[1..] + b;
      WhereSum(a[1..], b, keep);
    }
  }

  /** The omissions of these targets. */
  ghost function Omitted(targets: seq<Text>, field: Text, why: Why): (omissions: seq<Omission>)
    ensures |omissions| == |targets| && forall k | 0 <= k < |targets| :: omissions[k] == Omission(targets[k], field, why)
  {
    seq(|targets|, k requires 0 <= k < |targets| => Omission(targets[k], field, why))
  }

  ghost function Targets<T>(items: seq<T>, target: T -> Text): (targets: seq<Text>)
    ensures |targets| == |items| && forall k | 0 <= k < |items| :: targets[k] == target(items[k])
  {
    seq(|items|, k requires 0 <= k < |items| => target(items[k]))
  }

  lemma {:induction false} WhereOmitted<T(!new)>(items: seq<T>, target: T -> Text, field: Text, why: Why, allowed: set<Text>,
                                                within: T -> bool)
    requires forall x :: within(x) <==> target(x) in allowed
    ensures Where(Omitted(Targets(items, target), field, why), (o: Omission) => o.target in allowed)
         == Omitted(Targets(Where(items, within), target), field, why)
  {
    hide Where, Omitted, Targets;
    var inScope := (o: Omission) => o.target in allowed;
    if items == [] {
      NothingWhere(within);
      NothingWhere(inScope);
    } else {
      var all, rest := Omitted(Targets(items, target), field, why), Omitted(Targets(items[1..], target), field, why);
      assert all[1..] == rest;
      WhereOmitted(items[1..], target, field, why, allowed, within);
      WhereHead(items, within);
      WhereHead(all, inScope);
    }
  }

  lemma WhereHead<T>(items: seq<T>, keep: T -> bool)
    requires items != []
    ensures Where(items, keep) == (if keep(items[0]) then [items[0]] else []) + Where(items[1..], keep)
  {
  }

  lemma OmissionsAre(ask: Ask, view: View, declarations: seq<Node>)
    ensures Omissions(ask, view, declarations)
         == Omitted(Targets(Where(view.catalog, (e: Entry) => IsLeftOut(ask, e)), (e: Entry) => e.nodeRef), Ascii("judgment"),
                    if IsWhole(ask) then NotInMode else OutsideSelection)
            + if ask.Catalog? then Omitted(Targets(declarations, (n: Node) => n.id), Ascii("declaration"), NotInMode) else []
  {
    FieldNames();
    hide Where, Ascii;
    SameWhere(view.catalog, (e: Entry) => IsWhole(ask) || e.judgmentId != ask.selected.judgmentId, (e: Entry) => IsLeftOut(ask, e));
  }

  lemma FieldNames()
    ensures JUDGMENT == Ascii("judgment") && DECLARATION == Ascii("declaration")
  {
  }

  lemma {:induction false} SameWhere<T>(items: seq<T>, p: T -> bool, q: T -> bool)
    requires forall x | x in items :: p(x) <==> q(x)
    ensures Where(items, p) == Where(items, q)
  {
    if items != [] {
      assert items == [items[0]] + items[1..];
      SameWhere(items[1..], p, q);
    }
  }

  ghost function LeftEntries(ask: Ask, view: View, allowed: set<Text>): seq<Entry> {
    Where(Where(view.catalog, (e: Entry) => IsLeftOut(ask, e)), (e: Entry) => e.nodeRef in allowed)
  }

  ghost function LeftDeclarations(ask: Ask, view: View, allowed: set<Text>): seq<Node> {
    if ask.Catalog? then Where(Where(view.nodes, (n: Node) => IsDeclaration(n)), (n: Node) => n.id in allowed) else []
  }

  lemma LeftArePicked(ask: Ask, view: View, allowed: set<Text>)
    ensures IsPick(LeftEntries(ask, view, allowed), view.catalog, (e: Entry) => IsLeftOut(ask, e) && e.nodeRef in allowed)
    ensures IsPick(LeftDeclarations(ask, view, allowed), view.nodes,
                   (n: Node) => ask.Catalog? && IsDeclared(n) && n.id in allowed)
  {
    hide Where, IsPick, IsLeftOut;
    TwicePicked(view.catalog, (e: Entry) => IsLeftOut(ask, e), (e: Entry) => e.nodeRef in allowed,
                (e: Entry) => IsLeftOut(ask, e) && e.nodeRef in allowed);
    if ask.Catalog? {
      TwicePicked(view.nodes, (n: Node) => IsDeclaration(n), (n: Node) => n.id in allowed,
                  (n: Node) => ask.Catalog? && IsDeclared(n) && n.id in allowed);
    } else {
      NonePicked(view.nodes, (n: Node) => ask.Catalog? && IsDeclared(n) && n.id in allowed);
    }
  }

  /** What a scope leaves of the omissions. */
  lemma OmissionsWithin(ask: Ask, view: View, allowed: set<Text>)
    ensures AreOmissions(ask, Where(Omissions(ask, view, Where(view.nodes, (n: Node) => IsDeclaration(n))),
                                    (o: Omission) => o.target in allowed),
                         LeftEntries(ask, view, allowed), LeftDeclarations(ask, view, allowed))
  {
    hide Where, Omissions, Omitted, Targets, Ascii, IsLeftOut, AreOmissions;
    var declared := Where(view.nodes, (n: Node) => IsDeclaration(n));
    var left := Where(view.catalog, (e: Entry) => IsLeftOut(ask, e));
    var why := if IsWhole(ask) then NotInMode else OutsideSelection;
    OmissionsAre(ask, view, declared);
    WhereOmitted(left, (e: Entry) => e.nodeRef, Ascii("judgment"), why, allowed, (e: Entry) => e.nodeRef in allowed);
    WhereOmitted(declared, (n: Node) => n.id, Ascii("declaration"), NotInMode, allowed, (n: Node) => n.id in allowed);
    var first := Omitted(Targets(left, (e: Entry) => e.nodeRef), Ascii("judgment"), why);
    var second := if ask.Catalog? then Omitted(Targets(declared, (n: Node) => n.id), Ascii("declaration"), NotInMode) else [];
    WhereSum(first, second, (o: Omission) => o.target in allowed);
    NothingWhere((o: Omission) => o.target in allowed);
    OmittedAre(ask, LeftEntries(ask, view, allowed), LeftDeclarations(ask, view, allowed));
  }

  lemma OmittedAre(ask: Ask, entries: seq<Entry>, declarations: seq<Node>)
    requires ask.Catalog? || declarations == []
    ensures AreOmissions(ask, Omitted(Targets(entries, (e: Entry) => e.nodeRef), Ascii("judgment"),
                                      if IsWhole(ask) then NotInMode else OutsideSelection)
                              + (if ask.Catalog? then Omitted(Targets(declarations, (n: Node) => n.id), Ascii("declaration"), NotInMode)
                                 else []),
                         entries, declarations)
  {
    hide Ascii, Omitted, Targets;
    var first := Omitted(Targets(entries, (e: Entry) => e.nodeRef), Ascii("judgment"),
                         if IsWhole(ask) then NotInMode else OutsideSelection);
    var second := Omitted(Targets(declarations, (n: Node) => n.id), Ascii("declaration"), NotInMode);
    OmittedAt(entries, (e: Entry) => e.nodeRef, Ascii("judgment"), if IsWhole(ask) then NotInMode else OutsideSelection);
    OmittedAt(declarations, (n: Node) => n.id, Ascii("declaration"), NotInMode);
    assert forall k | 0 <= k < |entries| :: (first + second)[k] == first[k];
    assert forall k | 0 <= k < |declarations| :: (first + second)[|entries| + k] == second[k];
    assert first + [] == first;
  }

  lemma OmittedAt<T>(items: seq<T>, id: T -> Text, field: Text, why: Why)
    ensures |Omitted(Targets(items, id), field, why)| == |items|
    ensures forall k | 0 <= k < |items| :: Omitted(Targets(items, id), field, why)[k] == Omission(id(items[k]), field, why)
  {
  }

  lemma OmissionsHold(fields: seq<Text>, ask: Ask, view: View, allowed: set<Text>, b: Body)
    requires Project(fields, ask, view).Some? && Parts(fields, ask, view, allowed, b)
    ensures HoldsOmissions(ask, view, allowed, b)
  {
    hide Where, IsPick, Disclosed, Participates, KeptRelationship, Omissions, HoldsOmissions, AreOmissions, LeftEntries, LeftDeclarations;
    OmissionsWithin(ask, view, allowed);
    LeftArePicked(ask, view, allowed);
    ShowOmissions(ask, view, allowed, b, LeftEntries(ask, view, allowed), LeftDeclarations(ask, view, allowed));
  }

  lemma ShowOmissions(ask: Ask, view: View, allowed: set<Text>, b: Body, entries: seq<Entry>, declarations: seq<Node>)
    requires IsPick(entries, view.catalog, (e: Entry) => IsLeftOut(ask, e) && e.nodeRef in allowed)
    requires IsPick(declarations, view.nodes, (n: Node) => ask.Catalog? && IsDeclared(n) && n.id in allowed)
    requires AreOmissions(ask, b.omissions, entries, declarations)
    ensures HoldsOmissions(ask, view, allowed, b)
  {
  }

  // ---- Ready bodies -------------------------------------------------------------------------------

  /** What a projection and a scope leave is exactly what the snapshot has for this request in this scope. */
  lemma ScopedHolds(fields: seq<Text>, ask: Ask, view: View, allowed: set<Text>)
    requires Project(fields, ask, view).Some? && Scoped(Project(fields, ask, view).value, allowed).Some?
    ensures HoldsExactly(fields, ask, view, allowed, Scoped(Project(fields, ask, view).value, allowed).value)
  {
    hide Project, Scoped, HoldsClosure, HoldsMissing, HoldsOmissions, IsPick, Where, Parts;
    var b := Scoped(Project(fields, ask, view).value, allowed).value;
    ScopedParts(fields, ask, view, allowed);
    ClosureHolds(fields, ask, view, allowed);
    DeclarationsHold(fields, ask, view, allowed, b);
    CatalogHolds(fields, ask, view, allowed, b);
    LinksHold(fields, ask, view, allowed, b);
    MissingHolds(fields, ask, view, allowed, b);
    OmissionsHold(fields, ask, view, allowed, b);
    ConfirmationIs(fields, ask, view, allowed, b);
  }

  lemma ConfirmationIs(fields: seq<Text>, ask: Ask, view: View, allowed: set<Text>, b: Body)
    requires Project(fields, ask, view).Some? && Parts(fields, ask, view, allowed, b)
    ensures b.confirmation == if exists n | n in b.claims :: n.role == Provenance || n.provided then ClaimedUnverified else NotEvaluated
  {
    hide Project, Where;
  }

  /**
   In every state of every run, a ready body holds exactly what its snapshot has for the
   request within both observed scopes.
   */
  lemma ReadyBodyHoldsExactly(cfg: Config, ws: seq<World>, steps: seq<Step>, k: nat, c: nat)
    requires IsRun(cfg, ws, steps) && k < |ws| && c in ws[k].calls && ReadyOf(ws[k].calls[c]).Some?
    ensures var r := ReadyOf(ws[k].calls[c]).value;
            HoldsExactly(cfg.fields, r.q.ask, r.view, AsSet(r.first.scope) * AsSet(r.second.scope), r.body)
  {
    hide IsRun, Project, Scoped, Admissible, Usable, MintedFor, HoldsExactly;
    ReadyIsWellMade(cfg, ws, steps, k, c);
    var r := ReadyOf(ws[k].calls[c]).value;
    ScopedHolds(cfg.fields, r.q.ask, r.view, AsSet(r.first.scope) * AsSet(r.second.scope));
  }
}
