/**
 The projection of a snapshot to the body of a Read, and the scope that a Host's
 decision leaves of it. Two scopes in a row leave what their intersection leaves.
 */
module ReadProjection {
  import opened Bytes
  import opened JsonValues
  import opened ReadBudget
  import opened ReadAdmission

  datatype Role =
    | AssetDeclaration | Declaration | ScopeRole | Cohesion | Attribution | Provenance | Judgment | Relation
    | OtherRole(role: Text)

  /** A node; of its value, the identity, whether it is provided, and the names of its members are kept. */
  datatype Node = Node(id: Text, role: Role, owner: Option<Text>, valueId: Text, provided: bool, names: set<Text>)

  datatype Entry = Entry(judgmentId: Text, title: Text, nodeRef: Text)

  datatype Reference = Reference(id: Text, source: Text, target: Text)

  datatype Relationship = Relationship(id: Text, participants: seq<Text>)

  datatype Closure = Closure(selection: Selection, nodeIds: seq<Text>)

  datatype ExpansionTarget = ExpansionTarget(selection: Selection, target: Text, scope: seq<Text>)

  datatype View = View(
    snapshotId: Text, tuple: map<Key, Text>, assetId: Text, assetVersion: Text, a: Text, c: Text,
    nodes: seq<Node>, catalog: seq<Entry>, references: seq<Reference>, relationships: seq<Relationship>,
    closures: seq<Closure>, targets: seq<ExpansionTarget>)

  datatype Why = OutsideSelection | NotInMode

  datatype Omission = Omission(target: Text, field: Text, why: Why)

  datatype Confirmation = NotEvaluated | ClaimedUnverified

  datatype Body = Body(
    declarations: seq<Node>, catalog: seq<Entry>, selected: Option<Selection>, closure: seq<Node>,
    references: seq<Reference>, relationships: seq<Relationship>, missing: seq<Text>,
    claims: seq<Node>, confirmation: Confirmation, omissions: seq<Omission>)

  // ---- Lists --------------------------------------------------------------------------

  function Where<T>(items: seq<T>, keep: T -> bool): (kept: seq<T>)
    ensures forall x | x in items :: keep(x) ==> x in kept
    ensures forall x | x in kept :: x in items && keep(x)
  {
    if items == [] then []
    else
      var rest := Where(items[1..], keep);
      assert items == [items[0]] + items[1..];
      if keep(items[0]) then [items[0]] + rest else rest
  }

  lemma {:induction false} WhereTwice<T>(items: seq<T>, p: T -> bool, q: T -> bool, both: T -> bool)
    requires forall x | x in items :: both(x) <==> p(x) && q(x)
    ensures Where(Where(items, p), q) == Where(items, both)
  {
    if items != [] {
      var kept := Where(items, p);
      WhereTwice(items[1..], p, q, both);
      if p(items[0]) { assert kept[1..] == Where(items[1..], p); }
    }
  }

  /** The first item that is wanted. */
  function Next<T>(items: seq<T>, wanted: T -> bool): (found: Option<T>)
    ensures found.Some? ==> found.value in items && wanted(found.value)
    ensures found.None? ==> forall x | x in items :: !wanted(x)
  {
    if items == [] then None
    else
      assert items == [items[0]] + items[1..];
      if wanted(items[0]) then Some(items[0]) else Next(items[1..], wanted)
  }

  /** The last node of this identity, which is the one that a dictionary keeps. */
  function NodeOf(nodes: seq<Node>, id: Text): (node: Option<Node>)
    ensures node.Some? ==> node.value in nodes && node.value.id == id
    ensures node.None? ==> forall n | n in nodes :: n.id != id
  {
    if nodes == [] then None
    else
      assert nodes == nodes[..|nodes| - 1] + [nodes[|nodes| - 1]];
      if nodes[|nodes| - 1].id == id then Some(nodes[|nodes| - 1]) else NodeOf(nodes[..|nodes| - 1], id)
  }

  // ---- What a request may ask of a snapshot ------------------------------------------------

  function ProjectionError(v: Versions, q: Request, view: View): Option<Code> {
    if view.tuple != v.value then Some(Code.MixedVersionTuple)
    else if q.Selected().None? then None
    else
      var s := q.Selected().value;
      var found := Where(view.catalog, (e: Entry) => e.judgmentId == s.judgmentId);
      if s.assetId != view.assetId then Some(AssetMismatch)
      else if s.assetVersion != view.assetVersion then Some(AssetVersionMismatch)
      else if |found| == 0 then Some(SelectionNotFound)
      else if |found| != 1 then Some(SelectionAmbiguous)
      else None
  }

  function TargetOf(view: View, target: Text, s: Selection): (found: Option<ExpansionTarget>)
    ensures found.Some? ==> found.value in view.targets && found.value.target == target && found.value.selection == s
  {
    Next(view.targets, (t: ExpansionTarget) => t.target == target && t.selection == s)
  }

  function AsSet<T>(items: seq<T>): set<T> { set x | x in items }

  /** What is wrong with the handle of a request, for this snapshot. */
  function HandleError(v: Versions, q: Request, view: View): Option<Code>
    requires Core in v.value && Ir in v.value && Read in v.value
  {
    if !q.ask.Expand? then None
    else
      var h := q.ask.handle;
      var target := TargetOf(view, h.target, q.ask.selected);
      if h.coreVersion != v.value[Core] || h.irVersion != v.value[Ir] || h.readVersion != v.value[Read]
      then Some(HandleVersionMismatch)
      else if h.snapshotId != view.snapshotId || h.a != view.a || h.c != view.c then Some(HandleStale)
      else if h.assetId != view.assetId || h.assetVersion != view.assetVersion || h.selection != q.ask.selected
      then Some(HandleAssetMismatch)
      else if target.None? || AsSet(target.value.scope) != AsSet(h.scope) then Some(HandleScopeMismatch)
      else None
  }

  // ---- The body ---------------------------------------------------------------------------

  predicate IsDeclaration(n: Node) {
    && n.owner.None?
    && (n.role.AssetDeclaration? || n.role.Declaration? || n.role.ScopeRole? || n.role.Cohesion? || n.role.Attribution?)
  }

  predicate IsClaim(n: Node) { n.role.Provenance? || n.role.Attribution? }

  predicate HasClaim(claims: seq<Node>) { exists n | n in claims :: n.role.Provenance? || n.provided }

  const JUDGMENT: Text := [0x6a, 0x75, 0x64, 0x67, 0x6d, 0x65, 0x6e, 0x74]
  const DECLARATION: Text := [0x64, 0x65, 0x63, 0x6c, 0x61, 0x72, 0x61, 0x74, 0x69, 0x6f, 0x6e]

  /** The ids that a selection, or an expansion, discloses. */
  function Disclosed(ask: Ask, view: View): Option<seq<Text>> {
    if ask.WholeAsset? || ask.Catalog? then Some([])
    else
      var mandatory := Next(view.closures, (c: Closure) => c.selection == ask.selected);
      if mandatory.None? then None
      else if ask.Exact? then Some(mandatory.value.nodeIds)
      else
        var target := TargetOf(view, ask.handle.target, ask.selected);
        if target.None? then None else Some(target.value.scope)
  }

  function NodesOf(nodes: seq<Node>, ids: seq<Text>): (found: seq<Node>)
    requires forall id | id in ids :: NodeOf(nodes, id).Some?
    ensures |found| == |ids| && forall k | 0 <= k < |ids| :: found[k].id == ids[k] && found[k] in nodes
  {
    seq(|ids|, k requires 0 <= k < |ids| => assert ids[k] in ids; NodeOf(nodes, ids[k]).value)
  }

  predicate Participates(closure: seq<Node>, judgmentRef: Text) {
    exists n | n in closure :: n.role.Judgment? && n.valueId == judgmentRef
  }

  function Omissions(ask: Ask, view: View, declarations: seq<Node>): seq<Omission> {
    var whole := ask.WholeAsset? || ask.Catalog?;
    var left := Where(view.catalog, (e: Entry) => whole || e.judgmentId != ask.selected.judgmentId);
    seq(|left|, k requires 0 <= k < |left| =>
      Omission(left[k].nodeRef, JUDGMENT, if whole then NotInMode else OutsideSelection))
    + if !ask.Catalog? then []
      else seq(|declarations|, k requires 0 <= k < |declarations| => Omission(declarations[k].id, DECLARATION, NotInMode))
  }

  function Project(fields: seq<Text>, ask: Ask, view: View): Option<Body> {
    var declarations := Where(view.nodes, n => IsDeclaration(n));
    var ids := Disclosed(ask, view);
    if ids.None? || exists id | id in ids.value :: NodeOf(view.nodes, id).None? then None
    else
      var closure := NodesOf(view.nodes, ids.value);
      var closed := set n | n in closure :: n.id;
      var whole := ask.WholeAsset? || ask.Catalog?;
      var authored := Next(view.nodes, (n: Node) => n.role.Declaration? && n.owner.None?);
      var claims := Where(view.nodes, n => IsClaim(n));
      Some(Body(
        if ask.Catalog? then [] else declarations,
        if whole then view.catalog else Where(view.catalog, (e: Entry) => e.judgmentId == ask.selected.judgmentId),
        if whole then None else Some(ask.selected),
        closure,
        Where(view.references, (r: Reference) => r.source in closed && r.target in closed),
        Where(view.relationships, (r: Relationship) => forall p | p in r.participants :: Participates(closure, p)),
        Where(fields, f => authored.None? || f !in authored.value.names),
        claims,
        if HasClaim(claims) then ClaimedUnverified else NotEvaluated,
        Omissions(ask, view, declarations)))
  }

  // ---- The scope of a decision -----------------------------------------------------------------

  predicate KeepsRelationship(closure: seq<Node>, r: Relationship, allowed: set<Text>) {
    exists n | n in closure :: n.role.Relation? && n.valueId == r.id && n.id in allowed
  }

  function KeptRelationship(closure: seq<Node>, allowed: set<Text>): Relationship -> bool {
    r => KeepsRelationship(closure, r, allowed)
  }

  /** What a scope leaves of a body; nothing when it does not cover the closure. */
  function Scoped(b: Body, allowed: set<Text>): Option<Body> {
    if exists n | n in b.closure :: n.id !in allowed then None
    else
      var claims := Where(b.claims, (n: Node) => n.id in allowed);
      Some(b.(
        declarations := Where(b.declarations, (n: Node) => n.id in allowed),
        catalog := Where(b.catalog, (e: Entry) => e.nodeRef in allowed),
        claims := claims,
        confirmation := if HasClaim(claims) then b.confirmation else NotEvaluated,
        relationships := Where(b.relationships, KeptRelationship(b.closure, allowed)),
        references := Where(b.references, (r: Reference) => r.source in allowed && r.target in allowed),
        omissions := Where(b.omissions, (o: Omission) => o.target in allowed)))
  }

  class Projection {
    var declarations: seq<Node>
    var catalog: seq<Entry>
    const selected: Option<Selection>
    const closure: seq<Node>
    var references: seq<Reference>
    var relationships: seq<Relationship>
    const missing: seq<Text>
    var claims: seq<Node>
    var confirmation: Confirmation
    var omissions: seq<Omission>

    function Contents(): Body
      reads this
    {
      Body(declarations, catalog, selected, closure, references, relationships, missing, claims, confirmation, omissions)
    }

    constructor (b: Body)
      ensures Contents() == b
    {
      declarations, catalog, selected, closure := b.declarations, b.catalog, b.selected, b.closure;
      references, relationships, missing := b.references, b.relationships, b.missing;
      claims, confirmation, omissions := b.claims, b.confirmation, b.omissions;
    }

    method Scope(scope: seq<Text>) returns (covered: bool)
      modifies this
      ensures covered == Scoped(old(Contents()), AsSet(scope)).Some?
      ensures Contents() == if covered then Scoped(old(Contents()), AsSet(scope)).value else old(Contents())
    {
      var allowed := set id | id in scope;
      if exists n | n in closure :: n.id !in allowed { return false; }
      declarations := Where(declarations, (n: Node) => n.id in allowed);
      catalog := Where(catalog, (e: Entry) => e.nodeRef in allowed);
      claims := Where(claims, (n: Node) => n.id in allowed);
      if !HasClaim(claims) { confirmation := NotEvaluated; }
      relationships := Where(relationships, KeptRelationship(closure, allowed));
      references := Where(references, (r: Reference) => r.source in allowed && r.target in allowed);
      omissions := Where(omissions, (o: Omission) => o.target in allowed);
      return true;
    }
  }

  /** Everything that a body refers to is in the scope. */
  ghost predicate InScope(b: Body, allowed: set<Text>) {
    && (forall n | n in b.closure :: n.id in allowed)
    && (forall n | n in b.declarations :: n.id in allowed)
    && (forall e | e in b.catalog :: e.nodeRef in allowed)
    && (forall n | n in b.claims :: n.id in allowed)
    && (forall r | r in b.references :: r.source in allowed && r.target in allowed)
    && (forall r | r in b.relationships :: KeepsRelationship(b.closure, r, allowed))
    && (forall o | o in b.omissions :: o.target in allowed)
  }

  /** A claim is reported exactly when one is disclosed. */
  ghost predicate ReportsClaims(b: Body) { b.confirmation.ClaimedUnverified? <==> HasClaim(b.claims) }

  lemma ProjectedReportsClaims(fields: seq<Text>, ask: Ask, view: View)
    requires Project(fields, ask, view).Some?
    ensures ReportsClaims(Project(fields, ask, view).value)
  {
  }

  /** One scope leaves what is in it and nothing else, and takes nothing away that is in it. */
  lemma ScopedIsInScope(b: Body, allowed: set<Text>)
    requires Scoped(b, allowed).Some?
    ensures InScope(Scoped(b, allowed).value, allowed)
    ensures InScope(b, allowed) && ReportsClaims(b) ==> Scoped(b, allowed) == Some(b)
    ensures ReportsClaims(b) ==> ReportsClaims(Scoped(b, allowed).value)
  {
    if InScope(b, allowed) {
      WhereAll(b.declarations, (n: Node) => n.id in allowed);
      WhereAll(b.catalog, (e: Entry) => e.nodeRef in allowed);
      WhereAll(b.claims, (n: Node) => n.id in allowed);
      WhereAll(b.relationships, KeptRelationship(b.closure, allowed));
      WhereAll(b.references, (r: Reference) => r.source in allowed && r.target in allowed);
      WhereAll(b.omissions, (o: Omission) => o.target in allowed);
    }
  }

  lemma {:induction false} WhereAll<T>(items: seq<T>, keep: T -> bool)
    requires forall x | x in items :: keep(x)
    ensures Where(items, keep) == items
  {
    if items != [] {
      assert items == [items[0]] + items[1..];
      WhereAll(items[1..], keep);
    }
  }

  /** Two scopes one after the other are one scope: what they have in common. */
  lemma TwoScopesAreOne(b: Body, s: set<Text>, t: set<Text>)
    ensures (Scoped(b, s).Some? && Scoped(Scoped(b, s).value, t).Some?) <==> Scoped(b, s * t).Some?
    ensures Scoped(b, s * t).Some? ==> Scoped(Scoped(b, s).value, t) == Scoped(b, s * t)
  {
    var both := s * t;
    if Scoped(b, both).Some? {
      assert Scoped(b, s).Some?;
      WhereTwice(b.declarations, (n: Node) => n.id in s, (n: Node) => n.id in t, (n: Node) => n.id in both);
      WhereTwice(b.catalog, (e: Entry) => e.nodeRef in s, (e: Entry) => e.nodeRef in t, (e: Entry) => e.nodeRef in both);
      WhereTwice(b.claims, (n: Node) => n.id in s, (n: Node) => n.id in t, (n: Node) => n.id in both);
      WhereTwice(b.relationships, KeptRelationship(b.closure, s), KeptRelationship(b.closure, t), KeptRelationship(b.closure, both));
      WhereTwice(b.references, (r: Reference) => r.source in s && r.target in s, (r: Reference) => r.source in t && r.target in t,
                 (r: Reference) => r.source in both && r.target in both);
      WhereTwice(b.omissions, (o: Omission) => o.target in s, (o: Omission) => o.target in t, (o: Omission) => o.target in both);
    }
  }
}
