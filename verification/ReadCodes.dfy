/** Which code a read is refused with: each one exactly when its reason is the first that applies. */
module ReadCodes {
  import opened Bytes
  import opened JsonValues
  import opened ReadValues
  import opened ReadBudget
  import opened ReadAdmission
  import opened ReadProjection
  import opened ReadHost
  import opened ReadCalls
  import opened ReadRuns
  import opened ReadBodies
  import opened ReadAnswers

  // ---- Snapshots and selections ---------------------------------------------------------------

  ghost predicate IsListed(view: View, judgmentId: Text) { exists e | e in view.catalog :: e.judgmentId == judgmentId }

  ghost predicate IsListedTwice(view: View, judgmentId: Text) {
    exists j, k :: 0 <= j < k < |view.catalog| && view.catalog[j].judgmentId == view.catalog[k].judgmentId == judgmentId
  }

  /** The selection is of this asset and version. */
  ghost predicate IsOfAsset(s: Selection, view: View) { s.assetId == view.assetId && s.assetVersion == view.assetVersion }

  lemma CountOfListed(catalog: seq<Entry>, judgmentId: Text, view: View)
    requires catalog == view.catalog
    ensures var n := |Where(catalog, (e: Entry) => e.judgmentId == judgmentId)|;
            (n == 0 <==> !IsListed(view, judgmentId)) && (n > 1 <==> IsListedTwice(view, judgmentId))
  {
    hide Where, At, ArePlaces, IsListed, IsListedTwice;
    var wanted := (e: Entry) => e.judgmentId == judgmentId;
    var places := WherePicks(catalog, wanted);
    assert |Where(catalog, wanted)| == |places| by { PlacesCount(catalog, wanted, places); }
    ListedAt(catalog, judgmentId, view, places);
  }

  lemma PlacesCount(catalog: seq<Entry>, wanted: Entry -> bool, places: seq<nat>)
    requires ArePlaces(places, catalog, wanted)
    ensures |At(catalog, places)| == |places|
  {
  }

  lemma ListedAt(catalog: seq<Entry>, judgmentId: Text, view: View, places: seq<nat>)
    requires catalog == view.catalog && ArePlaces(places, catalog, (e: Entry) => e.judgmentId == judgmentId)
    ensures |places| == 0 <==> !IsListed(view, judgmentId)
    ensures |places| > 1 <==> IsListedTwice(view, judgmentId)
  {
    if |places| > 0 { assert places[0] in places; }
    if |places| > 1 {
      assert places[0] in places && places[1] in places && places[0] < places[1];
    }
    if j: nat, k: nat :| j < k < |catalog| && catalog[j].judgmentId == catalog[k].judgmentId == judgmentId {
      assert j in places && k in places;
    }
    if k: nat :| k < |catalog| && catalog[k].judgmentId == judgmentId {
      assert k in places;
    }
  }

  lemma ProjectionCodes(v: Versions, q: Request, view: View)
    ensures var code := ProjectionError(v, q, view);
            && (code == Some(Code.MixedVersionTuple) <==> view.tuple != v.value)
            && (q.ask.WholeAsset? || q.ask.Catalog? ==> code.None? || code == Some(Code.MixedVersionTuple))
            && (q.ask.Exact? || q.ask.Expand? ==>
                 var s := q.ask.selected;
                 && (code == Some(AssetMismatch) <==> view.tuple == v.value && s.assetId != view.assetId)
                 && (code == Some(AssetVersionMismatch) <==>
                      view.tuple == v.value && s.assetId == view.assetId && s.assetVersion != view.assetVersion)
                 && (code == Some(SelectionNotFound) <==>
                      view.tuple == v.value && IsOfAsset(s, view) && !IsListed(view, s.judgmentId))
                 && (code == Some(SelectionAmbiguous) <==>
                      view.tuple == v.value && IsOfAsset(s, view) && IsListedTwice(view, s.judgmentId)))
  {
    hide Where, IsListed, IsListedTwice;
    if q.Selected().Some? { CountOfListed(view.catalog, q.ask.selected.judgmentId, view); }
  }

  // ---- Handles --------------------------------------------------------------------------------

  ghost predicate IsOfVersions(v: Versions, h: Handle)
    requires Core in v.value && Ir in v.value && Read in v.value
  {
    h.coreVersion == v.value[Core] && h.irVersion == v.value[Ir] && h.readVersion == v.value[Read]
  }

  ghost predicate IsOfSnapshot(h: Handle, view: View) { h.snapshotId == view.snapshotId && h.a == view.a && h.c == view.c }

  ghost predicate IsOfSelection(h: Handle, s: Selection, view: View) {
    h.assetId == view.assetId && h.assetVersion == view.assetVersion && h.selection == s
  }

  ghost predicate HasScope(h: Handle, s: Selection, view: View) {
    exists k :: IsTarget(view, h.target, s, k) && forall id :: id in view.targets[k].scope <==> id in h.scope
  }

  lemma HandleCodes(v: Versions, q: Request, view: View)
    requires Core in v.value && Ir in v.value && Read in v.value && q.ask.Expand?
    ensures var h, s, code := q.ask.handle, q.ask.selected, HandleError(v, q, view);
            && (code == Some(HandleVersionMismatch) <==> !IsOfVersions(v, h))
            && (code == Some(HandleStale) <==> IsOfVersions(v, h) && !IsOfSnapshot(h, view))
            && (code == Some(HandleAssetMismatch) <==> IsOfVersions(v, h) && IsOfSnapshot(h, view) && !IsOfSelection(h, s, view))
            && (code == Some(HandleScopeMismatch) <==>
                 IsOfVersions(v, h) && IsOfSnapshot(h, view) && IsOfSelection(h, s, view) && !HasScope(h, s, view))
  {
    var h := q.ask.handle;
    HandleExactly(v, map[h.handleId := h], q, view);
    hide TargetOf, IsTarget;
  }

  /** A call is refused before any observation: for its snapshot, its handle, or a Host that is not known. */
  lemma EarlyCodes(cfg: Config, s: Shared, q: Request, view: View, known: bool)
    requires cfg.Valid()
    ensures var code := EarlyError(cfg, s, q, view, known);
            var ours := q.ask.Expand? ==> known && InTable(s.handles, q.ask.handle);
            if ProjectionError(cfg.versions, q, view).Some? then code == ProjectionError(cfg.versions, q, view)
            else if !ours then code == Some(HandleUntrusted)
            else if HandleError(cfg.versions, q, view).Some? then code == HandleError(cfg.versions, q, view)
            else code == if known then None else Some(HostContextUntrusted)
  {
    hide ProjectionError, HandleError;
  }

  // ---- Observations -----------------------------------------------------------------------------

  /** The observation can be trusted, whatever it decides and whenever it was made. */
  ghost predicate IsTrusted(q: Request, view: View, v: Json) {
    && IsAbout(q, view, v)
    && (Says(v, Decision, Ascii("allow")) || Says(v, Decision, Ascii("deny")))
    && exists issued, expires ::
         Counts(v, IssuedAt, issued) && Counts(v, ExpiresAt, expires) && issued < expires <= issued + 60 * 60 * 1000
  }

  ghost predicate IsOfHost(h: Handle, v: Json) { Says(v, HostId, h.hostId) && Says(v, HostEpoch, h.hostEpoch) }

  /** The time is a number, not before the observation was issued, nor before the handle was. */
  ghost predicate IsInTime(q: Request, v: Json, issued: nat, now: nat) {
    Counts(v, CurrentMs, now) && issued <= now && (q.ask.Expand? ==> q.ask.handle.issuedAt <= now)
  }

  lemma ObservationCodes(q: Request, view: View, v: Json)
    ensures var c, code := ContextOf(v), ObservationError(q, view, v);
            var host := q.ask.Expand? ==> IsOfHost(q.ask.handle, v);
            var time := IsInTime(q, v, c.issuedAt, c.currentMs);
            var alive := q.ask.Expand? ==> c.currentMs < q.ask.handle.expiresAt;
            && (code == Some(HostContextUntrusted) <==> !IsTrusted(q, view, v))
            && (code == Some(HostEpochMismatch) <==> IsTrusted(q, view, v) && !host)
            && (code == Some(HostTimeInvalid) <==> IsTrusted(q, view, v) && host && !time)
            && (code == Some(HandleExpired) <==> IsTrusted(q, view, v) && host && time && !alive)
            && (code == Some(HostContextExpired) <==> IsTrusted(q, view, v) && host && time && alive && c.expiresAt <= c.currentMs)
  {
    hide Trusted, IsAbout, Identifier, ScopeOf, Ascii;
    TrustedExactly(q, view, v);
    if IsAbout(q, view, v) { NamesAreTexts(q, view, v); }
  }
}
