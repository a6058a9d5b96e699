/**
 What the annotator's loop promises, proved of its reference definition
 (`Reconcile`, `ReconcileAll`, `SweepNamespaces`, `Cycle`, `RunCycles`),
 which `Annotator.Loop` is proved to follow.
 */
module AnnotatorProperties {
  import opened Annotator

  // ---------------------------------------------------------------------
  // Views of a trace distribute over concatenation
  // ---------------------------------------------------------------------

  lemma {:induction false} SelectAppend<T>(a: seq<Event>, b: seq<Event>, pick: Event -> Option<T>)
    ensures Select(a + b, pick) == Select(a, pick) + Select(b, pick)
  {
    if a == [] {
      assert a + b == b;
    } else {
      assert (a + b)[0] == a[0];
      assert (a + b)[1..] == a[1..] + b;
      SelectAppend(a[1..], b, pick);
    }
  }

  /** Proof step: the values `pick` finds in a one-event trace. */
  lemma SelectOne<T>(e: Event, pick: Event -> Option<T>)
    ensures Select([e], pick) == match pick(e) case Some(x) => [x] case None => []
  {
    assert [e][1..] == [];
  }

  /** Proof step: the values `pick` finds in a trace of two or three events. */
  lemma SelectFew<T>(a: Event, b: Event, c: Event, pick: Event -> Option<T>)
    ensures Select([a, b], pick) == Select([a], pick) + Select([b], pick)
    ensures Select([a, b, c], pick) == Select([a], pick) + Select([b], pick) + Select([c], pick)
  {
    SelectAppend([a], [b], pick);
    SelectAppend([a, b], [c], pick);
    assert [a] + [b] == [a, b];
    assert [a, b] + [c] == [a, b, c];
  }

  // ---------------------------------------------------------------------
  // One release (lines 80-107)
  // ---------------------------------------------------------------------

  /** The live status the loop sees for `r`, when the Helm lookup succeeded. */
  function Live(r: ReleaseInput): string
    requires r.content.Ok?
  {
    LiveStatus(r.content.value)
  }

  /** The values `pick` finds in the events of one release, read off case by case. */
  lemma ReconcileSelect<T>(ns: string, r: ReleaseInput, releaseName: FluxHelmRelease -> string, pick: Event -> Option<T>)
    ensures var evs := Reconcile(ns, r, releaseName);
      (|evs| == 1 ==> Select(evs, pick) == Select([evs[0]], pick))
      && (|evs| == 2 ==> Select(evs, pick) == Select([evs[0]], pick) + Select([evs[1]], pick))
      && (|evs| == 3 ==> Select(evs, pick) == Select([evs[0]], pick) + Select([evs[1]], pick) + Select([evs[2]], pick))
  {
    ReconcileCases(ns, r, releaseName);
    var evs := Reconcile(ns, r, releaseName);
    if |evs| == 2 {
      SelectFew(evs[0], evs[1], evs[0], pick);
    } else if |evs| == 3 {
      SelectFew(evs[0], evs[1], evs[2], pick);
    }
  }

  /** What `Reconcile` issues and logs, read off its trace. */
  lemma ReconcileViews(ns: string, r: ReleaseInput, releaseName: FluxHelmRelease -> string)
    ensures Lookups(Reconcile(ns, r, releaseName)) == [releaseName(r.fhr)]
    ensures Patches(Reconcile(ns, r, releaseName))
         == if r.content.Ok? && Drifted(r.fhr, Live(r)) && r.marshal.Pass?
            then [StatusPatch(ns, r.fhr.name, Live(r))] else []
    ensures Logs(Reconcile(ns, r, releaseName))
         == if r.content.Err? then [LookupFailed(r.content.error)]
            else if !Drifted(r.fhr, Live(r)) then []
            else if r.marshal.Fail? then [PatchFailed(ns, r.fhr.name, r.marshal.error)]
            else if r.patch.Fail? then [PatchFailed(ns, r.fhr.name, r.patch.error)]
            else []
  {
    ReconcileLookups(ns, r, releaseName);
    ReconcilePatches(ns, r, releaseName);
    ReconcileLogs(ns, r, releaseName);
  }

  lemma ReconcileLookups(ns: string, r: ReleaseInput, releaseName: FluxHelmRelease -> string)
    ensures Lookups(Reconcile(ns, r, releaseName)) == [releaseName(r.fhr)]
  {
    ReconcileCases(ns, r, releaseName);
    ReconcileSelect(ns, r, releaseName, PickLookup);
    var evs := Reconcile(ns, r, releaseName);
    SelectOne(evs[0], PickLookup);
    if |evs| >= 2 { SelectOne(evs[1], PickLookup); }
    if |evs| == 3 { SelectOne(evs[2], PickLookup); }
  }

  lemma ReconcilePatches(ns: string, r: ReleaseInput, releaseName: FluxHelmRelease -> string)
    ensures Patches(Reconcile(ns, r, releaseName))
         == if r.content.Ok? && Drifted(r.fhr, Live(r)) && r.marshal.Pass?
            then [StatusPatch(ns, r.fhr.name, Live(r))] else []
  {
    ReconcileCases(ns, r, releaseName);
    ReconcileSelect(ns, r, releaseName, PickPatch);
    var evs := Reconcile(ns, r, releaseName);
    SelectOne(evs[0], PickPatch);
    if |evs| >= 2 { SelectOne(evs[1], PickPatch); }
    if |evs| == 3 { SelectOne(evs[2], PickPatch); }
  }

  lemma ReconcileLogs(ns: string, r: ReleaseInput, releaseName: FluxHelmRelease -> string)
    ensures Logs(Reconcile(ns, r, releaseName))
         == if r.content.Err? then [LookupFailed(r.content.error)]
            else if !Drifted(r.fhr, Live(r)) then []
            else if r.marshal.Fail? then [PatchFailed(ns, r.fhr.name, r.marshal.error)]
            else if r.patch.Fail? then [PatchFailed(ns, r.fhr.name, r.patch.error)]
            else []
  {
    ReconcileCases(ns, r, releaseName);
    ReconcileSelect(ns, r, releaseName, PickLog);
    var evs := Reconcile(ns, r, releaseName);
    SelectOne(evs[0], PickLog);
    if |evs| >= 2 { SelectOne(evs[1], PickLog); }
    if |evs| == 3 { SelectOne(evs[2], PickLog); }
  }

  /**
   Drift alone triggers a patch: once the live status is known, a patch is
   attempted (issued, or its encoding failed and was logged) exactly when
   the live status string differs from the recorded one; in sync, the
   release costs one lookup and nothing else.
   */
  lemma DriftAloneTriggersPatch(ns: string, r: ReleaseInput, releaseName: FluxHelmRelease -> string)
    requires r.content.Ok?
    ensures Drifted(r.fhr, Live(r))
        <==> Patches(Reconcile(ns, r, releaseName)) != [] || Logs(Reconcile(ns, r, releaseName)) != []
    ensures !Drifted(r.fhr, Live(r)) ==> Reconcile(ns, r, releaseName) == [LookedUp(releaseName(r.fhr))]
    ensures Drifted(r.fhr, Live(r)) && r.marshal.Pass? ==>
      Patches(Reconcile(ns, r, releaseName)) == [StatusPatch(ns, r.fhr.name, Live(r))]
  {
    ReconcileViews(ns, r, releaseName);
    ReconcileCases(ns, r, releaseName);
  }

  /**
   The patch carries only the status: every patch issued for `r` is a merge
   patch addressed to `r`'s name in the namespace being swept, whose payload
   is the live status; applied, it changes the recorded status and nothing
   else of the resource.
   */
  lemma PatchCarriesOnlyStatus(ns: string, r: ReleaseInput, releaseName: FluxHelmRelease -> string, p: Patch)
    requires p in Patches(Reconcile(ns, r, releaseName))
    ensures p.patchType == MergePatch && p.namespace == ns && p.name == r.fhr.name
    ensures r.content.Ok? && p.body.status.releaseStatus == Live(r) != r.fhr.status.releaseStatus
    ensures var stored := ApplyMergePatch(r.fhr, p.body);
      stored.name == r.fhr.name && stored.namespace == r.fhr.namespace && stored.spec == r.fhr.spec
      && stored.status.releaseStatus == Live(r)
  {
    ReconcileViews(ns, r, releaseName);
  }

  /**
   Reconciliation converges: once the patch has been applied to the stored
   resource, reconciling it against the same live status issues nothing.
   */
  lemma ReconcileConverges(ns: string, r: ReleaseInput, releaseName: FluxHelmRelease -> string)
    requires r.content.Ok?
    ensures var patched := r.(fhr := ApplyMergePatch(r.fhr, StatusPatch(ns, r.fhr.name, Live(r)).body));
      Reconcile(ns, patched, releaseName) == [LookedUp(releaseName(patched.fhr))]
      && Patches(Reconcile(ns, patched, releaseName)) == []
      && Logs(Reconcile(ns, patched, releaseName)) == []
  {
    var patched := r.(fhr := ApplyMergePatch(r.fhr, StatusPatch(ns, r.fhr.name, Live(r)).body));
    ReconcileViews(ns, patched, releaseName);
    ReconcileCases(ns, patched, releaseName);
  }

  // ---------------------------------------------------------------------
  // The releases of one namespace (lines 79-108)
  // ---------------------------------------------------------------------

  /** The release names of `items`, in listing order. */
  function ReleaseNames(items: seq<ReleaseInput>, releaseName: FluxHelmRelease -> string): seq<string>
  {
    seq(|items|, i requires 0 <= i < |items| => releaseName(items[i].fhr))
  }

  /** Reconciling a listing is reconciling its parts one after the other. */
  lemma {:induction false} ReconcileAllAppend(ns: string, a: seq<ReleaseInput>, b: seq<ReleaseInput>,
                                             releaseName: FluxHelmRelease -> string)
    ensures ReconcileAll(ns, a + b, releaseName) == ReconcileAll(ns, a, releaseName) + ReconcileAll(ns, b, releaseName)
  {
    if a == [] {
      assert a + b == b;
    } else {
      assert (a + b)[0] == a[0];
      assert (a + b)[1..] == a[1..] + b;
      ReconcileAllAppend(ns, a[1..], b, releaseName);
    }
  }

  /**
   Per-item isolation: whatever happens to release `i`, the releases before
   it and after it are reconciled exactly as they would be without it.
   */
  lemma PerItemIsolation(ns: string, items: seq<ReleaseInput>, i: nat, releaseName: FluxHelmRelease -> string)
    requires i < |items|
    ensures ReconcileAll(ns, items, releaseName)
         == ReconcileAll(ns, items[..i], releaseName) + Reconcile(ns, items[i], releaseName)
            + ReconcileAll(ns, items[i + 1..], releaseName)
  {
    assert items == items[..i] + ([items[i]] + items[i + 1..]);
    ReconcileAllAppend(ns, items[..i], [items[i]] + items[i + 1..], releaseName);
    ReconcileAllAppend(ns, [items[i]], items[i + 1..], releaseName);
    assert [items[i]][1..] == [];
  }

  /** A failed Helm lookup logs the error and skips that release only. */
  lemma LookupFailureSkipsOne(ns: string, items: seq<ReleaseInput>, i: nat, releaseName: FluxHelmRelease -> string)
    requires i < |items| && items[i].content.Err?
    ensures ReconcileAll(ns, items, releaseName)
         == ReconcileAll(ns, items[..i], releaseName)
            + [LookedUp(releaseName(items[i].fhr)), Logged(LookupFailed(items[i].content.error))]
            + ReconcileAll(ns, items[i + 1..], releaseName)
  {
    PerItemIsolation(ns, items, i, releaseName);
    ReconcileCases(ns, items[i], releaseName);
  }

  /**
   A failed encoding or patch call logs namespace, resource and error, and
   skips that release only.
   */
  lemma PatchFailureSkipsOne(ns: string, items: seq<ReleaseInput>, i: nat, releaseName: FluxHelmRelease -> string)
    requires i < |items| && items[i].content.Ok? && Drifted(items[i].fhr, Live(items[i]))
    requires items[i].marshal.Fail? || items[i].patch.Fail?
    ensures var e := if items[i].marshal.Fail? then items[i].marshal.error else items[i].patch.error;
      Logs(Reconcile(ns, items[i], releaseName)) == [PatchFailed(ns, items[i].fhr.name, e)]
      && Reconcile(ns, items[i], releaseName)[|Reconcile(ns, items[i], releaseName)| - 1]
         == Logged(PatchFailed(ns, items[i].fhr.name, e))
    ensures ReconcileAll(ns, items, releaseName)
         == ReconcileAll(ns, items[..i], releaseName) + Reconcile(ns, items[i], releaseName)
            + ReconcileAll(ns, items[i + 1..], releaseName)
  {
    PerItemIsolation(ns, items, i, releaseName);
    ReconcileCases(ns, items[i], releaseName);
    ReconcileViews(ns, items[i], releaseName);
  }

  /** Every listed release is looked up exactly once, in listing order, whatever fails. */
  lemma {:induction false} LookupsFollowListing(ns: string, items: seq<ReleaseInput>, releaseName: FluxHelmRelease -> string)
    ensures Lookups(ReconcileAll(ns, items, releaseName)) == ReleaseNames(items, releaseName)
  {
    if items != [] {
      LookupsFollowListing(ns, items[1..], releaseName);
      SelectAppend(Reconcile(ns, items[0], releaseName), ReconcileAll(ns, items[1..], releaseName), PickLookup);
      ReconcileViews(ns, items[0], releaseName);
      assert ReleaseNames(items, releaseName) == [releaseName(items[0].fhr)] + ReleaseNames(items[1..], releaseName);
    }
  }

  /** A release needs a patch: its live status is known, has drifted, and its patch encodes. */
  predicate NeedsPatch(r: ReleaseInput)
  {
    r.content.Ok? && Drifted(r.fhr, Live(r)) && r.marshal.Pass?
  }

  /**
   Across a namespace, a patch is issued exactly for the releases that
   drifted: each issued patch is the status patch of some listed release
   that needs one, and each such release gets its patch.
   */
  lemma {:induction false} PatchesOfNamespace(ns: string, items: seq<ReleaseInput>, releaseName: FluxHelmRelease -> string)
    ensures forall p :: p in Patches(ReconcileAll(ns, items, releaseName)) <==>
      exists i :: 0 <= i < |items| && NeedsPatch(items[i]) && p == StatusPatch(ns, items[i].fhr.name, Live(items[i]))
  {
    if items != [] {
      PatchesOfNamespace(ns, items[1..], releaseName);
      SelectAppend(Reconcile(ns, items[0], releaseName), ReconcileAll(ns, items[1..], releaseName), PickPatch);
      ReconcileViews(ns, items[0], releaseName);
      var head := Patches(Reconcile(ns, items[0], releaseName));
      var tail := Patches(ReconcileAll(ns, items[1..], releaseName));
      assert Patches(ReconcileAll(ns, items, releaseName)) == head + tail;
      forall p | p in head + tail
        ensures exists i :: 0 <= i < |items| && NeedsPatch(items[i]) && p == StatusPatch(ns, items[i].fhr.name, Live(items[i]))
      {
        if p in head {
          assert NeedsPatch(items[0]) && p == StatusPatch(ns, items[0].fhr.name, Live(items[0]));
        } else {
          assert p in tail;
          var i :| 0 <= i < |items[1..]| && NeedsPatch(items[1..][i])
                   && p == StatusPatch(ns, items[1..][i].fhr.name, Live(items[1..][i]));
          assert items[1..][i] == items[i + 1];
        }
      }
      forall i | 0 <= i < |items| && NeedsPatch(items[i])
        ensures StatusPatch(ns, items[i].fhr.name, Live(items[i])) in head + tail
      {
        if i > 0 {
          assert items[1..][i - 1] == items[i];
          assert 0 <= i - 1 < |items[1..]| && NeedsPatch(items[1..][i - 1]);
          assert StatusPatch(ns, items[i].fhr.name, Live(items[i])) in tail;
        }
      }
    }
  }

  /** The status patches a namespace owes: one per release that needs one, in listing order. */
  function NamespacePatches(ns: string, items: seq<ReleaseInput>): seq<Patch>
  {
    if items == [] then []
    else (if NeedsPatch(items[0]) then [StatusPatch(ns, items[0].fhr.name, Live(items[0]))] else [])
         + NamespacePatches(ns, items[1..])
  }

  /**
   The patches issued in a namespace are exactly the status patches it owes,
   one per release that needs one, in listing order.
   */
  lemma {:induction false} PatchesInListingOrder(ns: string, items: seq<ReleaseInput>,
                                                 releaseName: FluxHelmRelease -> string)
    ensures Patches(ReconcileAll(ns, items, releaseName)) == NamespacePatches(ns, items)
  {
    if items != [] {
      PatchesInListingOrder(ns, items[1..], releaseName);
      SelectAppend(Reconcile(ns, items[0], releaseName), ReconcileAll(ns, items[1..], releaseName), PickPatch);
      ReconcilePatches(ns, items[0], releaseName);
    }
  }

  // ---------------------------------------------------------------------
  // The namespaces of one cycle (lines 72-109)
  // ---------------------------------------------------------------------

  /** The namespace names of `nss`, in listing order. */
  function NamespaceNames(nss: seq<NamespaceInput>): seq<string>
  {
    seq(|nss|, i requires 0 <= i < |nss| => nss[i].name)
  }

  /** Every namespace's release listing succeeded. */
  predicate AllListed(nss: seq<NamespaceInput>)
  {
    forall i :: 0 <= i < |nss| ==> nss[i].releases.Ok?
  }

  lemma AllListedCons(nss: seq<NamespaceInput>)
    requires nss != []
    ensures AllListed(nss) <==> nss[0].releases.Ok? && AllListed(nss[1..])
  {
    if nss[0].releases.Ok? && AllListed(nss[1..]) {
      forall i | 0 <= i < |nss| ensures nss[i].releases.Ok? {
        if i > 0 { assert nss[1..][i - 1] == nss[i]; }
      }
    }
    if AllListed(nss) {
      AllListedTail(nss);
    }
  }

  /** A sweep ends the loop exactly when some namespace fails to list its releases. */
  lemma {:induction false} SweepCompletes(nss: seq<NamespaceInput>, releaseName: FluxHelmRelease -> string)
    ensures SweepNamespaces(nss, releaseName).abort == None <==> AllListed(nss)
  {
    if nss != [] {
      SweepCompletes(nss[1..], releaseName);
      AllListedCons(nss);
    }
  }

  /** A sweep whose release listings all succeed lists every namespace once, in listing order. */
  lemma {:induction false} SweepListsInOrder(nss: seq<NamespaceInput>, releaseName: FluxHelmRelease -> string)
    requires AllListed(nss)
    ensures ReleaseListings(SweepNamespaces(nss, releaseName).events) == NamespaceNames(nss)
  {
    if nss != [] {
      AllListedTail(nss);
      SweepListsInOrder(nss[1..], releaseName);
      var items := nss[0].releases.value;
      var h := [ListedReleases(nss[0].name)];
      var r := ReconcileAll(nss[0].name, items, releaseName);
      var rest := SweepNamespaces(nss[1..], releaseName).events;
      assert SweepNamespaces(nss, releaseName).events == h + (r + rest);
      ReconcileListsNothing(nss[0].name, items, releaseName);
      SelectAppend(h, r + rest, PickListing);
      SelectAppend(r, rest, PickListing);
      SelectOne(ListedReleases(nss[0].name), PickListing);
      assert NamespaceNames(nss) == [nss[0].name] + NamespaceNames(nss[1..]);
    }
  }

  /** Reconciling releases never lists anything. */
  lemma {:induction false} ReconcileListsNothing(ns: string, items: seq<ReleaseInput>, releaseName: FluxHelmRelease -> string)
    ensures ReleaseListings(ReconcileAll(ns, items, releaseName)) == []
  {
    if items != [] {
      ReconcileListsNothing(ns, items[1..], releaseName);
      SelectAppend(Reconcile(ns, items[0], releaseName), ReconcileAll(ns, items[1..], releaseName), PickListing);
      ReconcileCases(ns, items[0], releaseName);
      ReconcileSelect(ns, items[0], releaseName, PickListing);
      var evs := Reconcile(ns, items[0], releaseName);
      SelectOne(evs[0], PickListing);
      if |evs| >= 2 { SelectOne(evs[1], PickListing); }
      if |evs| == 3 { SelectOne(evs[2], PickListing); }
    }
  }

  lemma AllListedTail(a: seq<NamespaceInput>)
    requires a != [] && AllListed(a)
    ensures a[0].releases.Ok? && AllListed(a[1..])
  {
    forall i | 0 <= i < |a[1..]| ensures a[1..][i].releases.Ok? {
      assert a[1..][i] == a[i + 1];
    }
  }

  /** Sweeping `a` then `b`, when every listing in `a` succeeds. */
  lemma {:induction false} SweepAppend(a: seq<NamespaceInput>, b: seq<NamespaceInput>,
                                       releaseName: FluxHelmRelease -> string)
    requires AllListed(a)
    ensures SweepNamespaces(a + b, releaseName) == Before(SweepNamespaces(a, releaseName).events, SweepNamespaces(b, releaseName))
  {
    if a == [] {
      assert a + b == b;
    } else {
      assert (a + b)[0] == a[0];
      assert (a + b)[1..] == a[1..] + b;
      AllListedTail(a);
      SweepAppend(a[1..], b, releaseName);
      var h := [ListedReleases(a[0].name)];
      var r := ReconcileAll(a[0].name, a[0].releases.value, releaseName);
      var t := SweepNamespaces(a[1..], releaseName);
      var u := SweepNamespaces(b, releaseName);
      assert SweepNamespaces(a + b, releaseName) == Before(h, Before(r, Before(t.events, u)));
      assert SweepNamespaces(a, releaseName).events == h + (r + t.events);
      BeforeAssoc(r, t.events, u);
      BeforeAssoc(h, r + t.events, u);
    }
  }

  /** Proof step: prefixing `b` and then `a` is prefixing `a + b`. */
  lemma BeforeAssoc(a: seq<Event>, b: seq<Event>, s: Sweep)
    ensures Before(a, Before(b, s)) == Before(a + b, s)
  {
    assert a + (b + s.events) == (a + b) + s.events;
  }

  /**
   A failed release listing ends the sweep at once: the namespaces before it
   were swept completely and their patches stand, and the failing
   namespace's listing is the last call.
   */
  lemma ReleaseListFailureEndsSweep(nss: seq<NamespaceInput>, j: nat, releaseName: FluxHelmRelease -> string)
    requires j < |nss| && nss[j].releases.Err? && AllListed(nss[..j])
    ensures SweepNamespaces(nss[..j], releaseName).abort == None
    ensures SweepNamespaces(nss, releaseName)
         == Sweep(SweepNamespaces(nss[..j], releaseName).events + [ListedReleases(nss[j].name)],
                  Some(ReleaseListFailed(nss[j].name, nss[j].releases.error)))
  {
    SweepCompletes(nss[..j], releaseName);
    assert nss == nss[..j] + nss[j..];
    SweepAppend(nss[..j], nss[j..], releaseName);
    assert nss[j..][0] == nss[j];
  }

  /**
   After a failed release listing in namespace `j`, no later namespace is
   visited: the namespaces listed are those up to `j`, in listing order.
   */
  lemma LaterNamespacesNotVisited(nss: seq<NamespaceInput>, j: nat, releaseName: FluxHelmRelease -> string)
    requires j < |nss| && nss[j].releases.Err? && AllListed(nss[..j])
    ensures ReleaseListings(SweepNamespaces(nss, releaseName).events) == NamespaceNames(nss[..j + 1])
  {
    ReleaseListFailureEndsSweep(nss, j, releaseName);
    SweepListsInOrder(nss[..j], releaseName);
    var pre := SweepNamespaces(nss[..j], releaseName).events;
    SelectAppend(pre, [ListedReleases(nss[j].name)], PickListing);
    SelectOne(ListedReleases(nss[j].name), PickListing);
    NamespaceNamesSnoc(nss, j);
  }

  lemma NamespaceNamesSnoc(nss: seq<NamespaceInput>, j: nat)
    requires j < |nss|
    ensures NamespaceNames(nss[..j + 1]) == NamespaceNames(nss[..j]) + [nss[j].name]
  {
    assert nss[..j + 1][j] == nss[j];
    forall i | 0 <= i < j ensures nss[..j + 1][i] == nss[..j][i] { }
  }

  /** The status patches a sweep owes: those of each namespace it lists, in namespace order. */
  function SweepPatches(nss: seq<NamespaceInput>): seq<Patch>
  {
    if nss == [] then []
    else match nss[0].releases
      case Err(_) => []
      case Ok(items) => NamespacePatches(nss[0].name, items) + SweepPatches(nss[1..])
  }

  /**
   The patches of a sweep are the status patches owed by the namespaces whose
   releases it lists, in namespace order and then listing order; a failed
   release listing ends it before any later namespace is patched.
   */
  lemma {:induction false} PatchesOfSweep(nss: seq<NamespaceInput>, releaseName: FluxHelmRelease -> string)
    ensures Patches(SweepNamespaces(nss, releaseName).events) == SweepPatches(nss)
  {
    if nss != [] {
      SelectOne(ListedReleases(nss[0].name), PickPatch);
      if nss[0].releases.Ok? {
        var items := nss[0].releases.value;
        var own := ReconcileAll(nss[0].name, items, releaseName);
        var rest := SweepNamespaces(nss[1..], releaseName).events;
        PatchesOfSweep(nss[1..], releaseName);
        PatchesInListingOrder(nss[0].name, items, releaseName);
        SelectAppend([ListedReleases(nss[0].name)], own + rest, PickPatch);
        SelectAppend(own, rest, PickPatch);
      }
    }
  }

  /** A cycle patches only when it gets past the stop check, the wait and the namespace listing. */
  lemma PatchesOfCycle(c: CycleInput, releaseName: FluxHelmRelease -> string)
    ensures Patches(Cycle(c, releaseName).events)
         == if !c.stop && c.wait.Pass? && c.namespaces.Ok? then SweepPatches(c.namespaces.value) else []
  {
    SelectOne(Waited, PickPatch);
    SelectOne(ListedNamespaces, PickPatch);
    SelectFew(Waited, ListedNamespaces, Waited, PickPatch);
    if !c.stop && c.wait.Pass? && c.namespaces.Ok? {
      PatchesOfSweep(c.namespaces.value, releaseName);
      SelectAppend([Waited, ListedNamespaces], SweepNamespaces(c.namespaces.value, releaseName).events, PickPatch);
    }
  }

  /**
   Per-item failures never end the loop: a cycle ends it exactly when stop
   is signalled, the limiter wait fails, or a listing fails.
   */
  lemma CycleCompletesIff(c: CycleInput, releaseName: FluxHelmRelease -> string)
    ensures Cycle(c, releaseName).abort == None
        <==> !c.stop && c.wait.Pass? && c.namespaces.Ok? && AllListed(c.namespaces.value)
  {
    if !c.stop && c.wait.Pass? && c.namespaces.Ok? {
      SweepCompletes(c.namespaces.value, releaseName);
    }
  }

  // ---------------------------------------------------------------------
  // The whole loop (lines 49-117)
  // ---------------------------------------------------------------------

  /** Every cycle of `cycles` completes. */
  predicate AllComplete(cycles: seq<CycleInput>, releaseName: FluxHelmRelease -> string)
  {
    forall i :: 0 <= i < |cycles| ==> Cycle(cycles[i], releaseName).abort == None
  }

  /**
   The first cycle that ends the loop ends it for good: its events are
   followed by exactly one "stopping" entry carrying `logErr`, and none of
   the later cycles begins.
   */
  lemma {:induction false} FirstAbortEndsRun(done: seq<CycleInput>, c: CycleInput, later: seq<CycleInput>,
                                             releaseName: FluxHelmRelease -> string)
    requires AllComplete(done, releaseName) && Cycle(c, releaseName).abort.Some?
    ensures RunCycles(done, releaseName).state == Running
    ensures RunCycles(done + [c] + later, releaseName)
         == Run(RunCycles(done, releaseName).events + Cycle(c, releaseName).events
                + [Logged(Stopping(LogErr(Cycle(c, releaseName).abort.value)))],
                Stopped(Cycle(c, releaseName).abort.value))
  {
    if done == [] {
      assert done + [c] + later == [c] + later;
      assert ([c] + later)[1..] == later;
    } else {
      assert (done + [c] + later)[0] == done[0];
      assert (done + [c] + later)[1..] == done[1..] + [c] + later;
      assert AllComplete(done[1..], releaseName) by {
        forall i | 0 <= i < |done[1..]| ensures Cycle(done[1..][i], releaseName).abort == None {
          assert done[1..][i] == done[i + 1];
        }
      }
      assert Cycle(done[0], releaseName).abort == None;
      FirstAbortEndsRun(done[1..], c, later, releaseName);
      var s := Cycle(done[0], releaseName).events;
      var rest := RunCycles(done[1..], releaseName).events;
      var tail := Cycle(c, releaseName).events + [Logged(Stopping(LogErr(Cycle(c, releaseName).abort.value)))];
      assert s + (rest + Cycle(c, releaseName).events + [Logged(Stopping(LogErr(Cycle(c, releaseName).abort.value)))])
          == (s + rest) + Cycle(c, releaseName).events + [Logged(Stopping(LogErr(Cycle(c, releaseName).abort.value)))];
    }
  }

  /**
   The stop signal is checked before any work: in the cycle that sees it,
   the limiter is not waited on and nothing is listed; the loop logs
   "stopping" with a nil error and begins no further cycle.
   */
  lemma StopSignalEndsRun(done: seq<CycleInput>, c: CycleInput, later: seq<CycleInput>,
                          releaseName: FluxHelmRelease -> string)
    requires AllComplete(done, releaseName) && c.stop
    ensures RunCycles(done + [c] + later, releaseName)
         == Run(RunCycles(done, releaseName).events + [Logged(Stopping(None))], Stopped(StopSignal))
  {
    FirstAbortEndsRun(done, c, later, releaseName);
    assert RunCycles(done, releaseName).events + [] == RunCycles(done, releaseName).events;
  }

  /** A failed limiter wait ends the loop before anything is listed, with `logErr` set. */
  lemma WaitFailureEndsRun(done: seq<CycleInput>, c: CycleInput, later: seq<CycleInput>,
                           releaseName: FluxHelmRelease -> string)
    requires AllComplete(done, releaseName) && !c.stop && c.wait.Fail?
    ensures RunCycles(done + [c] + later, releaseName)
         == Run(RunCycles(done, releaseName).events + [Waited, Logged(Stopping(Some(c.wait.error)))],
                Stopped(WaitFailed(c.wait.error)))
  {
    FirstAbortEndsRun(done, c, later, releaseName);
    assert RunCycles(done, releaseName).events + [Waited] + [Logged(Stopping(Some(c.wait.error)))]
        == RunCycles(done, releaseName).events + [Waited, Logged(Stopping(Some(c.wait.error)))];
  }

  /**
   A failed namespace listing ends the loop with `logErr` set; no release of
   that cycle is listed, looked up or patched.
   */
  lemma NamespaceListFailureEndsRun(done: seq<CycleInput>, c: CycleInput, later: seq<CycleInput>,
                                    releaseName: FluxHelmRelease -> string)
    requires AllComplete(done, releaseName) && !c.stop && c.wait.Pass? && c.namespaces.Err?
    ensures RunCycles(done + [c] + later, releaseName)
         == Run(RunCycles(done, releaseName).events
                + [Waited, ListedNamespaces, Logged(Stopping(Some(c.namespaces.error)))],
                Stopped(NamespaceListFailed(c.namespaces.error)))
  {
    FirstAbortEndsRun(done, c, later, releaseName);
    assert RunCycles(done, releaseName).events + [Waited, ListedNamespaces] + [Logged(Stopping(Some(c.namespaces.error)))]
        == RunCycles(done, releaseName).events + [Waited, ListedNamespaces, Logged(Stopping(Some(c.namespaces.error)))];
  }

  /**
   A failed release listing in namespace `j` ends the loop at once with
   `logErr` set: the events of the namespaces before it stand, and no later
   namespace and no later cycle is visited.
   */
  lemma ReleaseListFailureEndsRun(done: seq<CycleInput>, c: CycleInput, later: seq<CycleInput>, j: nat,
                                  releaseName: FluxHelmRelease -> string)
    requires AllComplete(done, releaseName) && !c.stop && c.wait.Pass? && c.namespaces.Ok?
    requires j < |c.namespaces.value| && c.namespaces.value[j].releases.Err?
    requires AllListed(c.namespaces.value[..j])
    ensures var nss := c.namespaces.value;
      RunCycles(done + [c] + later, releaseName)
      == Run(RunCycles(done, releaseName).events + [Waited, ListedNamespaces]
             + SweepNamespaces(nss[..j], releaseName).events
             + [ListedReleases(nss[j].name), Logged(Stopping(Some(nss[j].releases.error)))],
             Stopped(ReleaseListFailed(nss[j].name, nss[j].releases.error)))
  {
    var nss := c.namespaces.value;
    ReleaseListFailureEndsSweep(nss, j, releaseName);
    FirstAbortEndsRun(done, c, later, releaseName);
    var pre := RunCycles(done, releaseName).events;
    var mid := SweepNamespaces(nss[..j], releaseName).events;
    var e := nss[j].releases.error;
    assert pre + ([Waited, ListedNamespaces] + (mid + [ListedReleases(nss[j].name)])) + [Logged(Stopping(Some(e)))]
        == pre + [Waited, ListedNamespaces] + mid + [ListedReleases(nss[j].name), Logged(Stopping(Some(e)))];
  }

  /** The `logErr` of the "stopping" entry is nil exactly when the stop came from the signal. */
  lemma LogErrNilIffSignal(reason: StopReason)
    ensures LogErr(reason) == None <==> reason == StopSignal
  {
  }

  function PickStopping(e: Event): Option<Option<Error>>
  {
    if e.Logged? && e.entry.Stopping? then Some(e.entry.stopErr) else None
  }

  /** The "stopping" entries of a trace, by their `err`. */
  function StoppingEntries(evs: seq<Event>): seq<Option<Error>> { Select(evs, PickStopping) }

  /** A release's events hold no "stopping" entry. */
  lemma ReconcileNeverStops(ns: string, r: ReleaseInput, releaseName: FluxHelmRelease -> string)
    ensures StoppingEntries(Reconcile(ns, r, releaseName)) == []
  {
    ReconcileCases(ns, r, releaseName);
    ReconcileSelect(ns, r, releaseName, PickStopping);
    var evs := Reconcile(ns, r, releaseName);
    SelectOne(evs[0], PickStopping);
    if |evs| >= 2 { SelectOne(evs[1], PickStopping); }
    if |evs| == 3 { SelectOne(evs[2], PickStopping); }
  }

  lemma {:induction false} ReconcileAllNeverStops(ns: string, items: seq<ReleaseInput>,
                                                  releaseName: FluxHelmRelease -> string)
    ensures StoppingEntries(ReconcileAll(ns, items, releaseName)) == []
  {
    if items != [] {
      ReconcileNeverStops(ns, items[0], releaseName);
      ReconcileAllNeverStops(ns, items[1..], releaseName);
      SelectAppend(Reconcile(ns, items[0], releaseName), ReconcileAll(ns, items[1..], releaseName), PickStopping);
    }
  }

  lemma {:induction false} SweepNeverStops(nss: seq<NamespaceInput>, releaseName: FluxHelmRelease -> string)
    ensures StoppingEntries(SweepNamespaces(nss, releaseName).events) == []
  {
    if nss != [] {
      SelectOne(ListedReleases(nss[0].name), PickStopping);
      if nss[0].releases.Ok? {
        var items := nss[0].releases.value;
        SweepNeverStops(nss[1..], releaseName);
        ReconcileAllNeverStops(nss[0].name, items, releaseName);
        var rest := SweepNamespaces(nss[1..], releaseName).events;
        SelectAppend([ListedReleases(nss[0].name)], ReconcileAll(nss[0].name, items, releaseName) + rest, PickStopping);
        SelectAppend(ReconcileAll(nss[0].name, items, releaseName), rest, PickStopping);
      }
    }
  }

  lemma CycleNeverStops(c: CycleInput, releaseName: FluxHelmRelease -> string)
    ensures StoppingEntries(Cycle(c, releaseName).events) == []
  {
    SelectOne(Waited, PickStopping);
    SelectOne(ListedNamespaces, PickStopping);
    SelectFew(Waited, ListedNamespaces, Waited, PickStopping);
    if !c.stop && c.wait.Pass? && c.namespaces.Ok? {
      SweepNeverStops(c.namespaces.value, releaseName);
      SelectAppend([Waited, ListedNamespaces], SweepNamespaces(c.namespaces.value, releaseName).events, PickStopping);
    }
  }

  /**
   On exit exactly one "stopping" entry is written, as the last event, with
   the `logErr` of the reason; a run that has not stopped has written none.
   */
  lemma {:induction false} ExactlyOneStoppingEntry(cycles: seq<CycleInput>, releaseName: FluxHelmRelease -> string)
    ensures var run := RunCycles(cycles, releaseName);
      StoppingEntries(run.events) == (if run.state.Stopped? then [LogErr(run.state.reason)] else [])
    ensures var run := RunCycles(cycles, releaseName);
      run.state.Stopped? ==> |run.events| > 0 && run.events[|run.events| - 1] == Logged(Stopping(LogErr(run.state.reason)))
  {
    if cycles != [] {
      var s := Cycle(cycles[0], releaseName);
      CycleNeverStops(cycles[0], releaseName);
      match s.abort
      case Some(reason) =>
        SelectAppend(s.events, [Logged(Stopping(LogErr(reason)))], PickStopping);
        SelectOne(Logged(Stopping(LogErr(reason))), PickStopping);
      case None =>
        ExactlyOneStoppingEntry(cycles[1..], releaseName);
        SelectAppend(s.events, RunCycles(cycles[1..], releaseName).events, PickStopping);
    }
  }

  /**
   The "stopping" entry a run writes carries a nil `err` exactly when the loop
   stopped on the signal: the trace holds the single entry `[None]` if and
   only if the final state is `Stopped(StopSignal)`.
   */
  lemma StoppingErrNilIffSignal(cycles: seq<CycleInput>, releaseName: FluxHelmRelease -> string)
    ensures var run := RunCycles(cycles, releaseName);
      StoppingEntries(run.events) == [None] <==> run.state == Stopped(StopSignal)
  {
    ExactlyOneStoppingEntry(cycles, releaseName);
    var run := RunCycles(cycles, releaseName);
    if run.state.Stopped? {
      LogErrNilIffSignal(run.state.reason);
    }
  }
}
