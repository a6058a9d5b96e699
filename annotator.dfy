/**
 The FluxHelmRelease status annotator of flux's Helm integration.

 `Loop` is a two-state controller (running, then stopped) that sweeps all
 namespaces in cycles: it checks the stop signal, waits on the rate limiter,
 lists namespaces, lists the FluxHelmReleases of each namespace, looks up the
 live Helm status of each release and, when that status differs from the one
 recorded in the resource, issues a merge patch that sets only the recorded
 status.

 Every call into Kubernetes, Helm, JSON and the rate limiter is modelled by
 the outcome it returns, supplied as input. Every Kubernetes, Helm and
 rate-limiter call and every log entry is recorded, in order, in one trace of
 events; the JSON encoding and the release-name derivation leave no event.
 */
module Annotator {

  // ---------------------------------------------------------------------
  // Go values the loop handles
  // ---------------------------------------------------------------------

  /** A non-nil Go `error`; only its identity matters here. */
  datatype Error = Error(message: string)

  datatype Option<T> = None | Some(value: T)

  /** A Go `(value, error)` pair: exactly one of the two is meaningful. */
  datatype Result<T> = Ok(value: T) | Err(error: Error)

  /** A call that returns only an `error`. */
  datatype Outcome = Pass | Fail(error: Error)

  // ---------------------------------------------------------------------
  // Configuration (New)
  // ---------------------------------------------------------------------

  /** Token-bucket settings of a rate limiter: one token per interval, at most `burst` saved up. */
  datatype LimiterConfig = LimiterConfig(intervalMillis: nat, burst: nat)

  /**
   The annotator. Its Kubernetes, FluxHelmRelease and Helm clients are
   opaque collaborators whose answers are the inputs of `Loop`; what is left
   is the limiter configuration.
   */
  datatype Annotator = Annotator(rateLimiter: LimiterConfig)

  /** `New`: the limiter admits one cycle start every five seconds, with a burst of five. */
  function New(): (a: Annotator)
    ensures a.rateLimiter.intervalMillis == 5 * 1000
    ensures a.rateLimiter.burst == 5
  {
    Annotator(LimiterConfig(5000, 5))
  }

  // ---------------------------------------------------------------------
  // Resources and release states
  // ---------------------------------------------------------------------

  /** The status sub-object of a FluxHelmRelease. */
  datatype FluxHelmReleaseStatus = FluxHelmReleaseStatus(releaseStatus: string)

  /**
   A FluxHelmRelease as listed from its namespace. `spec` stands for the rest
   of the resource, which this core only hands to the release-name
   derivation.
   */
  datatype FluxHelmRelease = FluxHelmRelease(
    name: string,
    namespace: string,
    spec: map<string, string>,
    status: FluxHelmReleaseStatus)

  /**
   Helm's release status codes, in the order of their numeric values (UNKNOWN
   is 0). The enum is closed: a code outside these nine cannot be expressed.
   */
  datatype StatusCode =
    | Unknown | Deployed | Deleted | Superseded | Failed | Deleting
    | PendingInstall | PendingUpgrade | PendingRollback

  /** The `String()` rendering of a status code. */
  function CodeString(c: StatusCode): string
  {
    match c
    case Unknown => "UNKNOWN"
    case Deployed => "DEPLOYED"
    case Deleted => "DELETED"
    case Superseded => "SUPERSEDED"
    case Failed => "FAILED"
    case Deleting => "DELETING"
    case PendingInstall => "PENDING_INSTALL"
    case PendingUpgrade => "PENDING_UPGRADE"
    case PendingRollback => "PENDING_ROLLBACK"
  }

  /**
   What `ReleaseContent` returns. `status` is the code reached through
   `GetRelease().GetInfo().GetStatus()`, or None when any link of that chain
   is absent; the generated getters then yield the zero code.
   */
  datatype ReleaseContent = ReleaseContent(status: Option<StatusCode>)

  /** The live status string the loop compares with the recorded one. */
  function LiveStatus(content: ReleaseContent): string
  {
    CodeString(if content.status.Some? then content.status.value else Unknown)
  }

  // ---------------------------------------------------------------------
  // Patches
  // ---------------------------------------------------------------------

  datatype PatchType = JSONPatch | MergePatch | StrategicMergePatch

  /** The payload `{"status": {"releaseStatus": ...}}`: nothing but the status. */
  datatype StatusPatchBody = StatusPatchBody(status: FluxHelmReleaseStatus)

  /** A patch call: which resource, with which kind of patch, carrying what. */
  datatype Patch = Patch(namespace: string, name: string, patchType: PatchType, body: StatusPatchBody)

  /** The patch the loop issues to record `live` as the status of resource `name` in namespace `ns`. */
  function StatusPatch(ns: string, name: string, live: string): Patch
  {
    Patch(ns, name, MergePatch, StatusPatchBody(FluxHelmReleaseStatus(live)))
  }

  /**
   The effect of a merge patch with `body` on a stored resource: the fields
   present in the payload are set, every other field is kept.
   */
  function ApplyMergePatch(fhr: FluxHelmRelease, body: StatusPatchBody): FluxHelmRelease
  {
    fhr.(status := fhr.status.(releaseStatus := body.status.releaseStatus))
  }

  /** Drift: the live status string differs from the recorded one. */
  predicate Drifted(fhr: FluxHelmRelease, live: string)
  {
    live != fhr.status.releaseStatus
  }

  // ---------------------------------------------------------------------
  // Inputs: what the environment answers, cycle by cycle
  // ---------------------------------------------------------------------

  /**
   One listed FluxHelmRelease with the outcomes of the calls the loop may
   make for it: the Helm lookup, the JSON encoding of the patch and the
   patch call. The last two are consulted only when the status drifted.
   */
  datatype ReleaseInput = ReleaseInput(
    fhr: FluxHelmRelease,
    content: Result<ReleaseContent>,
    marshal: Outcome,
    patch: Outcome)

  /** One listed namespace and the outcome of listing its FluxHelmReleases. */
  datatype NamespaceInput = NamespaceInput(name: string, releases: Result<seq<ReleaseInput>>)

  /** One cycle: whether stop is signalled, the limiter wait, the namespace listing. */
  datatype CycleInput = CycleInput(stop: bool, wait: Outcome, namespaces: Result<seq<NamespaceInput>>)

  // ---------------------------------------------------------------------
  // Outputs: the trace of calls and log entries, and the final state
  // ---------------------------------------------------------------------

  datatype LogEntry =
    | LookupFailed(err: Error)                                    // logger.Log("err", err)
    | PatchFailed(namespace: string, resource: string, err: Error) // marshal or patch failure
    | Stopping(stopErr: Option<Error>)                             // final entry, err is logErr

  datatype Event =
    | Waited                          // rateLimiter.Wait
    | ListedNamespaces                // Namespaces().List
    | ListedReleases(namespace: string)
    | LookedUp(release: string)       // helmClient.ReleaseContent
    | Patched(patch: Patch)           // fhrIf.Patch
    | Logged(entry: LogEntry)

  /** Why the loop left `bail`. */
  datatype StopReason =
    | StopSignal
    | WaitFailed(err: Error)
    | NamespaceListFailed(err: Error)
    | ReleaseListFailed(namespace: string, err: Error)

  /** The value of `logErr` when the loop leaves `bail` for `reason`. */
  function LogErr(reason: StopReason): Option<Error>
  {
    match reason
    case StopSignal => None
    case WaitFailed(e) => Some(e)
    case NamespaceListFailed(e) => Some(e)
    case ReleaseListFailed(_, e) => Some(e)
  }

  /** Running means the supplied cycles ran out while the loop was still going. */
  datatype LoopState = Running | Stopped(reason: StopReason)

  // ---------------------------------------------------------------------
  // Reference definition of the loop, one level at a time
  // ---------------------------------------------------------------------

  /** The events of one FluxHelmRelease in namespace `ns` (lines 80-107). */
  function Reconcile(ns: string, r: ReleaseInput, releaseName: FluxHelmRelease -> string): seq<Event>
  {
    [LookedUp(releaseName(r.fhr))] +
    match r.content
    case Err(e) => [Logged(LookupFailed(e))]
    case Ok(content) =>
      var live := LiveStatus(content);
      if !Drifted(r.fhr, live) then []
      else match r.marshal
        case Fail(e) => [Logged(PatchFailed(ns, r.fhr.name, e))]
        case Pass =>
          [Patched(StatusPatch(ns, r.fhr.name, live))] +
          match r.patch
          case Pass => []
          case Fail(e) => [Logged(PatchFailed(ns, r.fhr.name, e))]
  }

  /** The events of the FluxHelmReleases of one namespace, in listing order. */
  function ReconcileAll(ns: string, items: seq<ReleaseInput>, releaseName: FluxHelmRelease -> string): seq<Event>
  {
    if items == [] then []
    else Reconcile(ns, items[0], releaseName) + ReconcileAll(ns, items[1..], releaseName)
  }

  /** Events of a (part of a) cycle, and the reason it ended the loop, if it did. */
  datatype Sweep = Sweep(events: seq<Event>, abort: Option<StopReason>)

  /** Prefix a sweep with events that happened before it (`Prefixed` is the same for a `Run`). */
  function Before(evs: seq<Event>, s: Sweep): Sweep
  {
    Sweep(evs + s.events, s.abort)
  }

  /** The sweep over the listed namespaces, in listing order; a failed release listing ends it. */
  function SweepNamespaces(nss: seq<NamespaceInput>, releaseName: FluxHelmRelease -> string): Sweep
  {
    if nss == [] then Sweep([], None)
    else
      var ns := nss[0];
      match ns.releases
      case Err(e) => Sweep([ListedReleases(ns.name)], Some(ReleaseListFailed(ns.name, e)))
      case Ok(items) =>
        Before([ListedReleases(ns.name)],
               Before(ReconcileAll(ns.name, items, releaseName), SweepNamespaces(nss[1..], releaseName)))
  }

  /** One cycle of `bail` (lines 55-109). */
  function Cycle(c: CycleInput, releaseName: FluxHelmRelease -> string): Sweep
  {
    if c.stop then Sweep([], Some(StopSignal))
    else if c.wait.Fail? then Sweep([Waited], Some(WaitFailed(c.wait.error)))
    else match c.namespaces
      case Err(e) => Sweep([Waited, ListedNamespaces], Some(NamespaceListFailed(e)))
      case Ok(nss) => Before([Waited, ListedNamespaces], SweepNamespaces(nss, releaseName))
  }

  /** The whole trace of a run and its state at the end. */
  datatype Run = Run(events: seq<Event>, state: LoopState)

  /** Prefix a run with events that happened before it (`Before` is the same for a `Sweep`). */
  function Prefixed(evs: seq<Event>, r: Run): Run
  {
    Run(evs + r.events, r.state)
  }

  /**
   The loop over the supplied cycles: a cycle that ends the loop is followed
   by the single "stopping" entry and nothing else.
   */
  function RunCycles(cycles: seq<CycleInput>, releaseName: FluxHelmRelease -> string): Run
  {
    if cycles == [] then Run([], Running)
    else
      var s := Cycle(cycles[0], releaseName);
      match s.abort
      case Some(reason) => Run(s.events + [Logged(Stopping(LogErr(reason)))], Stopped(reason))
      case None => Prefixed(s.events, RunCycles(cycles[1..], releaseName))
  }

  // ---------------------------------------------------------------------
  // Views of a trace
  // ---------------------------------------------------------------------

  /** The values `pick` finds in `evs`, in trace order. */
  function Select<T>(evs: seq<Event>, pick: Event -> Option<T>): seq<T>
  {
    if evs == [] then []
    else (match pick(evs[0]) case Some(x) => [x] case None => []) + Select(evs[1..], pick)
  }

  function PickPatch(e: Event): Option<Patch> { if e.Patched? then Some(e.patch) else None }
  function PickLog(e: Event): Option<LogEntry> { if e.Logged? then Some(e.entry) else None }
  function PickLookup(e: Event): Option<string> { if e.LookedUp? then Some(e.release) else None }
  function PickListing(e: Event): Option<string> { if e.ListedReleases? then Some(e.namespace) else None }

  /** The patch calls issued. */
  function Patches(evs: seq<Event>): seq<Patch> { Select(evs, PickPatch) }
  /** The log entries written. */
  function Logs(evs: seq<Event>): seq<LogEntry> { Select(evs, PickLog) }
  /** The release names looked up in Helm. */
  function Lookups(evs: seq<Event>): seq<string> { Select(evs, PickLookup) }
  /** The namespaces whose FluxHelmReleases were listed. */
  function ReleaseListings(evs: seq<Event>): seq<string> { Select(evs, PickListing) }

  // ---------------------------------------------------------------------
  // Where the loop stands: the rest of the run from inside a cycle
  // ---------------------------------------------------------------------

  /**
   The run that follows once the events `done` have happened, the current
   cycle still owes the events and the verdict of `s`, and the cycles `rest`
   come after it.
   */
  function Resume(done: seq<Event>, s: Sweep, rest: seq<CycleInput>, releaseName: FluxHelmRelease -> string): Run
  {
    match s.abort
    case Some(reason) => Run(done + s.events + [Logged(Stopping(LogErr(reason)))], Stopped(reason))
    case None => Prefixed(done + s.events, RunCycles(rest, releaseName))
  }

  /** Entering cycle `k`. */
  lemma EnterCycle(done: seq<Event>, cycles: seq<CycleInput>, k: nat, releaseName: FluxHelmRelease -> string)
    requires k < |cycles|
    ensures Prefixed(done, RunCycles(cycles[k..], releaseName))
         == Resume(done, Cycle(cycles[k], releaseName), cycles[k + 1..], releaseName)
  {
    assert cycles[k..][1..] == cycles[k + 1..];
    var s := Cycle(cycles[k], releaseName);
    if s.abort.None? {
      assert done + (s.events + RunCycles(cycles[k + 1..], releaseName).events)
          == done + s.events + RunCycles(cycles[k + 1..], releaseName).events;
    }
  }

  /** Emitting the events `a` that the current cycle owes next. */
  lemma Emit(done: seq<Event>, a: seq<Event>, s: Sweep, rest: seq<CycleInput>, releaseName: FluxHelmRelease -> string)
    ensures Resume(done, Before(a, s), rest, releaseName) == Resume(done + a, s, rest, releaseName)
  {
    assert done + (a + s.events) == done + a + s.events;
  }

  /** Entering namespace `j`: its release listing comes first. */
  lemma EnterNamespace(done: seq<Event>, nss: seq<NamespaceInput>, j: nat, rest: seq<CycleInput>,
                       releaseName: FluxHelmRelease -> string)
    requires j < |nss| && nss[j].releases.Ok?
    ensures Resume(done, SweepNamespaces(nss[j..], releaseName), rest, releaseName)
         == Resume(done + [ListedReleases(nss[j].name)],
                   Before(ReconcileAll(nss[j].name, nss[j].releases.value, releaseName),
                          SweepNamespaces(nss[j + 1..], releaseName)),
                   rest, releaseName)
  {
    assert nss[j..][1..] == nss[j + 1..];
    Emit(done, [ListedReleases(nss[j].name)],
         Before(ReconcileAll(nss[j].name, nss[j].releases.value, releaseName), SweepNamespaces(nss[j + 1..], releaseName)),
         rest, releaseName);
  }

  /** Namespace `j` fails to list its releases: the loop stops right after that call. */
  lemma AbortNamespace(done: seq<Event>, nss: seq<NamespaceInput>, j: nat, rest: seq<CycleInput>,
                       releaseName: FluxHelmRelease -> string)
    requires j < |nss| && nss[j].releases.Err?
    ensures Resume(done, SweepNamespaces(nss[j..], releaseName), rest, releaseName)
         == Run(done + [ListedReleases(nss[j].name)]
                     + [Logged(Stopping(Some(nss[j].releases.error)))],
                Stopped(ReleaseListFailed(nss[j].name, nss[j].releases.error)))
  {
    assert nss[j..][1..] == nss[j + 1..];
  }

  /** Reconciling release `i` of namespace `ns`. */
  lemma EnterRelease(done: seq<Event>, ns: string, items: seq<ReleaseInput>, i: nat, s: Sweep,
                     rest: seq<CycleInput>, releaseName: FluxHelmRelease -> string)
    requires i < |items|
    ensures Resume(done, Before(ReconcileAll(ns, items[i..], releaseName), s), rest, releaseName)
         == Resume(done + Reconcile(ns, items[i], releaseName),
                   Before(ReconcileAll(ns, items[i + 1..], releaseName), s), rest, releaseName)
  {
    assert items[i..][1..] == items[i + 1..];
    var r := Reconcile(ns, items[i], releaseName);
    var t := ReconcileAll(ns, items[i + 1..], releaseName);
    assert done + (r + t) + s.events == done + r + (t + s.events);
  }

  /** Proof step for `Loop`: `Reconcile` unfolded into its five cases, one per branch of the release body. */
  lemma ReconcileCases(ns: string, r: ReleaseInput, releaseName: FluxHelmRelease -> string)
    ensures r.content.Err? ==>
      Reconcile(ns, r, releaseName) == [LookedUp(releaseName(r.fhr)), Logged(LookupFailed(r.content.error))]
    ensures r.content.Ok? && !Drifted(r.fhr, LiveStatus(r.content.value)) ==>
      Reconcile(ns, r, releaseName) == [LookedUp(releaseName(r.fhr))]
    ensures r.content.Ok? && Drifted(r.fhr, LiveStatus(r.content.value)) && r.marshal.Fail? ==>
      Reconcile(ns, r, releaseName)
      == [LookedUp(releaseName(r.fhr)), Logged(PatchFailed(ns, r.fhr.name, r.marshal.error))]
    ensures r.content.Ok? && Drifted(r.fhr, LiveStatus(r.content.value)) && r.marshal.Pass? && r.patch.Pass? ==>
      Reconcile(ns, r, releaseName)
      == [LookedUp(releaseName(r.fhr)), Patched(StatusPatch(ns, r.fhr.name, LiveStatus(r.content.value)))]
    ensures r.content.Ok? && Drifted(r.fhr, LiveStatus(r.content.value)) && r.marshal.Pass? && r.patch.Fail? ==>
      Reconcile(ns, r, releaseName)
      == [LookedUp(releaseName(r.fhr)), Patched(StatusPatch(ns, r.fhr.name, LiveStatus(r.content.value))),
          Logged(PatchFailed(ns, r.fhr.name, r.patch.error))]
  {
  }

  /** Proof step: appending two events one at a time is appending both. */
  lemma Appended2(s: seq<Event>, a: Event, b: Event)
    ensures s + [a] + [b] == s + [a, b]
  {
  }

  /** Proof step: appending three events one at a time is appending all three. */
  lemma Appended3(s: seq<Event>, a: Event, b: Event, c: Event)
    ensures s + [a] + [b] + [c] == s + [a, b, c]
  {
  }

  /** A namespace whose releases are all reconciled. */
  lemma LeaveNamespace(done: seq<Event>, ns: string, items: seq<ReleaseInput>, s: Sweep,
                       rest: seq<CycleInput>, releaseName: FluxHelmRelease -> string)
    ensures Resume(done, Before(ReconcileAll(ns, items[|items|..], releaseName), s), rest, releaseName)
         == Resume(done, s, rest, releaseName)
  {
    assert items[|items|..] == [];
    assert done + [] == done;
  }

  /** A cycle whose namespaces are all swept. */
  lemma LeaveCycle(done: seq<Event>, nss: seq<NamespaceInput>, rest: seq<CycleInput>,
                   releaseName: FluxHelmRelease -> string)
    ensures Resume(done, SweepNamespaces(nss[|nss|..], releaseName), rest, releaseName)
         == Prefixed(done, RunCycles(rest, releaseName))
  {
    assert nss[|nss|..] == [];
    assert done + [] == done;
  }

  // ---------------------------------------------------------------------
  // The loop itself
  // ---------------------------------------------------------------------

  /**
   `Loop`, run against the answers in `cycles` (one per cycle of `bail`).
   `releaseName` is the release-name derivation. The limiter configuration
   in `a` only shapes how long each wait takes, and the wait's outcome is
   itself an input (`CycleInput.wait`), so `a` is not read. The trace and
   the final state are those of the reference definition `RunCycles`.
   */
  method Loop(a: Annotator, cycles: seq<CycleInput>, releaseName: FluxHelmRelease -> string)
    returns (events: seq<Event>, state: LoopState)
    ensures Run(events, state) == RunCycles(cycles, releaseName)
  {
    events := [];
    state := Running;
    var logErr: Option<Error> := None;
    ghost var run := RunCycles(cycles, releaseName);

    label bail:
    for k := 0 to |cycles|
      invariant state == Running && logErr == None
      invariant run == Prefixed(events, RunCycles(cycles[k..], releaseName))
    {
      var c := cycles[k];
      ghost var later := cycles[k + 1..];
      ghost var cycleStart := events;
      EnterCycle(events, cycles, k, releaseName);

      if c.stop {
        state := Stopped(StopSignal);
        assert run == Run(events + [Logged(Stopping(logErr))], state);
        break bail;
      }

      events := events + [Waited];
      if c.wait.Fail? {
        logErr := Some(c.wait.error);
        state := Stopped(WaitFailed(c.wait.error));
        assert run == Run(events + [Logged(Stopping(logErr))], state);
        break bail;
      }

      events := events + [ListedNamespaces];
      if c.namespaces.Err? {
        logErr := Some(c.namespaces.error);
        state := Stopped(NamespaceListFailed(c.namespaces.error));
        assert run == Run(events + [Logged(Stopping(logErr))], state);
        break bail;
      }
      var namespaces := c.namespaces.value;
      Emit(cycleStart, [Waited, ListedNamespaces], SweepNamespaces(namespaces, releaseName), later, releaseName);
      assert events == cycleStart + [Waited, ListedNamespaces];
      assert namespaces[0..] == namespaces;

      for j := 0 to |namespaces|
        invariant state == Running && logErr == None
        invariant run == Resume(events, SweepNamespaces(namespaces[j..], releaseName), later, releaseName)
      {
        var ns := namespaces[j];
        if ns.releases.Err? {
          AbortNamespace(events, namespaces, j, later, releaseName);
          events := events + [ListedReleases(ns.name)];
          logErr := Some(ns.releases.error);
          state := Stopped(ReleaseListFailed(ns.name, ns.releases.error));
          break bail;
        }
        EnterNamespace(events, namespaces, j, later, releaseName);
        events := events + [ListedReleases(ns.name)];
        var fhrs := ns.releases.value;
        ghost var next := SweepNamespaces(namespaces[j + 1..], releaseName);
        assert fhrs[0..] == fhrs;

        for i := 0 to |fhrs|
          invariant state == Running && logErr == None
          invariant run == Resume(events, Before(ReconcileAll(ns.name, fhrs[i..], releaseName), next), later, releaseName)
        {
          var fhr := fhrs[i];
          EnterRelease(events, ns.name, fhrs, i, next, later, releaseName);
          ReconcileCases(ns.name, fhr, releaseName);
          ghost var before := events;
          var name := releaseName(fhr.fhr);
          events := events + [LookedUp(name)];
          if fhr.content.Err? {
            events := events + [Logged(LookupFailed(fhr.content.error))];
            Appended2(before, LookedUp(name), Logged(LookupFailed(fhr.content.error)));
            continue;
          }
          var status := LiveStatus(fhr.content.value);
          if status != fhr.fhr.status.releaseStatus {
            var err: Outcome := fhr.marshal;
            if err.Pass? {
              events := events + [Patched(Patch(ns.name, fhr.fhr.name, MergePatch,
                                                StatusPatchBody(FluxHelmReleaseStatus(status))))];
              err := fhr.patch;
            }
            if err.Fail? {
              events := events + [Logged(PatchFailed(ns.name, fhr.fhr.name, err.error))];
              if fhr.marshal.Pass? {
                Appended3(before, LookedUp(name), Patched(StatusPatch(ns.name, fhr.fhr.name, status)),
                          Logged(PatchFailed(ns.name, fhr.fhr.name, err.error)));
              } else {
                Appended2(before, LookedUp(name), Logged(PatchFailed(ns.name, fhr.fhr.name, err.error)));
              }
              continue;
            }
            Appended2(before, LookedUp(name), Patched(StatusPatch(ns.name, fhr.fhr.name, status)));
          }
        }
        LeaveNamespace(events, ns.name, fhrs, next, later, releaseName);
      }
      LeaveCycle(events, namespaces, later, releaseName);
    }

    if state.Stopped? {
      events := events + [Logged(Stopping(logErr))];
    }
  }
}
