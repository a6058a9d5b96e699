# Helm release annotator: status reconciliation loop

A Dafny model of the status reconciliation loop in flux's Helm integration
(`integrations/helm/annotator/annotator.go`). `Annotator.Loop` keeps the
`status.releaseStatus` field of every FluxHelmRelease in step with the live
status Helm reports for its release. It runs in cycles, and each cycle does
this:

1. check the stop signal;
2. wait on the rate limiter;
3. list the namespaces;
4. list the FluxHelmReleases of each namespace;
5. look up each release in Helm;
6. when the live status string differs from the recorded one, issue a merge
   patch that carries only the new status.

The loop has two kinds of error:

- **Fatal.** A failed wait, a failed namespace listing or a failed release
  listing sets `logErr` and leaves the loop.
- **Per item.** A failed lookup, a failed encoding or a failed patch is
  logged, and the loop goes on with the next release.

When the loop ends, it writes one "stopping" log entry carrying `logErr`.

## How the model is built

- `annotator.dfy`, module `Annotator`, holds the data model, a reference
  definition of the loop and the method `Loop`.
  - The data model covers the FluxHelmRelease and its status, Helm's status
    codes, the patch and its payload, the inputs of each cycle, the trace
    events, the stop reasons and `LoopState`.
  - The reference definition is a set of functions, one for each level of
    nesting: `Reconcile` (one release), `ReconcileAll` (the releases of one
    namespace), `SweepNamespaces` (the namespaces of one cycle), `Cycle` and
    `RunCycles`.
  - `Loop` is the imperative method. It has three nested `for` loops. A
    labelled `break bail` leaves the loop on each fatal path, and `continue`
    skips a release that failed. It appends every Kubernetes, Helm and
    rate-limiter call and every log entry to one trace. The JSON encoding and
    the release-name derivation leave no event. Its postcondition is that the
    trace and the final state it returns equal `RunCycles` of its inputs.
- `properties.dfy`, module `AnnotatorProperties`, proves what the loop
  promises about those reference functions.

Every external call is an input: an outcome the environment supplies.
- Each cycle gives the stop flag, the wait outcome and the result of the
  namespace listing.
- Each namespace gives the result of its release listing.
- Each release gives the result of the Helm lookup, the marshal (JSON
  encoding) outcome and the patch outcome.

`release.GetReleaseName` is the parameter `releaseName`, a function about
which nothing is assumed. The output is one ordered trace of events: waits,
listings, lookups, patch calls and log entries. `Patches`, `Logs`, `Lookups`
and `ReleaseListings` pick one kind of event out of that trace.

The Go loop stops only on the stop signal or on a fatal error. The model
gets a finite list of cycles. If that list runs out while the loop is still
going, `Loop` returns `Running`, and no "stopping" entry has been written.

A failed lookup is logged with the error alone (`logger.Log("err", err)`,
line 84). A failed encoding or patch also names the namespace and resource
(line 104). `LookupFailed` therefore carries only the error, and
`PatchFailed` carries all three.

The generated protobuf getters are nil-safe. A lookup whose content has no
release, info or status therefore yields status code 0, `UNKNOWN`. The model
keeps this edge case: `ReleaseContent.status` can be `None`, and
`LiveStatus` then gives `"UNKNOWN"`.

## Model

| member | source | states |
|---|---|---|
| `Annotator.New` | integrations/helm/annotator/annotator.go:39-47 | The limiter admits one cycle start every 5 seconds (5000 ms) with a burst of 5. |
| `Annotator.Loop` | integrations/helm/annotator/annotator.go:49-117 | The trace of calls and log entries, and the final state, are exactly those of the reference definition `RunCycles`, which every lemma below is about. |
| `AnnotatorProperties.ReconcileViews` | integrations/helm/annotator/annotator.go:80-107 | For one release: exactly one lookup. Exactly one patch when the lookup succeeded, the status drifted and the encoding succeeded, and none otherwise. The log holds exactly the error of whichever step failed. |
| `AnnotatorProperties.DriftAloneTriggersPatch` | integrations/helm/annotator/annotator.go:87-89 | Once the live status is known, a patch is attempted (issued or logged as failed) if and only if the live code string differs from `Status.ReleaseStatus`. In sync, the release costs one lookup and nothing else. |
| `AnnotatorProperties.PatchCarriesOnlyStatus` | integrations/helm/annotator/annotator.go:90-101 | Every issued patch is a merge patch addressed to the release's name in the namespace being swept. Its payload is the live status, which differs from the recorded one. Applied, it changes the recorded status and no other field. |
| `AnnotatorProperties.ReconcileConverges` | integrations/helm/annotator/annotator.go:97-101 | After the merge patch has been applied to the stored resource, reconciling it against the same live status issues no patch and writes no log. |
| `AnnotatorProperties.LookupFailureSkipsOne` | integrations/helm/annotator/annotator.go:82-86 | A failed lookup adds only that lookup and its error log. The releases before and after it in the listing are reconciled exactly as without it. |
| `AnnotatorProperties.PatchFailureSkipsOne` | integrations/helm/annotator/annotator.go:93-106 | A failed encoding or a failed patch call produces exactly one log entry: namespace, resource and that error, as the release's last event. The other releases are reconciled unchanged. |
| `AnnotatorProperties.PerItemIsolation` | integrations/helm/annotator/annotator.go:79-108 | The events of a namespace are those of the releases before release `i`, then release `i`'s own, then those after it. |
| `AnnotatorProperties.ReconcileAllAppend` | integrations/helm/annotator/annotator.go:79-108 | Reconciling a listing `a + b` gives the events of `a` followed by those of `b`: the processing order is the listing order. |
| `AnnotatorProperties.LookupsFollowListing` | integrations/helm/annotator/annotator.go:79-82 | Within a namespace, the Helm lookups are exactly the derived names of the listed releases, one each, in listing order, whatever fails. |
| `AnnotatorProperties.PatchesOfNamespace` | integrations/helm/annotator/annotator.go:79-107 | A patch is issued in a namespace if and only if it is the status patch of a listed release whose lookup succeeded, whose status drifted and whose encoding succeeded. |
| `AnnotatorProperties.PatchesInListingOrder` | integrations/helm/annotator/annotator.go:79-107 | The patches issued in a namespace are exactly one status patch per release that needs one, in listing order. |
| `AnnotatorProperties.PatchesOfSweep` | integrations/helm/annotator/annotator.go:72-109 | The patches of a sweep are those owed by each namespace whose releases it lists, in namespace order. A failed release listing cuts off every later namespace's patches. |
| `AnnotatorProperties.PatchesOfCycle` | integrations/helm/annotator/annotator.go:55-109 | A cycle issues no patch when it stops, when its wait fails or when the namespace listing fails. Otherwise its patches are those of its sweep. |
| `AnnotatorProperties.SweepCompletes` | integrations/helm/annotator/annotator.go:72-78 | The sweep over namespaces ends the loop if and only if some namespace fails to list its releases. |
| `AnnotatorProperties.SweepListsInOrder` | integrations/helm/annotator/annotator.go:72-74 | When every release listing succeeds, each namespace's releases are listed once, in namespace listing order. |
| `AnnotatorProperties.SweepAppend` | integrations/helm/annotator/annotator.go:72-109 | Sweeping namespaces `a + b`, where every listing in `a` succeeds, gives the events of `a` followed by the sweep of `b`. |
| `AnnotatorProperties.ReleaseListFailureEndsSweep` | integrations/helm/annotator/annotator.go:73-78 | When the release listing of namespace `j` fails, the earlier namespaces were swept completely and their patches stand. The failing listing is the sweep's last call, and `ReleaseListFailed` is its stop reason. |
| `AnnotatorProperties.LaterNamespacesNotVisited` | integrations/helm/annotator/annotator.go:72-78 | After a failed release listing in namespace `j`, the namespaces whose releases were listed are exactly those up to `j`, in order. |
| `AnnotatorProperties.CycleCompletesIff` | integrations/helm/annotator/annotator.go:55-109 | A cycle ends the loop if and only if stop is signalled, the wait fails, or the namespace listing or a release listing fails. Per-item errors never end it. |
| `AnnotatorProperties.FirstAbortEndsRun` | integrations/helm/annotator/annotator.go:53-116 | The first cycle that ends the loop is followed by exactly one "stopping" entry carrying `logErr`. No later cycle begins. The cycles before it left the loop running. |
| `AnnotatorProperties.StopSignalEndsRun` | integrations/helm/annotator/annotator.go:55-59 | The stop signal is checked before any work. In the cycle that sees it there is no wait and no listing. The only entry is "stopping" with a nil error, and no further cycle begins. |
| `AnnotatorProperties.WaitFailureEndsRun` | integrations/helm/annotator/annotator.go:61-64 | A failed limiter wait ends the loop before anything is listed, and the "stopping" entry carries that error. |
| `AnnotatorProperties.NamespaceListFailureEndsRun` | integrations/helm/annotator/annotator.go:67-71 | A failed namespace listing ends the loop with `logErr` set to that error. No release of that cycle is listed, looked up or patched. |
| `AnnotatorProperties.ReleaseListFailureEndsRun` | integrations/helm/annotator/annotator.go:73-78 | A failed release listing ends the loop at once with `logErr` set. The events of the earlier namespaces of that cycle stand. No later namespace or cycle is visited. |
| `AnnotatorProperties.ExactlyOneStoppingEntry` | integrations/helm/annotator/annotator.go:116 | A stopped run has written exactly one "stopping" entry, as its last event, carrying the `logErr` of its stop reason. A run that is still going has written none. |
| `AnnotatorProperties.StoppingErrNilIffSignal` | integrations/helm/annotator/annotator.go:51-116 | The trace holds the single "stopping" entry with a nil `err` if and only if the run stopped on the signal. `logErr` is set only on the fatal paths. |

## Left out

- Rate-limiter timing and burst behaviour (`golang.org/x/time/rate`): this library is not part of this model, and it works on wall-clock time. A wait is only an outcome, success or failure. So the time bound between cycle starts is not modelled, and `New` only records the configuration.
- The stop channel and `context.Background()`: the `select` with a `default:` branch (lines 55-59) never blocks, and it becomes a flag in each cycle's input. The context is never cancelled. The wait outcome is an unconstrained input that the model lets fail, whatever the cause.
- Kubernetes and Helm client calls (listing namespaces and FluxHelmReleases, `ReleaseContent`, `Patch`): these are network I/O. Their results are inputs, and their call order is kept in the trace.
- `json.Marshal`: modelled as an outcome that may fail. The payload is the typed body `StatusPatchBody`, which holds only the status. JSON bytes are not modelled.
- `release.GetReleaseName`: its source is not part of this model. It is the function parameter `releaseName`, about which nothing is assumed.
- The API server's merge-patch semantics: `ApplyMergePatch` states the effect the patch is meant to have on the stored resource. The store itself, and other writers racing on it (last writer wins), are not modelled.
- The rendering of Helm status codes (`Status_Code.String()`): this generated code is not part of this model. `CodeString` restates the nine code names. `StatusCode` is a closed enum, so the model cannot express a code outside those nine, which the generated `String()` would render as its number.
- The debug `println` calls (lines 81 and 88) and the go-kit logger backend: these are output plumbing. Log entries are abstract values in the trace.
- Running forever: the model follows a finite list of cycles. `Running` marks a run whose list ran out before the loop stopped.
- The TODO comment at lines 111-113: it describes no implemented behaviour.
- `cluster/kubernetes/resource/deployment.go`: a passive data shape whose only method delegates to code that is not part of this model.
