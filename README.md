# mcp-lsp: diagnostic waiters, server detection and affected files, in Dafny

This project models three pieces of the Go MCP language-server bridge and
proves what they promise.

- **Diagnostic waiters** (`internal/lsp/diagnostic_waiters.go`). A caller of
  `WaitForDiagnostics` registers a one-shot waiter channel for a document URI.
  `notifyDiagnosticWaiters` closes every waiter of a URI when a round of
  diagnostics is published. After the first notification the call enters
  `settleDiagnostics`, which re-registers a fresh waiter each round until the
  settle timer expires or the context is cancelled. `removeWaiter` takes one
  waiter out again.
  - Class `DiagnosticWaiters.Client` holds the registry map, the set of fired
    (closed) channels, the next fresh handle and the diagnostics cache. Every
    lock-guarded critical section is one atomic method that updates these
    fields in place.
  - Real time and concurrency are replaced by the sequence of events a call
    observes:
    - `Publish(uri, diagnostics)`: the cache is set, then the URI's waiters are
      notified;
    - `Timeout`: the caller's timeout;
    - `TimerExpire`: the settle timer;
    - `Cancel(err)`: the context is done.
  - Module `WaitSpec` states what a call answers as functions of those events.
  - Module `WaiterRegistry` states the registry operations as functions on
    values, together with their invariant.
  - Module `WaitEffects` states what a whole call does to the registry.
- **Server detection** (`internal/lsp/server_detection.go`). A fixed, ordered
  table of ten marker files is searched. The first marker present in the
  workspace decides the language server command. When none is present, the
  error lists every marker in table order. File existence is given as the set
  of marker names present in the workspace.
- **Affected files** (`internal/tools/notify.go`, module `Tools`). `AffectedFiles` collects,
  with `file://` stripped:
  - the paths of a workspace edit's `changes` keys;
  - the paths of the documents of its text document edits.

  Each path is reported once, in the unspecified order of a Go map iteration.

Modules `Wrappers` (Option, Result) and `Protocol` (the LSP value types used
here) are shared by the others.

## Model

| member | source | states |
|---|---|---|
| DiagnosticWaiters.Client.NotifyDiagnosticWaiters | internal/lsp/diagnostic_waiters.go:18-26 | closes every waiter of the URI, none of them already closed, and deletes the entry; the registry invariant is kept and the new state is `Notify` of the old |
| DiagnosticWaiters.Client.RemoveWaiter | internal/lsp/diagnostic_waiters.go:88-102 | the new registry is `Remove` of the old: the first occurrence of the handle is cut out and the key is deleted when empty; the invariant is kept |
| DiagnosticWaiters.Client.AddWaiter | internal/lsp/diagnostic_waiters.go:33-38 | a fresh, unfired handle is appended to the URI's waiters (`Register`), keeping the invariant |
| DiagnosticWaiters.Client.PublishDiagnostics | internal/lsp/diagnostic_waiters_test.go:76-81 | ingress of a publication: the cache entry is replaced, then the URI's waiters are notified |
| DiagnosticWaiters.Client.WaitForDiagnostics | internal/lsp/diagnostic_waiters.go:32-53 | the answer is `WaitSpec.Wait` of the starting cache and the events; returned diagnostics are what GetFileDiagnostics reads at the moment of return; the registry ends as `WaitRun` of the starting one |
| DiagnosticWaiters.Client.SettleDiagnostics | internal/lsp/diagnostic_waiters.go:59-85 | the settle loop answers `ResultOf` its `SettleFrom` exit; its registry effect is `SettleRun`; the cache is the starting one with the consumed events applied |
| DiagnosticWaiters.Client.SettleThenLeave | internal/lsp/diagnostic_waiters.go:41-47 | settling, then the deferred removal of the first waiter when the loop returned |
| DiagnosticWaiters.Client.SetDiagnostics | internal/lsp/diagnostic_waiters_test.go:76-80 | the cache write of a publication: the URI's entry becomes the new set and every other entry is kept |
| DiagnosticWaiters.Client.AwaitTurn | internal/lsp/diagnostic_waiters.go:44-52 | one event in the first select: on Timeout or Cancel the call removes its waiter and returns the cache as it is then with the event's error, leaving the registry at `AwaitRun`'s end; other URIs' notifications and the unstarted settle timer leave it waiting with its waiter registered, one event further along `AwaitFrom` and `CacheAt` |
| DiagnosticWaiters.Client.AwaitPublication | internal/lsp/diagnostic_waiters.go:44-47 | a publication during the first select: the cache is updated and the URI notified; when that closed the call's waiter the call settles and returns the `SettleFrom` answer, otherwise it keeps waiting with its waiter registered |
| DiagnosticWaiters.Client.SettleTurn | internal/lsp/diagnostic_waiters.go:69-83 | one event in the settle select: an own round re-registers a fresh waiter and continues, another URI's round or the caller's timeout continues, a timer expiry (no error) or a cancellation (its error) removes the waiter and returns the cache as it is then; the registry follows `SettleRun` |
| WaitSpec.CacheHoldsLastPublication | internal/lsp/diagnostic_waiters_test.go:76-81 | the cache of a URI holds exactly the diagnostics of its last publication, or its starting contents if there was none |
| WaitSpec.SettleEndsAtTimerOrCancel | internal/lsp/diagnostic_waiters.go:69-83 | the settle loop returns only at a timer expiry (no error) or a cancellation (its error) |
| WaitSpec.AwaitEnds | internal/lsp/diagnostic_waiters.go:44-52 | the first phase ends only at the timeout or a cancellation and only while no notification of the URI has arrived; otherwise the call has settled after a notification |
| WaitSpec.FirstPhaseReturnsCache | internal/lsp/diagnostic_waiters.go:48-51 | a call ending in the first phase returns the cache as it is at the return, which in this model is the cache it started with (no publication of its URI can have come before), with the cancellation error, or no error on timeout |
| WaitSpec.SettledReturnsLastRound | internal/lsp/diagnostic_waiters.go:77-82 | a settled call returns the diagnostics of the last round published before it ended, never data cached before the first notification, with the cancellation error or none on timer expiry |
| WaitSpec.ReturnsOnlyAtTimeoutTimerOrCancel | internal/lsp/diagnostic_waiters.go:44-83 | no call returns at a publication |
| WaitSpec.SettlesOnSecondRound | internal/lsp/diagnostic_waiters_test.go:233-268 | two rounds then quiet: the second, complete round is returned with no error |
| WaitSpec.WaitsPastStaleCache | internal/lsp/diagnostic_waiters_test.go:64-93 | stale cached data is not returned; the call waits for the fresh round |
| WaitSpec.CancelBeforeAnyPublication | internal/lsp/diagnostic_waiters_test.go:127-155 | a deadline before any publication returns empty diagnostics and the deadline error |
| WaitSpec.TimeoutBeforeAnyPublication | internal/lsp/diagnostic_waiters_test.go:157-176 | a timeout before any publication returns empty diagnostics and no error |
| WaiterRegistry.RegisterKeepsValid | internal/lsp/diagnostic_waiters.go:33-37 | the new handle is unfired and held nowhere; registering keeps the invariant and appends it to the URI's waiters |
| WaiterRegistry.NotifyKeepsValid | internal/lsp/diagnostic_waiters.go:22-25 | notifying keeps the invariant: no empty entry, every held handle unfired and held once |
| WaiterRegistry.RemoveKeepsValid | internal/lsp/diagnostic_waiters.go:92-101 | removing keeps the invariant |
| WaiterRegistry.NotifyFiresExactly | internal/lsp/diagnostic_waiters.go:22-25 | after notify every waiter of the URI is fired and the URI has no entry; no other waiter is fired; other URIs keep their waiters, unfired |
| WaiterRegistry.NotifyAbsentIsNoop | internal/lsp/diagnostic_waiters.go:22-25 | notifying a URI without waiters changes nothing |
| WaiterRegistry.NotifyFiresOwn | internal/lsp/diagnostic_waiters.go:22-25 | a registered waiter fires exactly when its own URI is notified, and otherwise stays registered |
| WaiterRegistry.RemoveFirstAt | internal/lsp/diagnostic_waiters.go:93-97 | the first occurrence, and only it, is cut out, the rest keeping its order |
| WaiterRegistry.RemoveFirstContents | internal/lsp/diagnostic_waiters.go:93-97 | removal takes away one copy of the handle if there is one, and nothing else |
| WaiterRegistry.RemoveFirstNoDuplicates | internal/lsp/diagnostic_waiters.go:93-97 | on a duplicate-free sequence the handle is gone entirely afterwards |
| WaiterRegistry.DistinctAt | internal/lsp/diagnostic_waiters.go:22-24 | in a duplicate-free waiter sequence different positions hold different handles, so the close loop never closes one twice |
| WaiterRegistry.RemoveAbsentIsNoop | internal/lsp/diagnostic_waiters.go:92-101 | removing a handle the URI does not hold, such as one cleared by notify, changes nothing |
| WaiterRegistry.RemoveTakesOutOne | internal/lsp/diagnostic_waiters.go:92-101 | removing a held handle cuts out exactly it, keeps the order, deletes the key exactly when it was the last, and leaves other URIs, the fired set and the counter alone |
| WaiterRegistry.RemoveIsIdempotent | internal/lsp/diagnostic_waiters.go:92-101 | removing twice equals removing once |
| WaiterRegistry.RegisterThenRemove | internal/lsp/diagnostic_waiters.go:37-41 | registering and then removing the same waiter restores the registry |
| WaiterRegistry.NotifiedInStages | internal/lsp/diagnostic_waiters.go:22-25 | two rounds of notification fire the same waiters as one round over both URI sets |
| WaiterRegistry.LeftIsValid | internal/lsp/diagnostic_waiters.go:41 | the registry a returned call leaves satisfies the invariant |
| WaiterRegistry.DeregisterWhileWaiting | internal/lsp/diagnostic_waiters.go:78-82 | removing the call's waiter leaves the registry as the notifications left it |
| WaiterRegistry.PublishOtherWhileWaiting | internal/lsp/diagnostic_waiters.go:44-52 | a notification of another URI leaves the call's waiter registered and unfired |
| WaiterRegistry.PublishOwnWhileWaiting | internal/lsp/diagnostic_waiters.go:45-47 | a notification of the call's URI fires its waiter and clears the entry |
| WaiterRegistry.WaitThenSettle | internal/lsp/diagnostic_waiters.go:47 | the first phase followed by the settle loop composes: the notified URIs add up and so do the call's own fired handles |
| WaitEffects.SettleRunEffect | internal/lsp/diagnostic_waiters.go:63-84 | the settle loop either leaves, with its waiter removed, the notified entries cleared and exactly their waiters plus its own fired, or is still waiting with its newest waiter registered |
| WaitEffects.AwaitRunEffect | internal/lsp/diagnostic_waiters.go:43-52 | the same for the first phase followed by the settle loop |
| WaitEffects.WaitRunEffect | internal/lsp/diagnostic_waiters.go:32-53 | every exit path deregisters the call's waiters: once returned the invariant holds, the registry is the starting one without the published URIs' entries, exactly those entries' waiters plus the call's own are fired, and only older handles are held |
| ServerDetection.DetectServer | internal/lsp/server_detection.go:34-56 | the result is `Detect`: the detection of the first present rule, or the error listing all markers |
| ServerDetection.FirstPresent | internal/lsp/server_detection.go:35-43 | the index found has its marker present and none before it does; none found means no marker from the start on is present |
| ServerDetection.Markers | internal/lsp/server_detection.go:45-48 | one marker per rule, each rule's own, in table order |
| ServerDetection.MarkersAreDistinct | internal/lsp/server_detection.go:21-32 | no two rules share a marker |
| ServerDetection.FirstPresentRuleWins | internal/lsp/server_detection.go:35-43 | the lowest-index rule with a present marker decides, whatever later markers are present |
| ServerDetection.FailsIffNoMarker | internal/lsp/server_detection.go:45-55 | detection fails exactly when no marker is present, and then with the marker-listing error |
| ServerDetection.DetectionComesFromTable | internal/lsp/server_detection.go:38-41 | a successful detection is the command and args of a rule whose marker is present |
| ServerDetection.LaterMarkerChangesNothing | internal/lsp/server_detection.go:35-43 | adding a marker whose rule comes after a present marker's rule does not change the result |
| ServerDetection.SingleMarkerSelectsItsRule | internal/lsp/server_detection.go:21-41 | a workspace with a single marker gets exactly that rule's command and args |
| ServerDetection.JoinAround | internal/lsp/server_detection.go:54 | strings.Join keeps every part in order with the separator between neighbours |
| ServerDetection.MessageListsMarkers | internal/lsp/server_detection.go:50-54 | the error message names each marker, in order, separated by ", ", between the fixed beginning and end |
| ServerDetection.TsconfigSelectsTypeScriptServer | internal/lsp/tests/server_detection_test.go:38-43 | `tsconfig.json` gives `typescript-language-server --stdio` |
| ServerDetection.GoModBeatsPackageJson | internal/lsp/tests/server_detection_test.go:85-90 | `go.mod` with `package.json` gives `gopls` |
| ServerDetection.TsconfigBeatsPyproject | internal/lsp/tests/server_detection_test.go:91-95 | `tsconfig.json` with `pyproject.toml` gives the TypeScript server |
| ServerDetection.EmptyWorkspaceFails | internal/lsp/tests/server_detection_test.go:79-83 | an empty workspace is an error |
| Tools.AffectedFiles | internal/tools/notify.go:11-31 | the result has no duplicates, holds exactly the affected paths, and its length is their number |
| Tools.AddChangedPaths | internal/tools/notify.go:14-17 | adds the stripped path of every `changes` key, whatever the visiting order |
| Tools.AddEditedPaths | internal/tools/notify.go:19-24 | adds the stripped path of every non-nil text document edit |
| Tools.ListPaths | internal/tools/notify.go:26-30 | lists every collected path exactly once |
| Tools.TrimPrefix | internal/tools/notify.go:15 | the prefix is taken off exactly when present; otherwise the string is unchanged |
| Tools.PathOfStripsOnlyTheScheme | internal/tools/notify.go:15-21 | a URI without `file://` is its own path; one with it loses exactly the scheme |
| Tools.EditedPathsContents | internal/tools/notify.go:19-24 | a path comes from the document changes exactly when some entry has a text document edit of that path |
| Tools.AffectedPathsContents | internal/tools/notify.go:11-31 | a path is affected exactly when it is the path of a `changes` key or of an edited document |
| Tools.NilEntryAddsNothing | internal/tools/notify.go:20 | an entry without a text document edit adds no path |
| Tools.EditEntryAddsItsPath | internal/tools/notify.go:20-22 | an entry with a text document edit adds exactly its document's path |
| Tools.EmptyEditAffectsNothing | internal/tools/notify_test.go:86-92 | an empty edit affects nothing |
| Tools.NilTextDocumentEditAffectsNothing | internal/tools/notify_test.go:94-106 | a nil text document edit contributes nothing |
| Tools.FileUriLosesScheme | internal/tools/notify_test.go:10-27 | `file:///workspace/main.go` becomes `/workspace/main.go` |
| Tools.BothSourcesCountOnce | internal/tools/notify_test.go:60-84 | the same document in both sources is reported once |

## Left out

- Real time: the 1500 ms settle period, `time.After`, `time.NewTimer` and its `Stop`/drain/`Reset` idiom are replaced by the `Timeout` and `TimerExpire` events. A call's events are a finite sequence, so a call can also still be waiting when they run out (`StillWaiting`).
- A publication is one event for the waiting call. In Go the cache write and the notification are two separately locked steps, and a `select` with several ready cases picks one at random. A call that returns at its timeout or cancellation between a publication's cache write and its notification, or while its channel is already closed, is not modelled: the order of the events decides. So in Go a first-phase return can also carry a set that was written after the call started.
- Goroutines and the mutex: each locked section is one atomic method, and the events are what a single call observes. Interleavings of several concurrent callers, the race-detector test, and a round published between a waiter's firing and the settle loop's re-registration are not modelled.
- Go channels are reduced to a handle and a "fired" flag; `context.Context` is reduced to a cancellation event carrying `ctx.Err()`.
- `HandleDiagnostics`, the JSON decoding of publish parameters and `GetFileDiagnostics` are not part of this model. A publication is "set the cache, then notify", and GetFileDiagnostics reads the cache, empty for an unknown URI.
- DetectServer: `os.Stat(filepath.Join(dir, marker))` is replaced by membership in a set of present marker names. In Go a directory carrying a marker's name, or a file the process cannot stat, is treated the same way as presence or absence of that name here.
- DetectServer: the error is modelled as its message text; the `fmt.Errorf` wrapping and `%s` formatting are spelled out as string concatenation.
- AffectedFiles: Go's map iteration order is unspecified. The loops pick any unvisited key (`:|`), and the output order is not stated.
- Only the fields used here are modelled. A diagnostic is its message, a text edit its new text, and a text document edit its document URI and edits (`TextDocument.URI` flattened to `uri`). Strings are sequences of characters, without encodings.
- `watcher.matchesPattern`, `Client.NotifyChange` and `internal/tools/logging.go` are not part of this model: there is no source for the first two, and the last only builds a logger.
