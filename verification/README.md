# Owner-reference reconciliation, modelled in Dafny

This project models the owner-reference update of kubexporter (`pkg/uor/update.go`). The tool exports
Kubernetes manifests to disk. Each exported manifest may carry `metadata.ownerReferences`, and each
reference names its owner by kind, apiVersion, name and uid. When an owner has been recreated since the
export, the recorded uid is stale. `Update` walks the exported files. For each file, `updateFile` resolves
every owner reference against the live cluster, corrects stale uids in place, and writes the file back
when something changed. Every correction and every owner that could not be resolved is reported as a row
of a summary table.

The model is functional. References, owners, documents and rows are immutable datatypes. The cluster is
an oracle value `Remote` with three opaque parts: apiVersion parsing, kind-to-resource mapping, and the
fetch. The file system is an oracle value `Files` that reads and writes documents. The loop of
`updateFile` is a fold (`Reconcile.ReconcileUpTo`) that threads four things of the source through the
reference list: the reference list itself, a `map<string, Owner>` memo, the row sequence and the `changed`
flag. It also threads a fifth, `visits`, that has no counterpart in the source: a record of what each
reference's lookup returned and whether it was `consulted`: the memo missed and `Resolve` was evaluated. The lemmas use it to state what the memo does. The
memo-free description in `ReconcileFacts` says what each reference sees, and the lemmas connect the fold
to it.

Modules, leaf first:

- `Wrappers`, `Objects` (objects.dfy): `Option`, `Result`, and the owner reference, owner, document and row types. Also the markers, the table header and the notice text.
- `Remote` (remote.dfy): the cluster oracle and `Resolve`, which is `findOwner` without its memo.
- `Owners` (owners.dfy): the memo key and `FindOwner`.
- `Paths` (paths.dfy): `strings.Replace(…, 1)` and the relative file name used in the rows.
- `Reconcile` (reconcile.dfy): one reference step, the loop, the write decision and `UpdateFile`.
- `ReconcileFacts` (reconcile_facts.dfy): a memo-free reference description, and the two induction theorems that tie the loop to it.
- `ReconcileProperties` (reconcile_properties.dfy): memo behaviour, idempotence, the write decision and scenarios.
- `Run` (run.dfy): the file loop of `Update` and the final report.

Two behaviours of the code are easy to miss:

- The memo is created inside `updateFile` (update.go:74). So it lasts for one file, not for the whole run. A later file asks the remote again for an owner that an earlier file already resolved (`ReconcileProperties.MemoStartsEmptyPerFile`).
- A malformed apiVersion makes `findOwner` return an error (update.go:124-126). That error takes the same non-fatal path as every other lookup failure (update.go:79-92). The reference gets an `<ERROR>` row and the run goes on. It does not abort (`ReconcileProperties.MalformedApiVersionIsNotFatal`).

## Model

| member | source | states |
|---|---|---|
| `Remote.Resolve` | pkg/uor/update.go:124-138 | A malformed apiVersion gives a generic failure, never "not found". So does a kind with no REST mapping. When both steps succeed, the fetch decides the result. |
| `Owners.FindOwner` | pkg/uor/update.go:118-141 | On a memo hit, returns the stored owner and does not consult the remote. On a miss, consults the remote. Only a successful lookup is stored under the key. Existing entries never change. |
| `Owners.CacheKeyRoundTrip` | pkg/uor/update.go:119 | The memo key `CacheKey` is built from namespace, apiVersion and name; kind and uid do not enter it. When neither namespace nor apiVersion contains `#`, `SplitKey` reads all three parts back from the key. |
| `Owners.CacheKeyInjective` | pkg/uor/update.go:119 | When neither namespace nor apiVersion contains `#`, equal keys mean equal namespace, apiVersion and name. |
| `Paths.IndexFrom` | pkg/uor/update.go:68 | Returns the leftmost occurrence of the pattern at or after a position. There is no occurrence before it, and None means there is no occurrence at all. |
| `Paths.ReplaceFirst` | pkg/uor/update.go:68 | Replaces the leftmost occurrence with the replacement. With no occurrence, the string is returned unchanged. |
| `Paths.RelativeName` | pkg/uor/update.go:68 | Removes the first occurrence of `target + "/"` anywhere in the path, shortening it by that length. Without an occurrence the path is unchanged. |
| `Paths.RelativeNameStripsRoot` | pkg/uor/update.go:68 | A path that starts with `target + "/"` is reported as the remainder. |
| `Paths.RelativeNameCutsInside` | pkg/uor/update.go:68 | The removal is not anchored at the start: `a/out/p` under root `out` is reported as `a/p`. |
| `Reconcile.Step` | pkg/uor/update.go:78-105 | A failed lookup appends one row: the recorded uid, then `<NOT FOUND>` or `<ERROR>`. The reference and the flag stay as they were. A different live uid replaces the reference's uid at its index and appends one old-to-new row. It also sets `changed`. An equal uid adds no row and changes nothing. |
| `Reconcile.ReconcileUpTo` | pkg/uor/update.go:73-106 | After `n` references the list has its original length. Every entry keeps its kind, apiVersion and name. References not yet handled are untouched. Every row carries the file name. |
| `Reconcile.ReconcileRefs` | pkg/uor/update.go:77-106 | The reconciled list has the same length as the input. Every entry keeps its kind, apiVersion and name, and each reference is visited exactly once. |
| `Reconcile.ReconcileDocument` | pkg/uor/update.go:73-114 | A document without owner references yields no rows and no write. A written document keeps its namespace and body. Its reference list has the same length and the same owner identities. |
| `Reconcile.UpdateFile` | pkg/uor/update.go:67-116 | A read failure is returned as the file's error. Any other error is a failed write of the document that was to be written. On success, the rows and the write are those of the reconciled document, reported under the relative name, and the write succeeded. |
| `ReconcileFacts.FirstSuccess` | pkg/uor/update.go:119-139 | Finds the first earlier reference whose key matches and whose lookup succeeds. None means no such reference exists. |
| `ReconcileFacts.MemoStep` | pkg/uor/update.go:119-139 | One lookup keeps the memo invariant: the memo holds, for each key, the owner of the first successful lookup. The reference sees that owner without asking the remote. If there is none, it sees a fresh lookup. |
| `ReconcileFacts.VisitsAreObserved` | pkg/uor/update.go:74-105 | Over the whole loop, each reference sees exactly the memo-free observed lookup. The memo holds exactly the first successful owner per key. |
| `ReconcileFacts.OutcomeFollowsVisits` | pkg/uor/update.go:77-106 | Each handled reference is corrected by its own lookup. The rows are the per-reference rows in declared order. `changed` holds exactly when some uid was corrected. |
| `ReconcileProperties.ReconcileRefsSpec` | pkg/uor/update.go:73-106 | The whole loop visits every reference in order. Each reference is corrected by what it saw, including after earlier failures. The rows come in reference order, and `changed` holds exactly when some uid was corrected. |
| `ReconcileProperties.SharedKeySeesSameOwner` | pkg/uor/update.go:119-122 | Once a key has been resolved successfully, each later reference with that key sees the same owner. It reads it from the memo without asking the remote. |
| `ReconcileProperties.AtMostOneSuccessfulConsultPerKey` | pkg/uor/update.go:119-139 | Within one file, the remote answers successfully at most once per key. |
| `ReconcileProperties.FailuresAreNotRemembered` | pkg/uor/update.go:136-139 | A reference whose key has had no successful lookup earlier in the file asks the remote afresh. A failure is never served from the memo. |
| `ReconcileProperties.MemoStartsEmptyPerFile` | pkg/uor/update.go:74 | The first reference of every document asks the remote, because the memo is created per file. |
| `ReconcileProperties.MalformedApiVersionIsNotFatal` | pkg/uor/update.go:79-92 | A reference whose apiVersion does not parse keeps its uid and gets an `<ERROR>` row in its place. Every reference of the file is still visited. |
| `ReconcileProperties.MemoIsTransparent` | pkg/uor/update.go:119-122 | When every two references with equal keys resolve alike, each reference sees what a fresh lookup would return. |
| `ReconcileProperties.KindIsNotPartOfTheKey` | pkg/uor/update.go:119 | The key omits the kind. A ReplicaSet reference after a Deployment reference with the same apiVersion and name is given the Deployment's uid. |
| `ReconcileProperties.VisitsIgnoreUids` | pkg/uor/update.go:119-135 | Lookups depend only on kind, apiVersion and name. Two lists that differ only in uids see the same lookups. |
| `ReconcileProperties.ReconcileIdempotent` | pkg/uor/update.go:77-105 | Reconciling the corrected list again against the same remote sees the same lookups. It changes no reference and does not set `changed`. Its rows are exactly the rows of the lookups that failed, in declared order. |
| `ReconcileProperties.WrittenIffUidCorrected` | pkg/uor/update.go:95-113 | A document is written exactly when some uid was corrected, which is exactly when its reference list changed. It is written with the corrected list and everything else unchanged. The rows are the per-reference rows in order. |
| `ReconcileProperties.DocumentIdempotent` | pkg/uor/update.go:107-113 | A written document, reconciled again against the same remote, is not written again. Its rows are exactly the rows of the lookups that failed the first time. |
| `ReconcileProperties.StaleOwnerScenario` | pkg/uor/update.go:67-113 | Consider `pod.yaml` owned by ReplicaSet `rs-a`, recorded uid `old-uid`, live uid `new-uid`. It is written with `new-uid` and produces exactly one row `(pod.yaml, ReplicaSet, rs-a, old-uid, new-uid)`. |
| `ReconcileProperties.MissingOwnerDoesNotStopTheFile` | pkg/uor/update.go:79-105 | Take three references where the middle owner is missing. The first and third are still corrected and reported, around a `<NOT FOUND>` row. |
| `Run.Lines` | pkg/uor/update.go:48-63 | The lines handed to the table (update.go:49, 85-102): either the notice alone, or the header `File, Owner Kind, Owner Name, UID From, UID To` followed by one line per row. Each table line has one cell per column and reads back as its row. |
| `Run.Render` | pkg/uor/update.go:59-63 | The notice is shown exactly when no row was collected. Otherwise the table holds exactly the collected rows. |
| `Run.Update` | pkg/uor/update.go:52-63 | The run fails exactly when some file's update fails, and then with the error of the first such file. Otherwise it shows the notice exactly when no file reported a row. Writes and the rows in file order are in `RunStopsAtFirstError` and `RunCompletes`, with `FileStep(files, remote, target)` as the per-file update. |
| `Run.RunOutcome` | pkg/uor/update.go:52-63 | For any per-file update, the file loop fails exactly when some file fails, with the first failing file's error. Otherwise it shows the notice exactly when no file reported a row. |
| `Run.FirstFailure` | pkg/uor/update.go:52-57 | Finds the first file whose update fails. Every file before it succeeds. |
| `Run.RunUpToSpec` | pkg/uor/update.go:52-57 | Before any failure, the file loop holds the rows and writes of every file in order. After a failure, it holds the first failing file's error and the writes made before it. |
| `Run.RunStopsAtFirstError` | pkg/uor/update.go:52-57 | For any per-file update, the loop fails with the first failing file's error and renders no report. The writes of the files before it remain. |
| `Run.RunCompletes` | pkg/uor/update.go:52-63 | When every file's update succeeds, the file loop completes (`Update` is this loop with `UpdateFile` as the per-file update). It reports all rows in file order, as the notice when there are none and as the table otherwise, and keeps every write. |

## Left out

- Configuration validation, the directory walk and its extension filter (update.go:22-41): `Update` is modelled from the list of walked paths onward. These steps are setup and library I/O.
- Creating the API client (update.go:43-46): the client is the `Remote` oracle value, passed in.
- `schema.ParseGroupVersion`, `RESTMapping` and the dynamic-client `Get` (update.go:124-138): library and network calls. They are the three opaque parts of `Remote`. `errors.IsNotFound` is the `NotFound` tag of the fetch result. Parse and mapping failures are `OtherError`, as `IsNotFound` is false for them.
- `read` and `write` (update.go:143-171): YAML/JSON decoding, serialisation and file handles. They are the `Files` oracle, which maps a path to a decoded document or an error, and a write to success or an error. The truncation that `os.O_TRUNC` causes before a failed write is not modelled.
- Table rendering and console output (update.go:48-49, 59-63): the table is its row sequence. Printing the notice or rendering the table is the `Report` value.
- The `context` argument: plumbing with no effect on the logic.
- The cluster does not change during a run and answers each question the same way: `Remote` is one fixed value, and each memo miss is a pure `Resolve`. Transient failures are not modelled, such as a `Get` that fails and then succeeds for the same owner. Not caching failures (update.go:136-139) exists for that case. `ReconcileIdempotent`, `MemoIsTransparent` and `VisitsIgnoreUids` rely on the fixed answers.
- `OwnerRef` has only kind, apiVersion, name and uid. The other fields of `v1.OwnerReference`, `Controller` and `BlockOwnerDeletion`, are passed through `SetOwnerReferences` (update.go:108) unchanged in the source. The model does not carry them, so it does not state that they are preserved.
- Go strings are bytes and Dafny strings are characters. Substring search behaves the same on valid UTF-8, so the model uses characters.
- `Reconcile.UpdateFile`: after a failed write, the rows already appended for that file are not returned. The run discards them with the error, so nothing observable is lost.

## Behaviour worth knowing

- The memo key is `namespace#apiVersion#name` and omits the kind. Two references with the same apiVersion and name but different kinds share one lookup (`KindIsNotPartOfTheKey`). `MemoIsTransparent` states the condition under which the memo has no visible effect.
- Each file is reconciled with a fresh memo, so the remote may be asked again for the same owner in every file.
