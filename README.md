# cronetes: launch and reap, modelled in Dafny

cronetes gives Kubernetes batch jobs cron semantics. Its `cron` command fires
each configured schedule and, on every firing, submits a fresh copy of that
schedule's job template to the configured namespace: the copy is renamed
`<name>-<12 hex digits>` when random slugs are on and always carries the label
`cronetes=true`. Its `reap` command lists the jobs carrying that label,
computes `cutoff = now - age`, and deletes every listed job created no later
than the cutoff, in listing order, first deleting the pods its selector picks
out when dependents are to be deleted. A failed job listing ends the pass with
exit code 1; a selector that does not convert, a failed pod deletion or a
failed job deletion ends it with exit code 3. As written, a failed listing of
a job's pods does not end the pass: provided the client returns an empty
result along with the error, the job is deleted as if it had no pods (the
client is not part of this model; see Findings). The model checks that
listing too and ends the pass with exit code 3 there.

The model:

- `wrappers.dfy`: `Option`.
- `hex.dfy` (module `Hex`): `getRandomSlug` as the lower-case hex encoding of
  six bytes, with its inverse and injectivity.
- `cluster.dfy` (module `Cluster`): jobs, pods, label selectors, and the class
  `Namespace` (fields `jobs` and `pods`) standing for the client scoped to the
  configured namespace: create, list and delete. The failures of the remote
  calls are inputs. `Valid()` says names are unique in the namespace.
- `cron.dfy` (module `Cron`): the job a firing submits (`Launched`, a pure
  function) and the firing itself (`Fire`, a method that changes the
  namespace).
- `reap.dfy` (module `Reaper`): the reap pass as functions over a value of the
  namespace (`DeletePods`, `ReapJob`, `ReapLoop`, `Reap`), the imperative pass
  over a `Namespace` proved equal to them (`ReapAction`, with `ReapOne` and
  `DeleteDependents` for the body of its loop and its inner loop), and the
  lemmas about the pass.
- `lifecycle.dfy` (module `Lifecycle`): a launched job is reaped exactly when
  it is old enough.

Where the design description and the code differ, the model follows the code:
the owner label is `cronetes=true`, and a failed pod deletion and a failed job
deletion both exit with code 3 (the same code, not two distinct ones).

Random bytes, the current time, the job template's creation time on the
server, and the success of each remote call are parameters. Times are
integers; `age` is an integer duration in the same unit.

## Model

| member | source | states |
|---|---|---|
| `Hex.Encode` | cron.go:161 | two lower-case hex digits per byte, high nibble first; every character is in `0-9a-f`; length twice the input |
| `Hex.DecodeEncode` | cron.go:161 | decoding the hex text gives back the bytes (round trip) |
| `Hex.EncodeInjective` | cron.go:161 | two byte strings have the same hex text exactly when they are equal |
| `Hex.Slug` | cron.go:158-162 | the slug of the six random bytes is exactly 12 characters, each in `0-9a-f` |
| `Hex.SlugInjective` | cron.go:158-162 | different random bytes always give different slugs |
| `Cluster.AsSelector` | reap.go:108-112 | converting a job's selector fails exactly for an unconvertible selector; otherwise it requires the job's match labels |
| `Cluster.Owned` | reap.go:83-87 | a job is listed by the reaper exactly when its label `cronetes` is `true` |
| `Cluster.JobsMatching` | reap.go:83-88 | the job listing returns exactly the jobs whose labels satisfy the selector |
| `Cluster.PodsMatching` | reap.go:114-117 | the pod listing returns exactly the pods whose labels satisfy the job's selector |
| `Cluster.JobsMatchingUnique` | reap.go:83-88 | a listing of a namespace with unique job names has unique names |
| `Cluster.Namespace.ListJobs` | reap.go:88 | returns the matching jobs and changes nothing |
| `Cluster.Namespace.ListPods` | reap.go:117 | returns the matching pods and changes nothing |
| `Cluster.Namespace.CreateJob` | cron.go:148-152 | succeeds exactly when not refused and the name is free; then the job, stamped with its creation time, is appended; otherwise nothing changes; unique names are kept |
| `Cluster.Namespace.DeleteJob` | reap.go:137-141 | on success removes the job of that name and nothing else; on failure changes nothing |
| `Cluster.Namespace.DeletePod` | reap.go:125-129 | on success removes the pod of that name and nothing else; on failure changes nothing |
| `Cron.DeepCopy` | cron.go:130-134 | cloning the template fails exactly when the clone is refused; otherwise the copy equals the template |
| `Cron.Launched` | cron.go:130-146 | the launched name is the template name, or the template name, `-` and the 12-digit slug; the labels are the template's labels plus `cronetes=true`, overriding any other value, with no other key added or changed; the job is listed by the reaper |
| `Cron.FiringsDifferOnlyInName` | cron.go:124-139 | two firings of one template give jobs equal but for the name, whose names agree exactly when the random bytes do (with slugs off, equal jobs) |
| `Cron.Fire` | cron.go:124-155 | a failed clone ends the firing with no create and no change; otherwise exactly one create of the launched job is attempted and on refusal the namespace is unchanged; pods never change |
| `Reaper.ExitCode` | reap.go:88-141 | exit code 0 exactly for a completed pass, 1 exactly for a failed listing, 3 for every other failure |
| `Reaper.Eligible` | reap.go:97-105 | a listed job is eligible exactly when its creation time is not after the cutoff (equal counts) |
| `Reaper.ExpiredJobs` | reap.go:83-105 | the jobs a pass may reap are exactly the owned jobs created not after the cutoff |
| `Reaper.ExpiredJobsUnique` | reap.go:83-105 | the expired jobs of a namespace with unique names have unique names |
| `Reaper.DeletePods` | reap.go:119-130 | deleting the listed pods one by one never touches jobs and keeps only pods that were there (never more of them); it completes, or fails naming the job being reaped and a pod whose deletion was refused |
| `Reaper.DeletePodsEffect` | reap.go:119-130 | deleting the listed pods never touches jobs, removes only listed names, and on success removes all of them; on failure it stopped at the first refused pod: the pods listed before it are gone and every other pod, the refused one and the later ones included, remains |
| `Reaper.DeletePodsRefusal` | reap.go:125-129 | a failed deletion stopped at the first listed pod whose deletion was refused, after deleting exactly the pods listed before it |
| `Reaper.DeleteJob` | reap.go:137-141 | the job deletion completes exactly when it is not refused; then no job of that name remains, every job with another name stays, and no job is added; a refusal changes nothing and exits with the job's name; pods never change |
| `Reaper.ReapJob` | reap.go:107-141 | reaping one job (with the pod listing checked) leaves the jobs alone when any step fails, and then names that job; without cascading no pod changes; an unconvertible selector fails at once with nothing changed |
| `Reaper.ReapJobAsWritten` | reap.go:107-141 | reaping one job as written never fails on the pod listing, and agrees with `ReapJob` whenever that listing succeeds |
| `Reaper.ReapLoop` | reap.go:98-142 | the loop never reports a failed job listing, and reaps only listed jobs created not after the cutoff |
| `Reaper.Reap` | reap.go:83-146 | a pass reports a failed job listing exactly when the listing fails, and then changes nothing and reaps nothing; every reaped job was in the namespace and expired |
| `Reaper.ListedPodsAreDependents` | reap.go:108-117 | the pods listed with a job's converted selector are exactly that job's dependents |
| `Reaper.ReapJobEffect` | reap.go:107-141 | one job is removed only when every step for it succeeded; a failure leaves it; without cascading no pod changes; with cascading and success exactly its dependents are gone |
| `Reaper.PodListFailureOrphansPodsAsWritten` | reap.go:117-119 | as written, a failed pod listing lets the job be deleted while a pod that depends on it stays |
| `Reaper.ReapJobLeavesNoDependents` | reap.go:107-141 | with the listing checked, a successful cascading reap leaves no dependent pod and no job of that name; a failed listing changes nothing |
| `Reaper.ReapLoopOrder` | reap.go:98-142 | the reaped jobs are a prefix of the eligible jobs in listing order; all of them on success; on failure the failing job is the next eligible one |
| `Reaper.ReapLoopJobs` | reap.go:98-142 | the jobs left are the starting jobs without the names of the reaped ones |
| `Reaper.ReapLoopFailureKeepsPods` | reap.go:98-142 | a loop that fails keeps every pod that depends on none of the eligible jobs up to and including the failing one |
| `Reaper.ReapLoopPods` | reap.go:107-131 | without cascading pods are unchanged; pods only disappear, and only dependents of eligible jobs; on success all of those are gone |
| `Reaper.ReapExitCodes` | reap.go:88-92 | exit code 1 exactly when the listing fails, and then nothing is deleted |
| `Reaper.ReapRemovesReaped` | reap.go:98-142 | a pass removes exactly the names of the jobs it reaped, a prefix of the expired jobs in listing order (all of them on success, the failing job next on failure) |
| `Reaper.ReapSparesUnexpired` | reap.go:83-105 | no job lacking the owner label or created after the cutoff is removed, and no job is added |
| `Reaper.ReapDoneRemovesExpired` | reap.go:97-146 | after a completed pass a job remains exactly when it is not expired |
| `Reaper.ReapFailFast` | reap.go:108-141 | after exit code 3 the reaped jobs are gone and the failing job and every expired job after it remain; for pods it carries over `Reaper.ReapFailureKeepsPods` |
| `Reaper.ReapFailureKeepsPods` | reap.go:108-141 | after exit code 3, every pod that depends on none of the expired jobs up to and including the failing one remains |
| `Reaper.LaterNotReaped` | reap.go:98-142 | in a listing with unique names, no job after a prefix shares a name with it |
| `Reaper.ReapPods` | reap.go:107-131 | without cascading no pod is deleted; only dependents of expired jobs are deleted; after a completed cascading pass none of them remain |
| `Reaper.ReapWithoutFaults` | reap.go:98-146 | when no call fails and every expired job's selector converts, the pass completes |
| `Reaper.DeleteDependents` | reap.go:119-130 | the inner loop leaves the namespace and status that `DeletePods` gives, and keeps names unique |
| `Reaper.ReapOne` | reap.go:107-141 | the loop body leaves the namespace and status that `ReapJob` gives, and keeps names unique |
| `Reaper.ReapAction` | reap.go:83-146 | the whole pass leaves the namespace and returns the status that `Reap` gives, and keeps names unique |
| `Lifecycle.LaunchedJobLifetime` | reap.go:83-105 | a launched job, reaped with no failing call, survives exactly when it was created after `now - age` |

## Left out

- The scheduler (`cronAction`, cron.go:71-120): registering schedules, starting and stopping the scheduler, and waiting for a signal are timers and concurrency; a firing is modelled as one call of `Fire`.
- Cron expressions are evaluated by an external library and are not modelled; `CronItem.schedule` is carried but not read.
- Reading and decoding the configuration (`getCronItems`, `getReader`, cron.go:164-196) is file and stdin I/O and YAML.
- main.go is not part of this model: flag parsing, client construction, log levels. The flags `no-random-slug` and `no-delete-dependents` are taken as plain booleans (`randomSlug`, `deleteDependents`).
- Logging is left out everywhere.
- The random source is a parameter: the six bytes are given. The ignored error of the random read (cron.go:160) leaves no trace in the model.
- The clock is a parameter: `now`, `age` and creation times are integers in one unit; the real nanosecond durations and second-precision timestamps are not modelled.
- A job has only a name, labels, a creation time and a selector; the rest of the template is copied unchanged in the source and carries no decision.
- The template is a value, so a firing cannot change it, and two firings cannot share state; the aliasing a shallow copy would cause is not modelled.
- A nil label map is modelled as the empty map: reading a nil map in Go behaves like reading an empty one, and the source replaces it by a new map before writing.
- Selectors: only match labels are modelled. A selector with match expressions is modelled as `Unconvertible`, whose conversion fails, although reap.go:108 converts such selectors without error; for such a job the model ends a cascading pass with exit code 3 where the source would list and delete its pods.
- The Kubernetes API is an in-memory namespace. A call fails when the caller says so (`Faults`, `rejected`, `fails`); a create also fails on a name already in use. Deleting a name that is missing succeeds as a no-op instead of failing with "not found"; the reaper never does this, since it deletes only listed objects.
- Other namespaces are not modelled: `Namespace` is the one the process was configured with.
- A failed listing of dependents aborts the pass with exit code 3 in the model; reap.go:117 does not check that error (see Findings).

## Findings

| source | as written | input that shows it | evidently intended | confidence | as-written member | corrected member |
|---|---|---|---|---|---|---|
| reap.go:117-119 | the error of the pod listing is dropped and `pods.Items` is read anyway | cascading reap of an expired job `backup` whose selector `job-name=backup` picks pod `backup-x1`, with the pod listing failing: the job is deleted, the pod stays, the pass completes with exit code 0 (assuming the client returns its empty result object with the error; a nil result would instead crash the process) | a failed listing of dependents aborts the pass with exit code 3 and leaves the job for the next pass | medium, not executed | `Reaper.PodListFailureOrphansPodsAsWritten` | `Reaper.ReapJobLeavesNoDependents` |
