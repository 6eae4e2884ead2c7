# PRIDE Globus WS — a verified model of its directory and sharing logic

The PRIDE Globus web service fronts one remote Globus collection. It provisions a
shared directory per user (`create_shared_dir`), lists directories and access rules
(`list_dir`, `get_shared_dirs`), revokes sharing (`unshare_dir`), reclaims access rules
whose directory is gone (`delete_zombie_shares`), deletes a directory (`delete_dir`) and
deletes every directory older than a retention age (`delete_old_dirs`). Every request
carries an API key (`get_api_key`), and the health probe is kept out of the access log
(`NoHealthAccessLogFilter`).

This project models that logic in Dafny. The remote collection is the class
`Remote.Collection`. It holds:

- the access-rule list, each rule with an id, a principal, a path and permissions;
- the directory tree, as a map from canonical directory path to its listing;
- the log of submitted delete tasks;
- the identity directory, mapping a username to its principal ids;
- `faults`, the remote calls the collection refuses and the error each one gets.

Each primitive Globus call is a method of that class, specified against the state it
reads and changes. The service's operations are methods in module `Service`. Each one is
proved against functions in modules `Paths`, `Acl` and `Retention` that say what it
computes, and lemmas prove what the service promises about those functions.

Modules:

- `Results` — remote errors (`Exists`, `NotFound` with status 404, `Other(status, message)`), remote results and HTTP results.
- `Seqs` — order-preserving selection (`Filter`) and its laws.
- `Paths` — slash normalisation and the default directory name.
- `Remote` — the collection class, its primitive calls and its rule-id invariant.
- `Acl` — what unsharing and the zombie sweep do to the rule list.
- `Retention` — the 14-day floor, the age test and the delete tasks of the retention sweep.
- `Service` — the HTTP operations.

Three behaviours of `main.py` that the model keeps as written:

- `unshare_dir` compares each rule's path as stored with the normalised request path. A rule stored without slash normalisation is not matched.
- `delete_zombie_shares` reports a zombie rule only when its deletion succeeded. A zombie whose deletion the remote refuses is left in place and not reported.
- `delete_zombie_shares` leaves a rule in place, without reporting it, when listing its directory fails with any status other than 404.

## Model

| member | source | states |
|---|---|---|
| Results.Uncaught | main.py:123 | an exception the handler does not catch reaches the caller as HTTP 500 |
| Service.CheckApiKey | main.py:35-41 | the key is accepted exactly when it equals the configured key and is returned unchanged; otherwise the call fails with 401 |
| Service.Contains | main.py:324 | the substring test is true exactly when the needle occurs at some position of the message |
| Service.ContainsStep | main.py:324 | when the message does not start with the needle, it contains the needle exactly when its tail does |
| Service.KeepAccessRecord | main.py:321-327 | an access-log record is kept exactly when its message does not contain `GET /health` |
| Paths.Normalize | main.py:108-111 | the result starts and ends with `/`, and a path that already does is returned unchanged |
| Paths.NormalizeIdempotent | main.py:172-175 | normalising twice is the same as normalising once |
| Paths.NormalizeForms | main.py:172-175 | `/a`, `a/` and `a` all normalise to `/a/` |
| Paths.WithTrailingSlash | main.py:230-231 | the retention sweep's fix-up ends the path with `/` and only appends one when it is missing |
| Paths.FirstIndex | main.py:95-96 | the index of the first `@`: no `@` before it, `@` at it, and the length when there is none |
| Paths.FirstIndexAt | main.py:96 | a position holding `@` with none before it is the index `index` returns |
| Paths.LocalPart | main.py:94-97 | the prefix is the username up to its first `@`, or the whole username; it contains no `@` |
| Paths.DefaultDirName | main.py:98 | the default name is canonical (it starts and ends with `/`) and is three characters longer than the local part and the suffix together |
| Paths.DefaultDirNameShape | main.py:93-98 | the default name is `/` + prefix + `_` + suffix + `/`, already canonical, with an `@`-free prefix cut at the first `@` |
| Paths.DefaultDirOfEmail | main.py:93-98 | `name@domain` yields the default name `/name_<suffix>/` |
| Remote.LsResult | main.py:133 | a listing succeeds exactly when the directory exists and the call is not refused; a missing directory gives 404 |
| Remote.MkdirResult | main.py:101 | mkdir succeeds exactly when the path is new and the call is not refused; an existing path gives `Exists` |
| Remote.RemoveSubtree | main.py:212-216 | a recursive delete removes exactly the paths at or below the deleted path and leaves the rest as they were |
| Remote.GoneAfterRemoval | main.py:209-216 | once a directory's subtree is removed, listing it or anything below it fails with 404 |
| Remote.UniqueIdsSpec | main.py:178 | rule ids are unique exactly when no two positions of the rule list hold the same id |
| Remote.DistinctIds | main.py:178 | two different positions of the rule list hold different ids, so deleting by id removes one rule |
| Remote.FilterKeepsUniqueIds | main.py:178 | removing rules keeps the ids unique |
| Remote.Identities | main.py:82-84 | a username the identity directory does not know has no principal ids |
| Remote.Collection.GetIdentities | main.py:82-84 | returns exactly the principal ids the identity directory holds for the username, none for an unknown one, and changes nothing |
| Remote.Collection.OperationMkdir | main.py:101 | adds an empty directory at the normalised path on success; changes nothing on failure |
| Remote.Collection.OperationLs | main.py:133 | returns the remote's listing answer and changes nothing |
| Remote.Collection.EndpointAclList | main.py:155 | returns the rule list, or the refusal |
| Remote.Collection.AddEndpointAclRule | main.py:123 | appends exactly one rule under a fresh id, keeping ids unique; a refusal changes nothing |
| Remote.Collection.DeleteEndpointAclRule | main.py:178 | removes exactly the rule with that id; an unknown id or a refusal changes nothing and fails |
| Remote.Collection.SubmitDeleteTask | main.py:212-214 | appends one pending delete task for the path; a refusal changes nothing |
| Remote.FinalState | main.py:216 | a waited-for delete task never stays pending, and it fails exactly when the remote fails deletes of its normalised path |
| Remote.Collection.TaskWait | main.py:216 | the task ends in its final state and nothing else in the task log changes; a failed task leaves the tree as it was, a succeeded one removes its path, with everything below it when recursive |
| Service.ListDirError | main.py:134-145 | a remote 404 becomes 404 with `Directory <path> not found`; any other error keeps the remote's status and message |
| Service.ListDir | main.py:128-147 | returns the directory's entries, or the mapped error |
| Service.GetSharedDirs | main.py:150-163 | returns all access rules, or the remote's status and message |
| Service.TargetName | main.py:93-98 | mkdir is given the requested name as it is; without one, the default name, which is already canonical so normalising it changes nothing |
| Service.CreateSharedDir | main.py:77-125 | no identity gives 404 before mkdir; `Exists` gives 409 naming the attempted path; another mkdir error keeps its status and message; none of these adds a rule. On success it creates the directory, appends exactly one `rw` rule for the first identity on the normalised name, and returns that name |
| Acl.UnshareSpec | main.py:176-178 | after unsharing `p`, a rule remains exactly when it was there and its path is not `p`; with no rule on `p` the list is unchanged |
| Acl.RemoveMatchesConcat | main.py:176-178 | unsharing works rule by rule, so the surviving rules keep their order |
| Acl.RemoveMatchesIdempotent | main.py:166-179 | unsharing the same path twice leaves what unsharing once leaves |
| Acl.RemoveMatches | main.py:176-178 | unsharing never adds a rule: at most the listed rules remain (which ones is `Acl.UnshareSpec`) |
| Acl.UnshareUndoesGrant | main.py:117-123 | unsharing a directory takes back a grant made on it |
| Acl.PartlyUnsharedStart | main.py:176 | before the unshare loop nothing has changed |
| Acl.PartlyUnsharedDone | main.py:176-178 | after the whole loop the list is the unshared list |
| Acl.PartlyUnsharedFrame | main.py:176-178 | part-way through unsharing, only original rules remain and every rule on another path is still there |
| Acl.UnshareKeepStep | main.py:177 | a rule on another path is kept by the loop |
| Acl.UnshareDeleteStep | main.py:177-178 | a rule on the path is still present and deleting it by id moves the loop on one rule |
| Acl.KeepStep | main.py:176-178 | a kept rule moves the loop on one rule without changing the list |
| Acl.DeleteStep | main.py:178 | deleting the current rule by id moves the loop on one rule |
| Acl.DropOnly | main.py:178 | deleting by an id no other rule carries removes only that rule |
| Acl.OthersDiffer | main.py:178 | with unique ids, no rule before or after the current one carries its id |
| Service.DeletesAllowedSpec | main.py:176-178 | unsharing is not refused exactly when no matching rule's deletion is refused |
| Service.DeletesRefused | main.py:178 | one refused deletion of a matching rule makes the unsharing fail |
| Service.UnshareWithoutFaults | main.py:166-179 | against a remote that refuses nothing, unsharing always succeeds |
| Service.FirstRefused | main.py:176-178 | the position of the first rule on the path whose deletion is refused: it is the end exactly when no such deletion is refused; otherwise that rule is on the path, its deletion is refused, and no deletion before it is |
| Service.FirstRefusedAt | main.py:176-178 | a refused rule on the path with no refused deletion before it is the first refused one |
| Service.UnsharedRules | main.py:170-178 | the rules `unshare_dir` leaves: all of them when the rule list cannot be read; the rules not on the normalised path when unsharing succeeds |
| Service.UnshareFailureKeeps | main.py:176-178 | when a deletion is refused, the refused rule is still there, every rule on another path is still there, and no rule was added |
| Service.UnshareStep | main.py:177-178 | one loop iteration deletes the rule when it is on the path; it fails only when that rule is on the path and its deletion is refused, and then changes nothing |
| Service.UnshareListed | main.py:176-178 | the loop succeeds exactly when no matching deletion is refused; it stops at the first refused one, with exactly the matching rules before it deleted |
| Service.UnshareDir | main.py:166-179 | succeeds exactly when the rules can be listed and no matching deletion is refused, leaving every rule not on the normalised path, in order. A refused listing passes its status and message through and changes nothing; a refused deletion answers 500 and leaves the rules of `Service.UnsharedRules` |
| Acl.UnshareEachSnoc | main.py:242 | unsharing one more path removes that path's rules from what was left |
| Acl.UnshareEachSpec | main.py:240-242 | after unsharing several paths, a rule remains exactly when it is on none of them |
| Acl.IsZombie | main.py:190-193 | a rule is a zombie exactly when listing its normalised path fails with 404: the remote refuses that listing with a 404 error, or, when it does not refuse it, the directory does not exist |
| Acl.Reclaimable | main.py:190-195 | a rule the sweep reclaims has its deletion accepted and its directory missing or unlistable; a rule whose directory is missing, whose listing is not refused and whose deletion is accepted is reclaimed |
| Acl.SweepSpec | main.py:188-197 | the sweep removes exactly the rules whose listing fails with 404 and whose deletion is accepted; live rules, non-404 failures and refused deletions stay; every rule is on exactly one side |
| Acl.SweepSettles | main.py:182-202 | sweeping again against the same remote reclaims nothing more and changes nothing |
| Acl.RulePathsSnoc | main.py:197 | reporting one more rule appends its path |
| Acl.RulePathsAt | main.py:197 | the report lists the reclaimed rules' paths one for one, in rule-list order |
| Acl.PartlySweptStart | main.py:187 | before the sweep nothing has changed and nothing is reported |
| Acl.PartlySweptDone | main.py:188-202 | after the whole sweep the list is the survivors' list |
| Acl.SweepKeepStep | main.py:190-200 | a rule that is not reclaimed stays and is not reported |
| Acl.SweepPresent | main.py:195 | the rule the sweep is looking at is still on the remote |
| Acl.SweepDeleteStep | main.py:193-197 | a reclaimed rule is deleted by id and its path appended to the report |
| Service.SweepListed | main.py:188-202 | the loop reports the reclaimed rules' paths in order and leaves exactly the survivors |
| Service.DeleteZombieShares | main.py:182-202 | a refused rule listing passes through and changes nothing; otherwise it returns the reclaimed paths in rule-list order and removes exactly those rules |
| Service.UnshareAndSubmit | main.py:211-214 | succeeds exactly when unsharing succeeds and the submission is accepted; it then leaves the unshared rules and appends one pending recursive delete task for the path. On failure no task is added, the rules are those of `Service.UnsharedRules`, and the answer is the passed-through rule-listing error or 500 |
| Service.DeleteDir | main.py:205-217 | a failed listing gives the mapped error (404 for a missing directory) with nothing unshared, submitted or deleted. Otherwise it succeeds exactly when unsharing and the submission succeed: the path is unshared, one recursive delete task is appended in its final state, and, unless that task failed, the subtree is removed so that listing the path afterwards gives 404. On failure no task is added, the tree is unchanged, the rules are those of `Service.UnsharedRules`, and the answer is the passed-through rule-listing error or 500 |
| Service.OldDirsOf | main.py:229-241 | the sweep selects at most one path per entry of the listing of `path` |
| Service.RetireSucceedsSnoc | main.py:233-245 | retiring one more path succeeds exactly when the earlier paths were retired and this one's unsharing and submission succeed |
| Service.RetirableOfPrefix | main.py:233-245 | whether a path can be retired does not depend on the paths selected after it |
| Service.RetireSucceedsSpec | main.py:233-245 | retiring a list succeeds exactly when every path in it can be retired after the ones before it: its unsharing succeeds on the rules they left and its submission is accepted |
| Service.RetireSucceedsPrefix | main.py:233-245 | a list that can be retired has every prefix retirable |
| Service.RetireWithoutFaults | main.py:233-245 | against a remote that refuses nothing, retiring any list of paths succeeds |
| Service.RetireFailsAt | main.py:240-245 | a refusal while retiring an old-enough entry makes retiring the whole selection fail |
| Service.RetiredOneMore | main.py:241-245 | unsharing one more path and logging its delete task extends the sweep's rules and tasks by that path |
| Service.RetireStep | main.py:234-245 | one iteration retires an old-enough entry and extends the selection; on a refusal it adds no task, the entry is one that cannot be retired, and the whole selection cannot be retired |
| Retention.CheckRetentionFloor | main.py:222-226 | fewer than 14 days is refused with 406; 14 and more are accepted |
| Retention.IsOld | main.py:236-240 | an entry is old enough exactly when its last change is at least `num_of_days` days before today |
| Retention.OldPaths | main.py:233-241 | the retention sweep selects at most one path per listed entry |
| Retention.OldPathsSpec | main.py:234-241 | a path is selected exactly when an entry of the listing is old enough and its path is the base plus the entry's name |
| Retention.OldPathsSnoc | main.py:234-241 | one more entry adds its path, at the end, exactly when it is old enough |
| Retention.OldPathsPrefix | main.py:234-241 | selecting from a prefix of the listing gives a prefix of the selection |
| Retention.AgeBoundary | main.py:238-240 | an entry exactly `num_of_days` old is selected; one a day younger is not |
| Retention.SweepTasks | main.py:243-245 | the sweep submits exactly one delete task per selected path |
| Retention.SweepTasksSpec | main.py:243-245 | the k-th task deletes the k-th selected path, recursively, and is pending |
| Retention.SweepTasksSnoc | main.py:243-245 | one more selected path adds one more task at the end |
| Service.RetirePath | main.py:241-245 | one selected path is unshared and its single recursive delete submitted; it succeeds exactly when its unsharing and submission succeed, and then extends the loop's rules and tasks by that path. On failure no task is added and the answer is the passed-through rule-listing error or 500 |
| Service.RetireOldEntries | main.py:233-250 | succeeds exactly when retiring the selected paths in turn meets no refusal; it then returns them in listing order, having unshared each and submitted one task per path in that order. On failure it stopped at an old-enough entry that could not be retired although every selected path before it was: the tasks are those of the earlier paths, and the rules are what unsharing the failing path left |
| Service.DeleteOldDirs | main.py:220-250 | fewer than 14 days gives 406 before any remote call; a failed listing gives the mapped error (404 for a missing path). Otherwise it succeeds exactly when retiring every old-enough entry in turn meets no refusal, and returns `path/` + name for each, unsharing each and submitting one recursive delete per path, without waiting. On failure it stopped at the first old-enough entry that could not be retired, with the earlier ones retired, and answers the passed-through rule-listing error or 500 |

## Left out

- FastAPI routing, the `Security` wiring of the key check, the root, docs and health endpoints and `change_log_level` are framework plumbing. The key check itself is `Service.CheckApiKey`.
- Token acquisition (the OAuth2 client-credentials grant of section 4.4 of RFC 6749, done by `globus_sdk`) is assumed to succeed, and so is `get_identities`.
- `get_file` is an HTTP byte proxy and is not part of this model.
- `main`, `get_config` and the log-file setup are configuration and file-system I/O, and are not part of this model.
- `uuid.uuid4()` and `date.today()` are parameters: `suffix` and `today`.
- Dates are day numbers. The parsing of the `YYYY-MM-DD` token of `last_modified` is not modelled.
- `task_wait` completes at once. Its blocking and any timeout are not modelled.
- Concurrent requests on the same collection and logging are not modelled.
- Remote.Collection: the remote is taken to canonicalise every path it is given with the same slash normalisation as the service. Listing, mkdir and delete-task refusals are keyed by the normalised path.
- Results.RemoteError: the HTTP status of the `Exists` error is taken to be 502. It only reaches the caller through `create_shared_dir`, which maps it to 409.
- Results.Uncaught: an exception the handler does not catch is answered with status 500 and a fixed detail. This covers a refused rule grant, a refused rule deletion while unsharing, and a refused delete submission. The remote changes made before the failure are kept.
- Service.DeleteOldDirs: after a refusal part-way through the sweep, the entry where it stopped is stated as an old-enough entry whose predecessors were all retired and which could not be retired itself, not by its index. `Service.RetireWithoutFaults` and `Service.UnshareWithoutFaults` state that against a remote that refuses nothing the sweep and unsharing always succeed.
- Remote.Collection.TaskWait: a delete task fails exactly when the remote is set to fail deletes of its path (`RunDelete` among the faults); the wait returns at once with the final state. The task's own error details are not modelled.
- Service.DeleteDir: like `main.py`, it does not inspect the outcome of the task it waited for, so it answers success even when that task failed, and in that case the tree is left unchanged.
