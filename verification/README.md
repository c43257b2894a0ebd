# Verification model of kotoji

kotoji hosts small static sites: every site is a set of branches, `draft` is edited, `published` is
served, and each branch has a preview host. This project is a Dafny model of the parts of its backend
where correctness is a matter of whole runs rather than of single calls, with proofs that the model
keeps what the code promises -- or, where it does not, of exactly when it does.

## How it is organised

- **The versioned site store.** `Trees`, `Logs` and `BranchHistory` hold the tree and log helpers as
  loops proved against set and sequence specifications. `SiteModel` says on values what each operation
  should do. `FakeService` is the class whose methods update the maps in place, each proved to do
  exactly that. `SiteInvariant`, `SiteRuns` and `SitePublish` prove the invariant and the run-level
  results; `SiteEffects` says of each operation exactly when it succeeds, what it changes and what it
  leaves alone. `Paging` follows the cursor of both endpoints while operations keep arriving.
- **Time-driven guards.** `RateLimit`, `Lockout` and `SingleUse` are map machines with throttled
  sweeps. Each is compared with a machine that never sweeps or evicts. `ForwardedFor` is the header
  scan the limiter's key comes from.
- **Caches.** `ProviderCache` is the OIDC configuration and provider cache, `PreviewCache` the preview
  tree cache with its two separately locked sections in any interleaving.
- **The reaper.** `Reaper` is the soft-delete protocol over rows, repositories and bundles with an
  error or a crash possible at every step.
- **Printers and parsers.** `Resolver` and `Handles` cover preview hosts, `Grants`, `Base64` and
  `Fields` the signed preview grant. The MAC is an arbitrary function.
- `Prelude`, `Text` and `Shas` are the shared vocabulary: results, the string functions of Go's
  standard library, and the commit counter.

Each locked method is one atomic step, and the clock does not go back between steps, since the code
reads it just before or while it holds the lock.

## Where the code and its documentation differ

The model follows the code. These are the places where a comment or contract says more than the code
does; most are theorems below. One promise needs a condition the code does not check: idle eviction of
rate-limit buckets is invisible, and the request rate bounded, exactly when `rps * ttl >= burst`
(`RateLimit.EvictionUnobservableIff`, `RateLimit.WindowBoundIff`).

- A diverged publish is described as a merge. It is a union in which the source wins, which can undo a
  published fix or bring back a deleted file without a conflict (`SitePublish.MergeIsThreeWay` says
  exactly when, `SitePublish.MergeBoundaryReached` and `SitePublish.DeletionUndone` are runs). A publish
  after a merge merges again (`SitePublish.MergeAgain`).
- History paging loses everything after 500 commits when the REST limit is 500, because the extra row
  it asks for is capped by the service; an MCP limit above 500, which takes a raised server setting,
  does the same (`Paging.PagingExact`, `Paging.CapIsReached`).
- A grant whose expiry lies later within the current second is already refused
  (`Grants.RoundTripExactly`).
- The preview cache is described as keyed by site, branch and commit. The key is handle and branch
  (`PreviewCache.KeyInjective`), and a hit looks neither at the commit nor at the time of the answer,
  only at the time of the store (`PreviewCache.HitsExactly`). It serves the newest answer if the
  fill it comes from was not overtaken, and, when all answers differ, only then
  (`PreviewCache.NewestServedExactly`, `PreviewCache.OlderAnswerCanWin`). The
  order list is described as compacted to bound memory; its length is bounded exactly when the cache
  has room for one entry (`PreviewCache.OrderBoundedIff`).
- The reaper is described as never purging a row with its repository on disk. It looks for `.git`
  only, so a directory stays behind exactly when an earlier removal took the `.git` and left something
  else (`Reaper.LeftoversInRuns`, `Reaper.LeftoversReachable`). It also removes a repository whose bundle
  failed (`Reaper.RecoverableInRuns`, `Reaper.LossReachable`).
- The provider cache is right in every interleaving in which no save lands between the resolving and
  the locking half of a login (`ProviderCache.SplitLoginsTransparent`). If one does, a later login is
  answered wrongly exactly when its configuration is usable and the discovery then cached under its key
  was made by a login that had resolved another one (`ProviderCache.RightExactly`): so it can go wrong
  when the overtaken login looks up first, and does not when a fresh login with the same key does
  (`ProviderCache.OldLoginFirst`, `ProviderCache.FreshLoginFirst`).
- A failed settings read is remembered as "nothing set" until the next save
  (`ProviderCache.InForceIsStored`, `ProviderCache.FailedReadSticks`).

## Model

| member | source | states |
|---|---|---|
| Shas.NumberSha | backend/internal/site/fake.go:94-97 | a printed sha determines the counter value it was printed from, so no two commits of a store share a sha |
| Shas.FreshSha | backend/internal/site/fake.go:94-97 | the next sha is one no earlier counter value has produced |
| Handles.AcceptedHandles | backend/internal/site/handle.go:76-106 | the ordered checks accept exactly the well-formed, unreserved names of at least the minimum length: 1 to 63 lower-case letters, digits and single inner hyphens |
| Handles.AcceptedBranches | backend/internal/site/handle.go:114-132 | branch names are accepted exactly when they are well-formed in the same sense; reserved words are allowed |
| Handles.SplitPreviewSubdomain | backend/internal/site/handle.go:146-163 | splitting a rendered preview label gives back the handle and the branch, for all valid names |
| Trees.ConflictingPaths | backend/internal/site/fake_helpers.go:127-156 | the result is the ascending list, once each, of exactly the paths both sides changed from the base without ending equal, whatever order the maps are walked in |
| Trees.ClashesComplete | backend/internal/site/fake_helpers.go:127-156 | looking only at paths of the two sides misses no clashing path |
| Trees.MergeTrees | backend/internal/site/fake_helpers.go:160-166 | the union: every source path with the source content, every other published path unchanged |
| Trees.UnionIsThreeWay | backend/internal/site/fake_helpers.go:160-166 | without clashes the union equals the true three-way merge if and only if no source-deleted path is still published and no path the source left alone was changed or deleted by published |
| Trees.ThreeWaySymmetric | backend/internal/site/fake_helpers.go:127-166 | the reference three-way merge treats both sides alike when nothing clashes |
| Trees.TreesEqual | backend/internal/site/fake_helpers.go:169-180 | comparing sizes and walking one side decides equality of the whole trees, both ways |
| Trees.DiffTrees | backend/internal/site/fake_helpers.go:184-218 | the diff lists exactly the differing paths in scope, ascending and once each, each with its status |
| Trees.DiffEmpty | backend/internal/site/fake_helpers.go:184-218 | an unfiltered diff is empty if and only if the trees are equal |
| Trees.DiffFlips | backend/internal/site/fake_helpers.go:184-218 | exchanging the two trees gives the same list with added and deleted exchanged |
| Logs.AppendGood | backend/internal/site/fake.go:138-167 | a commit under the next sha keeps a log a first-parent chain of distinct, issued shas |
| Logs.AppendCoherent | backend/internal/site/fake.go:138-167 | such a commit cannot create a sha that another log of the store holds elsewhere |
| Logs.AncestorIsPrefix | backend/internal/site/fake_helpers.go:93-100 | finding the published tip sha in the source log means that the whole published log is a prefix of the source log, and conversely |
| Logs.IsAncestor | backend/internal/site/fake_helpers.go:93-100 | true exactly when some commit of the log has that sha |
| Logs.SharedIsCommon | backend/internal/site/fake_helpers.go:105-122 | two coherent logs share exactly the shas of their longest common prefix |
| Logs.MergeBaseTree | backend/internal/site/fake_helpers.go:105-122 | the backwards search finds the tree at the end of the longest common prefix of the two logs, or the empty tree |
| Logs.CommitsUpTo | backend/internal/site/fake_helpers.go:80-89 | the prefix up to that sha of every branch holding it, so the branch the walk meets first does not matter; empty if none does |
| Logs.ResolveAnyRef | backend/internal/site/fake.go:1018-1030 | a branch name resolves to its tip, otherwise the commit with that sha is found if any branch has it; a miss means there is none |
| Logs.ResolvesOnce | backend/internal/site/fake.go:1018-1030 | a ref names at most one commit, however many branches share it |
| Logs.ChangedBetween | backend/internal/site/fake_helpers.go:259-278 | exactly the ascending list of paths that differ between a commit of the log and its tip; empty for an unknown base |
| Logs.CommitTouchedPath | backend/internal/site/fake_helpers.go:282-307 | whether the commit changed the path against its predecessor, false for an unknown sha |
| Logs.FindCommit | backend/internal/site/fake.go:802-845 | the ancestor search finds the one commit with that sha, or reports that there is none |
| FakeServiceModule.FakeService.constructor | backend/internal/site/fake.go:60-67 | a new store is empty and valid |
| FakeServiceModule.FakeService.CreateSite | backend/internal/site/fake.go:180-251 | a valid free handle gives a site with one root commit on draft; a taken, reserved or redirected handle or a bad archive is refused with the store unchanged; the invariant is kept |
| FakeServiceModule.FakeService.RenameHandle | backend/internal/site/fake.go:313-342 | the new handle becomes live and the old one a redirect to the same site; a handle of, or redirecting to, another site is refused; the invariant is kept |
| FakeServiceModule.FakeService.DeleteSite | backend/internal/site/fake.go:344-355 | a live site is marked deleted and nothing else changes; the invariant is kept |
| FakeServiceModule.FakeService.CreateBranch | backend/internal/site/fake.go:389-424 | the new branch is a copy of the whole log of its source, found by sha; protected, malformed and existing names are refused; the invariant is kept |
| FakeServiceModule.FakeService.DeleteBranch | backend/internal/site/fake.go:426-441 | only an existing branch other than draft and published goes; the invariant is kept |
| FakeServiceModule.FakeService.WriteFile | backend/internal/site/fake.go:495-534 | one commit with the path set, on top of the tip the caller named, or the exact error of the first failing check with the store unchanged; the invariant is kept |
| FakeServiceModule.FakeService.DeleteFile | backend/internal/site/fake.go:536-568 | one commit without the path, which has to be there; the invariant is kept |
| FakeServiceModule.FakeService.CommitStaged | backend/internal/site/fake.go:570-593 | always an error: an open lock reports that there is nothing to commit |
| FakeServiceModule.FakeService.ImportZip | backend/internal/site/fake.go:595-636 | an existing branch gets one commit exactly if the tree differs from its tip; an absent branch starts with one root commit; the invariant is kept |
| FakeServiceModule.FakeService.Rollback | backend/internal/site/fake.go:802-845 | one commit with the tree of the named earlier commit of the same branch; the invariant is kept |
| FakeServiceModule.FakeService.Publish | backend/internal/site/fake.go:640-707 | first publish and fast-forward copy the source log, a diverged publish merges under a fresh sha or reports exactly the clashing paths; the published pointer follows; the invariant is kept |
| FakeServiceModule.FakeService.CheckBaseSha | backend/internal/site/fake.go:980-993 | accepts exactly the tip; otherwise reports the tip and the paths changed since the base, or the hint if nothing is known |
| FakeServiceModule.FakeService.GetDiff | backend/internal/site/fake.go:721-753 | the exact diff of the two resolved refs, an unknown target read as the empty tree; an error means the site or the source ref does not exist |
| FakeServiceModule.FakeService.GetLog | backend/internal/site/fake.go:755-800 | one page of the path-filtered newest-first history strictly older than the cursor, with the clamped size |
| FakeServiceModule.FakeService.ResolveHandle | backend/internal/site/fake.go:895-910 | a live handle resolves to its site, otherwise by one redirect hop to a live site, whatever order the sites are walked in |
| SiteInvariant.StepValid | backend/internal/site/fake.go:138-707 | every operation keeps the invariant: logs are non-empty first-parent chains, any two branches of a site that hold the same sha hold it at the same index with equal prefixes, live handles are distinct and disjoint from redirects, and all of them are lower-case |
| SiteInvariant.ReachableValid | backend/internal/site/fake.go:60-707 | every state reachable from an empty store satisfies that invariant |
| SiteInvariant.PublishValid | backend/internal/site/fake.go:640-707 | publishing in particular keeps coherence with every other branch, although the merge commit copies no source commit |
| SiteInvariant.WriteShape | backend/internal/site/fake.go:495-636 | all four kinds of write succeed only as one commit on the branch they name, at the base they name |
| SiteRuns.StepGrows | backend/internal/site/fake.go:138-707 | an operation only ever extends the logs it leaves in place, never removes draft or published, and leaves a deleted site as it is |
| SiteRuns.RunKeepsHistory | backend/internal/site/fake.go:426-707 | over any run, draft and published of every site keep every commit they had |
| SiteRuns.PublishedOnlyExtends | backend/internal/site/fake.go:640-707 | over any run the old published log is a prefix of the new one |
| SiteRuns.WriteExtendsByOne | backend/internal/site/fake.go:495-636 | a successful write to an existing branch appends one commit whose sole parent is the caller's base and changes nothing else in the store |
| SiteRuns.BaseIsSpent | backend/internal/site/fake.go:980-993 | once written over, a base is never the tip again of a branch that has only grown |
| SiteRuns.NoSharedBase | backend/internal/site/fake.go:495-636 | over any run no two successful writes to draft name the same base: no lost updates |
| SiteRuns.StaleWriteRefused | backend/internal/site/fake.go:980-993 | a write, delete, import or rollback on a stale base changes nothing and reports the tip and, ascending, exactly the paths changed since that base; if the log does not hold the base or nothing differs, the path of the request |
| SiteRuns.RollbackReply | backend/internal/site/fake.go:802-845 | rolling an open branch back to any of its commits succeeds with that commit's tree |
| SiteRuns.RollbackUndoesWrite | backend/internal/site/fake.go:802-845 | rolling back to the base of a write restores, as a new commit, the tree the write started from |
| SiteRuns.HeldIsResolved | backend/internal/site/fake.go:895-910 | holding a handle, live or by redirect, and being the site it resolves to are the same |
| SiteRuns.HeldIsTaken | backend/internal/site/fake.go:190-199 | a held handle is lower-case, and no other site can be created with, or renamed to, any spelling of it |
| SiteRuns.DeletedStaysDeleted | backend/internal/site/fake.go:344-355 | over any run a deleted site stays as it was |
| SiteRuns.HandlePermanence | backend/internal/site/fake.go:313-342 | once a handle resolves to a site it does so for as long as the site is not deleted, through any creates, renames and rename-backs |
| SiteEffects.CreateExactly | backend/internal/site/fake.go:180-251 | creating succeeds exactly for a valid handle that resolves to nobody and was not left behind by a deleted site, with a readable archive if one is given; a handle that is not free is refused as taken |
| SiteEffects.CreateTakesEffect | backend/internal/site/fake.go:202-251 | the handle then resolves to the new site, whose only branch is a draft of one root commit with the archive's files or the default page; no other handle, site, or redirect changes |
| SiteEffects.ReservedRefused | backend/internal/site/handle.go:76-106 | creating with, or renaming to, a reserved word is refused as reserved |
| SiteEffects.RenameExactly | backend/internal/site/fake.go:313-335 | renaming succeeds exactly for a live site and a valid handle that resolves to no other site and was not left behind by a deleted one |
| SiteEffects.RenameTakesEffect | backend/internal/site/fake.go:336-342 | after a rename the lower-cased new handle is live and resolves to the site, the old one still resolves to it, every other handle resolves as before, and only the handle of that one site has changed |
| SiteEffects.DeleteTakesEffect | backend/internal/site/fake.go:344-355 | deleting succeeds exactly for live sites; every handle that resolved to the site, live or by redirect, resolves to nothing, and every other handle as before |
| SiteEffects.DeletedHandles | backend/internal/site/fake.go:190-199 | the handle a deleted site had can be taken again; the handles it had before that cannot |
| SiteEffects.TreeOfExactly | backend/internal/site/fake.go:621-624 | an archive's tree has a path exactly if an entry names it, with the content of the last entry that does |
| SiteEffects.CreateBranchExactly | backend/internal/site/fake.go:389-424 | branching succeeds exactly for a well-formed, unprotected, new name and an existing source, which is draft if none is named; the new log is the source's, and no other branch or site changes |
| SiteEffects.DeleteBranchExactly | backend/internal/site/fake.go:426-441 | exactly an existing branch other than draft and published can be deleted, and is gone; no other branch or site changes |
| SiteEffects.WriteFileExactly | backend/internal/site/fake.go:495-534 | a file write succeeds exactly for an open branch whose tip is the named base and a valid path; the new tip has the content at that path and every other path as before |
| SiteEffects.DeleteFileExactly | backend/internal/site/fake.go:536-568 | a deletion succeeds exactly if, besides, the path is there; it is gone from the new tip and every other path is as before |
| SiteEffects.ImportExactly | backend/internal/site/fake.go:595-636 | an import needs the tip as base and a tree that differs from it, or an absent branch and no base; the new tip holds exactly the archive's tree |
| SiteEffects.RollbackExactly | backend/internal/site/fake.go:802-845 | a rollback succeeds exactly to a sha that the open branch holds, with the tip as base; the new tip has that commit's tree |
| SiteEffects.CommitStagedExactly | backend/internal/site/fake.go:570-593 | a commit of staged files is always refused, as having nothing to commit when branch and base are in order |
| SiteEffects.RefusalsExactly | backend/internal/site/fake.go:495-636 | which error each write gives for a protected branch, a bad path, a missing base, an unreadable archive, and a missing site or branch |
| SitePublish.PublishForward | backend/internal/site/fake.go:668-685 | a first or fast-forward publish makes published equal to the source, drops no published commit and takes no new sha |
| SitePublish.PublishMerges | backend/internal/site/fake.go:686-706 | a diverged publish appends one commit with both tips as parents and the union as tree, and only when nothing clashes |
| SitePublish.MergeIsThreeWay | backend/internal/site/fake.go:686-706 | the merge commit is the three-way merge of the two tips if and only if nothing is resurrected or reverted |
| SitePublish.PublishIdempotent | backend/internal/site/fake.go:640-707 | a publish leaves the store as it is if and only if published already equals the source |
| SitePublish.MergeAgain | backend/internal/site/fake.go:686-706 | after a merge the same publish succeeds again and adds another merge commit with the same tree |
| SitePublish.MergeBoundaryReached | backend/internal/site/fake.go:686-706 | a reachable run on each side of the boundary: the merged tree is right unless a fix to a file that draft left alone was already published, and then the fix is undone without a conflict |
| SitePublish.DeletionUndone | backend/internal/site/fake.go:686-706 | a reachable run in which draft deletes a file and publishing leaves it published without a conflict |
| SiteEffects.PublishExactly | backend/internal/site/fake.go:640-707 | on an existing source a publish with a stale base names the source, the base and the tip; otherwise it is refused exactly if the branches have diverged and a path was changed on both sides without ending equal, and then lists, ascending, exactly those paths; a refusal leaves the store as it is |
| SiteEffects.PublishTakesEffect | backend/internal/site/fake.go:664-707 | a publish that succeeds hands back the new tip of published, and the published pointer names it; no other branch or site changes |
| SiteEffects.PublishRefusals | backend/internal/site/fake.go:640-664 | publishing from published, without a base, from a missing site or a missing branch |
| BranchHistory.ReadPage | backend/internal/site/fake.go:771-799 | the reversing, cursor and filter loops produce the next page of the path-filtered history below the cursor |
| BranchHistory.HistoryStep | backend/internal/site/fake_helpers.go:282-307 | a commit enters the history of a path exactly if it touched it, and older entries do not depend on later commits |
| BranchHistory.TouchedExactly | backend/internal/site/fake_helpers.go:282-307 | a commit touched a path exactly if it added, deleted or changed it against its predecessor, the first commit against nothing |
| BranchHistory.CommitEntersHistory | backend/internal/site/fake_helpers.go:282-307 | a new commit goes to the front of the history of every path it added, deleted or changed, and leaves the other histories as they are |
| Paging.RestLimit | backend/internal/api/history.go:73-84 | every request gets between 1 and 500 rows, and what it asked for if that is in range |
| Paging.RestGetLog | backend/internal/api/history.go:65-118 | the limit+1 probe gives the page and cursor of the REST rule for the clamped limit |
| Paging.McpGetLog | backend/internal/mcpserver/tools.go:697-742 | the full-page rule of the MCP tool, after rejecting a limit out of range |
| Paging.PageShape | backend/internal/api/history.go:86-106 | within the service cap a page with a cursor is exactly the next limit commits, one without is all the rest |
| Paging.PagingExact | backend/internal/api/history.go:86-106 | under either rule, following the cursor while commits keep arriving ends and yields the history as of the first request if and only if the requested size stays within the service cap or the history does |
| Paging.HistoryDistinct | backend/internal/site/fake.go:755-800 | a history lists no commit twice |
| Paging.PagingOverRun | backend/internal/mcpserver/tools.go:736-740 | the same on draft and published for any run of the service, with any operations between two requests |
| Paging.CapIsReached | backend/internal/api/history.go:82-106 | for every n a run gives draft n commits; paging within the cap collects all n, beyond it (a REST limit of 500) exactly the first 500 of them |
| RateLimit.EvictionUnobservableIff | backend/internal/ratelimit/ratelimit.go:97-130 | idle eviction changes no answer in any run if and only if rps * ttl >= burst |
| RateLimit.WindowBound | backend/internal/ratelimit/ratelimit.go:97-121 | then each key is let through at most burst + rps * w times in any window of length w |
| RateLimit.WindowBoundIff | backend/internal/ratelimit/ratelimit.go:97-130 | that bound holds over all runs if and only if rps * ttl >= burst |
| RateLimit.DefaultsRoomy | backend/internal/ratelimit/ratelimit.go:62-92 | the defaults meet the condition exactly for rates of at least one request in ten minutes, so for every rps >= 1 |
| RateLimit.DefaultBurstIs | backend/internal/ratelimit/ratelimit.go:62-92 | the default burst is the least whole number that is at least one and at least the rate |
| RateLimit.RefusedExactly | backend/internal/ratelimit/ratelimit.go:97-121 | under that condition, in any run, a call is refused exactly if letting it through would put more than burst + rps * w calls of its key into some window of length w |
| RateLimit.Limiter.constructor | backend/internal/ratelimit/ratelimit.go:62-92 | the defaults that New fills in |
| RateLimit.Limiter.Evict | backend/internal/ratelimit/ratelimit.go:124-130 | exactly the entries idle for a ttl go, in whatever order the map is walked |
| RateLimit.Limiter.Allow | backend/internal/ratelimit/ratelimit.go:97-121 | sweep at most once per ttl, then take one token of the key's bucket; a disabled limiter allows everything and keeps nothing |
| ForwardedFor.LastIndexComma | backend/internal/ratelimit/ratelimit.go:248-255 | the last comma before the end index, or -1 if there is none |
| ForwardedFor.TrimSpace | backend/internal/ratelimit/ratelimit.go:259-269 | moving two indices inwards trims blanks and tabs at both ends |
| ForwardedFor.NthFromRight | backend/internal/ratelimit/ratelimit.go:230-245 | for every string and every n the backwards scan equals splitting on commas and trimming the n-th token from the right, empty when there are fewer |
| ForwardedFor.ProxiesShift | backend/internal/ratelimit/ratelimit.go:190-225 | a hop appended by a trusted proxy moves the selected token by one place, so what a client puts on the left is not reached |
| ForwardedFor.PeerHostForms | backend/internal/ratelimit/ratelimit.go:220-224 | the port and brackets are dropped from a peer address, which is used as it is when it has no port |
| ForwardedFor.ClientIp | backend/internal/ratelimit/ratelimit.go:198-225 | which of forwarded list, X-Real-IP and peer host is used |
| Lockout.ComputeDelay | backend/internal/auth/lockout.go:147-157 | the doubling loop yields min(max, base * 2^(failures - threshold)) and never passes 2 * max |
| Lockout.SweepInvisible | backend/internal/auth/lockout.go:174-186 | a sweep changes the lockout answer of no source, then or at any later time |
| Lockout.SweepInvisibleInRuns | backend/internal/auth/lockout.go:174-186 | until the next failure, no reply in any sequence of looks and successes depends on whether a sweep took place |
| Lockout.EvictionNeedsSilence | backend/internal/auth/lockout.go:174-186 | an entry goes only after a full ttl of silence and unlocked |
| Lockout.DefaultDelays | backend/internal/auth/lockout.go:22-38 | with the default parameters: no delay before the fifth failure, then one second doubling up to the fourteenth, a quarter of an hour from the fifteenth on |
| Lockout.PersistentIsRemembered | backend/internal/auth/lockout.go:174-186 | a source that never succeeds and tries at least once in a ttl is never evicted between two attempts |
| Lockout.FailuresTakeTime | backend/internal/auth/handlers.go:441-488 | from any state of the tracker and in any traffic: while a source attempts one at a time, without a success and without being evicted between two attempts, its next n failures arm exactly the next n delays of the backoff and end no earlier than the running lockout plus the first n - 1 of them |
| Lockout.SuccessForgets | backend/internal/auth/lockout.go:164-171 | after a success its source has no failures and no lock at any time, and no other source's entry has changed |
| Lockout.SuccessStartsOver | backend/internal/auth/lockout.go:126-171 | from a success on, in any traffic: the next n failures of that source, attempted one at a time, arm exactly the first n delays of the backoff, so none below the threshold |
| Lockout.LockedForDelay | backend/internal/auth/lockout.go:101-160 | a failure answered with a delay locks its source for exactly that long, and a look tells the time left |
| Lockout.BelowThresholdIsFree | backend/internal/auth/lockout.go:126-146 | no failure below the threshold arms a delay, and a request without a source never does |
| Lockout.SweepDropsIdle | backend/internal/auth/lockout.go:174-186 | a due sweep leaves exactly the entries seen within a ttl or still locked |
| Lockout.LoginLockout.constructor | backend/internal/auth/lockout.go:72-85 | a tracker starts empty |
| Lockout.LoginLockout.Locked | backend/internal/auth/lockout.go:101-120 | the time left, positive exactly while locked; a look counts as activity |
| Lockout.LoginLockout.RecordFailure | backend/internal/auth/lockout.go:126-160 | one failure more, and from the threshold on a lockout of the closed-form delay |
| Lockout.LoginLockout.RecordSuccess | backend/internal/auth/lockout.go:164-171 | the source is forgotten |
| Lockout.LoginLockout.MaybeSweep | backend/internal/auth/lockout.go:174-186 | at most once per ttl, exactly the idle unlocked entries go |
| SingleUse.ConsumeExact | backend/internal/auth/singleuse.go:95-141 | over any run the verdicts are those of a guard that only remembers accepted uses: true exactly when the key has no live use and fewer than maxEntries uses are live; sweeping and eviction never show |
| SingleUse.SingleUseOverRuns | backend/internal/auth/singleuse.go:95-122 | a key accepted twice was accepted the second time no earlier than the first ttl after the first |
| SingleUse.NeverOverCap | backend/internal/auth/singleuse.go:95-122 | the map never exceeds maxEntries |
| SingleUse.VerdictsExactly | backend/internal/auth/singleuse.go:95-122 | the j-th call of any run is refused exactly if its key was accepted by an earlier call less than that call's ttl ago, or maxEntries keys were |
| SingleUse.SweepsExpired | backend/internal/auth/singleuse.go:99-105 | a call that comes a sweep interval after the last sweep leaves no expired entry behind |
| SingleUse.MemSingleUseStore.constructor | backend/internal/auth/singleuse.go:69-80 | a store starts empty |
| SingleUse.MemSingleUseStore.EvictExpired | backend/internal/auth/singleuse.go:135-141 | exactly the expired entries go, in whatever order the map is walked |
| SingleUse.MemSingleUseStore.Consume | backend/internal/auth/singleuse.go:95-132 | one call of the guard: throttled sweep, replay check, cap check with a second eviction, then the new expiry |
| ProviderCache.CacheIsTransparent | backend/internal/oidccfg/build.go:26-68 | in every sequential run of logins and saves each login gets a provider or cached error built from the configuration in force, equal in every field, the allowlists that the key leaves out included |
| ProviderCache.KeyDetermines | backend/internal/oidccfg/oidccfg.go:147-152 | under the same settings an equal key means an equal configuration |
| ProviderCache.KeyIs | backend/internal/oidccfg/oidccfg.go:147-152 | two configurations have the same key exactly if issuer, client id, client secret and redirect agree |
| ProviderCache.ResolveExactly | backend/internal/oidccfg/resolve.go:21-121 | every field by itself: the environment's value of that field, locked, if set; else the stored one of that field if not blank; else the stated default. A list holds exactly the trimmed lower-cased non-blank members of its own source, each once |
| ProviderCache.LoginExactly | backend/internal/oidccfg/build.go:26-68 | a login gets a provider or cached error exactly if those settings switch OIDC on with a client id and a secret, and one whose every field is what those settings say |
| ProviderCache.OutcomeSticks | backend/internal/oidccfg/build.go:41-48 | what discovery gave, provider or error, is what every later login with the key gets until the next save |
| ProviderCache.DiscoveryRuns | backend/internal/oidccfg/build.go:50-68 | discovery runs exactly when nothing is cached for the key, and its outcome is what is remembered |
| ProviderCache.DiscovererIs | backend/internal/oidccfg/build.go:41-68 | the discovery that the cache holds, read off the trace: none was followed by a persisted save, and every lookup after it had its key |
| ProviderCache.DiscovererBegins | backend/internal/oidccfg/build.go:41-68 | that discovery begins its stretch: the lookup just before it had another key, or a save came between |
| ProviderCache.AnswersExactly | backend/internal/oidccfg/build.go:26-68 | in every interleaving of logins that resolve first and lock later, and of saves, each login gets the outcome of the discovery that its own lookup leaves in the cache |
| ProviderCache.RightExactly | backend/internal/oidccfg/build.go:26-68 | in every interleaving, a login that overlaps no persisted save is answered from the configuration in force exactly when that is unusable or the discovery then cached was made by a login that had resolved the same configuration; a wrong answer comes from a discovery by a login that a save had overtaken |
| ProviderCache.SplitLoginsTransparent | backend/internal/oidccfg/build.go:26-68 | if no save is persisted between the two halves of a login, every login of the run is answered from exactly the configuration in force |
| ProviderCache.InForceIsStored | backend/internal/oidccfg/oidccfg.go:249-278 | the configuration in force is the stored one if and only if the first read after the last save did not fail, or nothing is stored |
| ProviderCache.FailedReadSticks | backend/internal/oidccfg/oidccfg.go:249-278 | after one failed read a configured login stays switched off, although the next read would succeed |
| ProviderCache.OldLoginFirst | backend/internal/api/admin_oidc.go:234-242 | one save between the two halves of a login that finishes before any newer one: the next login is answered wrongly exactly when both configurations are usable and have the same key but differ elsewhere |
| ProviderCache.FreshLoginFirst | backend/internal/api/admin_oidc.go:234-242 | if a fresh login finishes before the overtaken one, under the same key, the next login is answered rightly |
| ProviderCache.NormalizedIs | backend/internal/oidccfg/resolve.go:220-241 | a normalized list has no repeats, nothing empty or upper-case, and exactly the trimmed lower-cased members of its source |
| ProviderCache.NormalizedInOrder | backend/internal/oidccfg/resolve.go:220-241 | members come in the order of their first appearance |
| ProviderCache.Provider.constructor | backend/internal/oidccfg/oidccfg.go:203-223 | both caches start cold |
| ProviderCache.Provider.InvalidateCache | backend/internal/oidccfg/oidccfg.go:227-232 | only the remembered settings are dropped |
| ProviderCache.Provider.InvalidateProvider | backend/internal/oidccfg/oidccfg.go:237-244 | only the remembered build is dropped |
| ProviderCache.Provider.CachedDbConfig | backend/internal/oidccfg/oidccfg.go:249-278 | one read is remembered, a failed one as nothing set |
| ProviderCache.Provider.ProviderFor | backend/internal/oidccfg/build.go:26-68 | one login on the four cache fields does what the two-step cache specification says, and every field of the provider it answers with, the three lists included, is what the settings it read say |
| ProviderCache.Provider.SaveDone | backend/internal/api/admin_oidc.go:239-242 | after a stored save both caches are cold |
| ProviderCache.SplitCsv | backend/internal/oidccfg/resolve.go:208-217 | the trimmed non-empty fields between commas, in order |
| ProviderCache.LowerList | backend/internal/oidccfg/resolve.go:220-241 | the loop with its seen set computes the normalized list |
| Reaper.PassSafe | backend/internal/ops/ops.go:164-254 | wherever a pass stops, by an error, crash or cancellation at any step, rows were purged only of past-grace sites whose .git is gone, a .git went only after a bundle attempt, and no other site was touched |
| Reaper.StepSound | backend/internal/ops/ops.go:190-229 | creating, soft-deleting and reaping keep every repository its row and every lost repository a bundle attempt, and leave live sites alone |
| Reaper.AlwaysSound | backend/internal/ops/ops.go:186-229 | the same in every reachable state, whatever crashed before |
| Reaper.AccountsAddUp | backend/internal/ops/ops.go:164-184 | in a pass that was not cut short, reaped + skipped + errors is the number of listed sites |
| Reaper.VerdictExactly | backend/internal/ops/ops.go:190-229 | a site counts as reaped exactly if its repository was there, was bundled or at least tried, was removed and its row purged; as skipped exactly if there was none and its row was purged |
| Reaper.CountersExactly | backend/internal/ops/ops.go:164-184 | in every pass, cut short or not, each of the three counters goes up by the number of sites with that outcome |
| Reaper.SmoothPass | backend/internal/ops/ops.go:164-254 | an undisturbed pass purges every listed row and removes every listed .git, from any state |
| Reaper.Converges | backend/internal/ops/ops.go:164-170 | from any crash state a later undisturbed pass finishes the job and the next one has nothing to do |
| Reaper.LeftoversExactly | backend/internal/ops/ops.go:192-203 | a row is purged, whether reported as done or as an error, with part of its directory left behind exactly when its .git had already gone and something else had not |
| Reaper.LeftoversReachable | backend/internal/ops/ops.go:211-214 | that state is one failed removal away |
| Reaper.RecoverableExactly | backend/internal/ops/ops.go:245-252 | a reaped site has a bundle exactly when this bundle or an earlier one succeeded, since a failed one does not stop the removal |
| Reaper.RecoverableInRuns | backend/internal/ops/ops.go:164-254 | in every reachable state a site whose repository is gone was offered to git bundle, and its history is in a bundle exactly when one of those attempts succeeded |
| Reaper.LossReachable | backend/internal/ops/ops.go:245-252 | a run that loses a history: one bundle fails and everything else goes well |
| Reaper.LeftoversInRuns | backend/internal/ops/ops.go:190-229 | in every reachable state a site without a row has something left on disk exactly when, in some pass, the removal of its directory was reached, took the .git and left something else |
| Reaper.Ops.Bundle | backend/internal/ops/ops.go:235-254 | a missing or uncreatable backup directory is an error, a failing git bundle is not |
| Reaper.Ops.ReapOne | backend/internal/ops/ops.go:190-229 | one site on the mutable rows and directories follows the protocol step by step |
| Reaper.Ops.Reap | backend/internal/ops/ops.go:164-184 | the loop over the listing, with its counters, is the pass of the protocol |
| Resolver.SameNames | backend/internal/resolve/resolver.go:167-208 | the resolver's handle and branch validators accept exactly the names the site package does |
| Resolver.ReservedIsNotFound | backend/internal/resolve/resolver.go:183-187 | the one handle problem reported as 404 is a reserved word that is otherwise valid |
| Resolver.LabelResolves | backend/internal/resolve/resolver.go:356-423 | a label gives a pair exactly when it is the rendering of that pair, both names are valid and together fit one 63-octet DNS label (section 2.3.4 of RFC 1035) |
| Resolver.LabelErrorsExactly | backend/internal/resolve/resolver.go:356-396 | which label gets which error: a malformed handle, a reserved one, a malformed or published branch, or both together too long, in that order |
| Resolver.NotFoundExactly | backend/internal/resolve/resolver.go:321-350 | 404 is answered exactly for the bare base domain under a control label, a nested subdomain, and a reserved word in the place of a handle |
| Resolver.ResolveExactly | backend/internal/resolve/resolver.go:257-292 | a request is answered with a branch of a site exactly when its lower-cased, port-stripped host is the rendering of an addressable pair |
| Resolver.Rerenders | backend/internal/resolve/resolver.go:257-292 | every project answer re-renders to the host that asked for it |
| Resolver.HostsDiffer | backend/internal/resolve/resolver.go:356-396 | distinct valid pairs never share a host |
| Resolver.ControlExactly | backend/internal/resolve/resolver.go:321-350 | which hosts are the control plane's: the bare base domain, or the control label under it if one is set and holds no dot |
| Resolver.MisdirectedExactly | backend/internal/resolve/resolver.go:283-291 | 421 is answered exactly for a non-empty host outside the base domain |
| Resolver.RoundTripExactly | backend/internal/resolve/resolver.go:257-292 | rendering a pair and resolving it, in any letter case and with or without a port, gives the pair back exactly when it is addressable and, without a port, the base domain has no colon |
| Resolver.PortIsStripped | backend/internal/resolve/resolver.go:427-443 | case and port make no difference to the stripped host, except that a colon in the base domain is taken for a port |
| Resolver.CleanBase | backend/internal/resolve/resolver.go:306-316 | whichever base domain is in effect is lower-case and has no blank at either end |
| Resolver.HostChosen | backend/internal/resolve/resolver.go:400-410 | a trusted forwarded host counts first, and of a list its first entry; then the Host header; then the host of the URL |
| Resolver.OtherHostsAreIgnored | backend/internal/resolve/resolver.go:257-292 | hosts that do not count, and an untrusted forwarded one, never change the answer |
| Resolver.BaseChosen | backend/internal/resolve/resolver.go:306-316 | the request's own base domain counts if there is a source for it and it is not blank, else the configured one; both are trimmed and lower-cased |
| Resolver.BracketsKept | backend/internal/resolve/resolver.go:427-443 | a bracketed address keeps its brackets and loses what follows |
| Resolver.SitesAreReachable | backend/internal/resolve/resolver.go:356-396 | with no control label every valid handle is reachable, and its draft exactly when the handle has at most 56 characters |
| PreviewCache.KeyInjective | backend/internal/serve/treeprovider.go:206 | the NUL keeps handle and branch apart for every handle the resolver lets through |
| PreviewCache.CacheAgrees | backend/internal/serve/treeprovider.go:202-255 | in every interleaving the entries are exactly the last stores not evicted since, with the last use the trace tells, and never more than max |
| PreviewCache.HitsExactly | backend/internal/serve/treeprovider.go:208-215 | a lookup hits exactly when the last store for that handle and branch was not evicted and is less than ttl old, and returns a tree the wrapped provider had given for them |
| PreviewCache.EvictsLeastRecentlyUsed | backend/internal/serve/treeprovider.go:235-249 | an entry is given up exactly when the cache is full, and then one used no later than any other |
| PreviewCache.LookupsAreInvisible | backend/internal/serve/treeprovider.go:208-215 | a lookup never changes which other lookup hits |
| PreviewCache.NewestServedExactly | backend/internal/serve/treeprovider.go:202-231 | a hit returns the newest answer given for its target if the store it comes from was overtaken by no newer answer, before or since, and, when all answers differ, only then |
| PreviewCache.InTurnServesNewest | backend/internal/serve/treeprovider.go:202-231 | as long as the fills for a target are taken in turn, every hit on it is the newest answer given for it |
| PreviewCache.OlderAnswerCanWin | backend/internal/serve/treeprovider.go:219-230 | of two concurrent misses the older of two different answers can be stored last and is then served |
| PreviewCache.OrderGrows | backend/internal/serve/treeprovider.go:250-254 | one preview that keeps expiring in a cache with room for two makes lruOrder as long as one likes |
| PreviewCache.OrderBoundedIff | backend/internal/serve/treeprovider.go:224-254 | the length of lruOrder is bounded over all runs if and only if the cache has room for a single entry |
| PreviewCache.CachingTreeProvider.constructor | backend/internal/serve/treeprovider.go:185-196 | a cache starts empty |
| PreviewCache.CachingTreeProvider.Lookup | backend/internal/serve/treeprovider.go:208-215 | the first locked section: a fresh entry is served and marked as used |
| PreviewCache.CachingTreeProvider.LeastRecent | backend/internal/serve/treeprovider.go:240-246 | the range loop finds an entry that no other was used before |
| PreviewCache.CachingTreeProvider.EvictIfNeeded | backend/internal/serve/treeprovider.go:235-255 | below the bound nothing goes, at the bound one least recently used entry does |
| PreviewCache.CachingTreeProvider.Fill | backend/internal/serve/treeprovider.go:224-230 | the second locked section: make room, then store with a fresh expiry |
| PreviewCache.CachingTreeProvider.Tree | backend/internal/serve/treeprovider.go:202-231 | published targets, errors and a disabled cache pass through with the entries unchanged; otherwise hit, or fill |
| Base64.DecodeEncode | backend/internal/serve/authz.go:149-171 | decoding undoes encoding for every byte string (base64url without padding, section 5 of RFC 4648), and an encoding holds no separator of the grant |
| Base64.KnownEncodings | backend/internal/serve/authz.go:149-171 | the alphabet of section 5 of RFC 4648 on two examples |
| Fields.ParseFormatInt | backend/internal/serve/authz.go:150 | a formatted integer parses back exactly when it fits 64 bits |
| Fields.ParseFormatUuid | backend/internal/serve/authz.go:150 | a printed UUID parses back |
| Text.SplitAround | backend/internal/serve/authz.go:180-183 | splitting across a separator is splitting both sides: where a colon in the branch adds a field |
| Grants.SignatureFound | backend/internal/serve/authz.go:167-172 | the last colon splits off the signature, whatever the payload |
| Grants.AtSecondsExact | backend/internal/serve/authz.go:150-192 | writing an instant as Unix seconds and reading it back gives its second, for every instant Go can store: the two 64-bit wraps cancel |
| Grants.PayloadExactly | backend/internal/serve/authz.go:180-196 | a signed payload is accepted, as what it says, exactly when the branch has no colon and the expiry second has not been reached |
| Grants.RoundTripExactly | backend/internal/serve/authz.go:149-197 | for every secret, site, branch and expiry: verifying a signed grant returns the same site, branch and expiry second if and only if the branch has no colon and the current second is before the expiry second; otherwise it is refused |
| Grants.AcceptedIsCanonical | backend/internal/serve/authz.go:164-197 | an accepted grant signed again under the same secret is accepted as the same grant |
| Grants.AcceptedExactly | backend/internal/serve/authz.go:164-197 | for any token and clock: accepted as a grant exactly if the part after its last colon decodes to the MAC of the part before, that part spells out the grant's site, branch and expiry, and the expiry has not been reached; every refusal is an unauthorized one |
| Grants.ForgeryRefused | backend/internal/serve/authz.go:167-179 | a payload with any signature but its own MAC, an empty one included, is refused |
| Grants.OtherSecretRefused | backend/internal/serve/authz.go:149-179 | a grant signed under a secret that gives its payload another MAC is refused, for every site, branch, expiry and clock |
| Grants.LinkDecides | backend/internal/serve/authz.go:205-234 | a link decides alone, whatever cookie or token comes with it: refused once expired, forbidden for another site or branch, otherwise a cookie and a clean address |
| Grants.BearerDecides | backend/internal/serve/authz.go:235-248 | with no link, and no cookie or one that is not accepted, the bearer token decides, and without one the request is refused |
| Grants.CookieLifetime | backend/internal/serve/authz.go:125-136 | a cookie lives as long as configured, or twelve hours if that is not positive |
| Grants.StripGrant | backend/internal/serve/authz.go:283-308 | the loop over the raw pairs, with its early continues, computes the specified address |
| Grants.StripExactly | backend/internal/serve/authz.go:283-308 | stripping keeps the path and exactly the non-empty pairs whose raw key is not kpt, in order, and doing it again changes nothing |
| Grants.LinkStrips | backend/internal/api/preview.go:93-96 | the address printed for a preview strips to the bare root |
| Grants.VisitExactly | backend/internal/serve/authz.go:205-248 | the printed link is redirected to a clean address with a cookie until its expiry second; the cookie then admits to this site and branch until its own, is forbidden elsewhere and refused afterwards |

## Left out

- The pointer structs of the store (`fakeSite`, `fakeBranch`) are values inside the maps of the class,
  so sharing of one struct between two readers is not modelled.
- Timestamps, authors, messages, statistics, audit entries, patches and injected failures of the store
  have no effect on the properties and are not part of the model.
- Path validation and the archive reader are inputs: each write is told whether its path is valid, each
  import which entries the archive holds or which error reading it gave.
- Site ids are assumed fresh when a site is created.
- Listing sites, branches and files, reading files, served trees, remotes and mirroring only read or
  touch metadata. Of `ResolveForServing` the handle lookup is modelled, not the host or path parsing.
- Member management and roles, HTTP routing and JSON, cookies beyond their value, path-mode serving,
  garbage collection and the consistency check of the ops package.
- Letter case and blanks are ASCII: Go's folding and trimming of other characters is not modelled.
- The library functions used (sorting, splitting, joining, host and port splitting, time arithmetic,
  `rate.Limiter`, UUID text, integer text) are modelled from their documented behaviour. Token counts are exact reals, so rounding is not modelled.
- `Limiter.Len`, `size` and the clock setters only serve tests.
- A UUID in a grant is read in its 36-character form; the other spellings the library accepts never
  come out of signing.
- Query parameters reach the authorizer already decoded. Stripping compares raw keys, so a
  percent-encoded spelling of `kpt` is read as the parameter but not stripped.
- Discovery, git, the file system and the database are outcomes that each step is given.
- PreviewCache.HitsExactly: does not require that each store answers a lookup of its own, so it covers
  more runs than the code has, and none less.
- ProviderCache.AnswersExactly: takes a save -- storing the settings and dropping both caches -- as one
  step, and with it the results built on it.
- Lockout.FailuresTakeTime: is for a source that attempts one at a time; concurrent attempts can all
  pass the look before any of them is recorded. A success ends the stretch it speaks of, and the next
  one starts from no failures.
