/**
 What holds over whole runs of the site store: logs that only grow, writes that are
 never lost, handles that stay with their site.
 backend/internal/site/fake.go
 */
module SiteRuns {
  import opened Prelude
  import opened Text
  import opened Shas
  import opened Handles
  import opened Trees
  import opened Logs
  import opened SiteModel
  import opened SiteInvariant

  // ---- what one operation may do to a site ----

  /** Every branch that survives the step has grown; draft and published survive; a deleted site is frozen. */
  ghost predicate SiteGrows(a: Site, b: Site) {
    (a.deleted ==> b == a) &&
    (forall n :: n in a.branches && n in b.branches ==> a.branches[n] <= b.branches[n]) &&
    (forall n :: n in a.branches && (n == DRAFT || n == PUBLISHED) ==> n in b.branches)
  }

  ghost predicate Grows(s: Store, s': Store) {
    forall i :: i in s.sites ==> i in s'.sites && SiteGrows(s.sites[i], s'.sites[i])
  }

  lemma PutGrows(s: Store, id: SiteId, site: Site, s': Store)
    requires s'.sites == s.sites[id := site]
    requires id in s.sites ==> SiteGrows(s.sites[id], site)
    ensures Grows(s, s')
  {}

  lemma LogGrows(s: Store, id: SiteId, name: string, log: Log, s': Store)
    requires IsLive(s, id) && s'.sites == PutLog(s, id, name, log).sites
    requires name in s.sites[id].branches ==> s.sites[id].branches[name] <= log
    ensures Grows(s, s')
  {
    PutGrows(s, id, s.sites[id].(branches := s.sites[id].branches[name := log]), s');
  }

  lemma RenameGrows(s: Store, id: SiteId, h: string)
    requires IsLive(s, id)
    ensures Grows(s, After(s, RenameTo(s, id, s.sites[id], h)))
  {
    if h != s.sites[id].handle && RenameTo(s, id, s.sites[id], h).Ok? {
      PutGrows(s, id, s.sites[id].(handle := h), After(s, RenameTo(s, id, s.sites[id], h)));
    }
  }

  lemma CreateSiteGrows(s: Store, id: SiteId, h: string, zip: Option<Archive>, html: Content)
    requires id !in s.sites
    ensures Grows(s, After(s, CreateSite(s, id, h, zip, html)))
  {
    var r := CreateSite(s, id, h, zip, html);
    if r.Ok? { PutGrows(s, id, r.value.1, r.value.0); }
  }

  lemma DeleteSiteGrows(s: Store, id: SiteId)
    ensures Grows(s, After(s, DeleteSite(s, id)))
  {
    if IsLive(s, id) { PutGrows(s, id, s.sites[id].(deleted := true), After(s, DeleteSite(s, id))); }
  }

  lemma CreateBranchGrows(s: Store, id: SiteId, name: string, from: string)
    requires Valid(s)
    ensures Grows(s, After(s, CreateBranch(s, id, name, from)))
  {
    if CreateBranch(s, id, name, from).Ok? {
      LogGrows(s, id, name, s.sites[id].branches[if from == "" then DRAFT else from],
        After(s, CreateBranch(s, id, name, from)));
    }
  }

  lemma DeleteBranchGrows(s: Store, id: SiteId, name: string)
    ensures Grows(s, After(s, DeleteBranch(s, id, name)))
  {
    var r := DeleteBranch(s, id, name);
    if r.Ok? { PutGrows(s, id, s.sites[id].(branches := s.sites[id].branches - {name}), r.value.0); }
  }

  lemma PublishGrows(s: Store, id: SiteId, from: string, base: string)
    requires Valid(s)
    ensures Grows(s, After(s, Publish(s, id, from, base)))
  {
    hide Valid, Publish, PublishLog;
    var r := Publish(s, id, from, base);
    if r.Ok? {
      PublishShape(s, id, from, base);
      var name := if from == "" then DRAFT else from;
      PublishedLogGood(s, id, name);
      PublishLogShape(s, id, s.sites[id].branches[name]);
      PutGrows(s, id, r.value.0.sites[id], r.value.0);
    }
  }

  lemma WriteGrows(s: Store, op: Op)
    requires Valid(s) && IsWrite(op)
    ensures Grows(s, After(s, WriteReply(s, op)))
  {
    hide Valid, WriteReply;
    WriteShape(s, op);
    var r := WriteReply(s, op);
    if r.Ok? {
      LogGrows(s, op.id, op.branch, Append(LogOf(s, op.id, op.branch), r.value.1.tree, s.counter + 1), r.value.0);
    }
  }

  lemma GrowsReflexive(s: Store)
    ensures Grows(s, s)
  {}

  lemma RenameHandleGrows(s: Store, id: SiteId, h: string)
    ensures Grows(s, After(s, RenameHandle(s, id, h)))
  {
    hide RenameTo, Grows;
    GrowsReflexive(s);
    if IsLive(s, id) { RenameGrows(s, id, ToLower(h)); }
  }

  /** One operation only ever extends the logs it leaves in place. */
  lemma StepGrows(s: Store, op: Op)
    requires Valid(s)
    ensures Grows(s, Step(s, op))
  {
    hide Valid, WriteReply, CreateSite, RenameHandle, DeleteSite,
      CreateBranch, DeleteBranch, CommitStaged, Publish, Grows;
    GrowsReflexive(s);
    if IsWrite(op) {
      WriteGrows(s, op);
    } else {
      match op
      case OpCreateSite(id, h, zip, html) => if id !in s.sites { CreateSiteGrows(s, id, h, zip, html); }
      case OpRename(id, h) => RenameHandleGrows(s, id, h);
      case OpDeleteSite(id) => DeleteSiteGrows(s, id);
      case OpCreateBranch(id, name, from) => CreateBranchGrows(s, id, name, from);
      case OpDeleteBranch(id, name) => DeleteBranchGrows(s, id, name);
      case OpCommit(id, b, base) => NoCommitStaged(s, id, b, base);
      case OpPublish(id, from, base) => PublishGrows(s, id, from, base);
    }
  }

  // ---- draft and published never lose a commit ----

  /** The branches that cannot be deleted, across any number of steps. */
  ghost predicate KeepsHistory(s: Store, s': Store) {
    forall i, n :: i in s.sites && n in s.sites[i].branches && (n == DRAFT || n == PUBLISHED) ==>
      i in s'.sites && n in s'.sites[i].branches && s.sites[i].branches[n] <= s'.sites[i].branches[n]
  }

  lemma {:induction false} RunKeepsHistory(s: Store, ops: seq<Op>)
    requires Valid(s)
    ensures KeepsHistory(s, Run(s, ops))
    decreases |ops|
  {
    if ops != [] {
      StepValid(s, ops[0]);
      StepGrows(s, ops[0]);
      RunKeepsHistory(Step(s, ops[0]), ops[1..]);
      KeepsTransitive(s, Step(s, ops[0]), Run(s, ops));
    }
  }

  lemma KeepsTransitive(s: Store, s1: Store, s2: Store)
    requires Grows(s, s1) && KeepsHistory(s1, s2)
    ensures KeepsHistory(s, s2)
  {
    forall i, n | i in s.sites && n in s.sites[i].branches && (n == DRAFT || n == PUBLISHED)
      ensures i in s2.sites && n in s2.sites[i].branches && s.sites[i].branches[n] <= s2.sites[i].branches[n]
    {
      assert i in s1.sites && SiteGrows(s.sites[i], s1.sites[i]);
      assert n in s1.sites[i].branches;
      PrefixTransitive(s.sites[i].branches[n], s1.sites[i].branches[n], s2.sites[i].branches[n]);
    }
  }

  lemma PrefixTransitive(a: Log, b: Log, c: Log)
    requires a <= b && b <= c
    ensures a <= c
  {}

  /** The published log over any run: the old log is a prefix of the new one. */
  lemma PublishedOnlyExtends(s: Store, ops: seq<Op>, id: SiteId)
    requires Valid(s) && id in s.sites && PUBLISHED in s.sites[id].branches
    ensures id in Run(s, ops).sites && PUBLISHED in Run(s, ops).sites[id].branches
    ensures s.sites[id].branches[PUBLISHED] <= Run(s, ops).sites[id].branches[PUBLISHED]
  {
    RunKeepsHistory(s, ops);
  }

  // ---- no lost updates ----

  /** `op` is a write to an existing branch with this base sha, and it succeeds in `s`. */
  ghost predicate Commits(s: Store, op: Op, id: SiteId, branch: string, base: string)
    requires Valid(s)
  {
    IsWrite(op) && op.id == id && op.branch == branch && op.base == base &&
    WriteReply(s, op).Ok? && LogOf(s, id, branch) != []
  }

  /** A successful write appends exactly one commit on top of the caller's base, and touches nothing else. */
  lemma WriteExtendsByOne(s: Store, op: Op, id: SiteId, branch: string, base: string)
    requires Valid(s) && Commits(s, op, id, branch, base)
    ensures IsLive(s, id) && Tip(LogOf(s, id, branch)).sha == base && branch != PUBLISHED && branch != "" && base != ""
    ensures WriteReply(s, op).value.1.parents == [base]
    ensures Step(s, op) ==
      PutLog(s, id, branch, LogOf(s, id, branch) + [WriteReply(s, op).value.1]).(counter := s.counter + 1)
  {
    WriteShape(s, op);
  }

  /** The base of a successful write can never again be the tip of a branch that has only grown since. */
  lemma BaseIsSpent(s: Store, op: Op, id: SiteId, branch: string, base: string, later: Log)
    requires Valid(s) && Commits(s, op, id, branch, base)
    requires LogOf(Step(s, op), id, branch) <= later && DistinctShas(later)
    ensures later != [] && Tip(later).sha != base
  {
    WriteExtendsByOne(s, op, id, branch, base);
    var k := |LogOf(s, id, branch)| - 1;
    assert later[k].sha == base && k < |later| - 1;
  }

  /** Over any run, no two successful writes to draft name the same base. */
  lemma NoSharedBase(s: Store, ops: seq<Op>, i: nat, j: nat, id: SiteId, base: string)
    requires Valid(s) && i < j < |ops|
    ensures !(Commits(Run(s, ops[..i]), ops[i], id, DRAFT, base) && Commits(Run(s, ops[..j]), ops[j], id, DRAFT, base))
  {
    var before, atJ := Run(s, ops[..i]), Run(s, ops[..j]);
    if Commits(before, ops[i], id, DRAFT, base) && Commits(atJ, ops[j], id, DRAFT, base) {
      DraftKept(s, ops, i, j, id);
      DraftIsGood(atJ, id);
      BaseIsSpent(before, ops[i], id, DRAFT, base, LogOf(atJ, id, DRAFT));
      WriteExtendsByOne(atJ, ops[j], id, DRAFT, base);
      assert false;
    }
  }

  lemma DraftIsGood(s: Store, id: SiteId)
    requires Valid(s)
    ensures id in s.sites ==> GoodLog(LogOf(s, id, DRAFT), s.counter)
    ensures DistinctShas(LogOf(s, id, DRAFT))
  {
    if id in s.sites { assert ValidSite(s.sites[id], s.counter); }
  }

  /** What draft held right after operation `i` is still there before operation `j`. */
  lemma DraftKept(s: Store, ops: seq<Op>, i: nat, j: nat, id: SiteId)
    requires Valid(s) && i < j < |ops|
    ensures LogOf(StepOf(Run(s, ops[..i]), ops[i]), id, DRAFT) <= LogOf(Run(s, ops[..j]), id, DRAFT)
  {
    hide Valid, Step, Run, LogOf;
    var first, second := ops[..i + 1], ops[i + 1..j];
    assert ops[..j] == first + second;
    RunOneMore(s, ops, i);
    KeptBetween(s, first, second, id);
  }

  lemma KeptBetween(s: Store, first: seq<Op>, second: seq<Op>, id: SiteId)
    requires Valid(s)
    ensures LogOf(Run(s, first), id, DRAFT) <= LogOf(Run(s, first + second), id, DRAFT)
  {
    hide Valid, Run, KeepsHistory, LogOf;
    RunConcat(s, first, second);
    RunKeepsHistory(Run(s, first), second);
    KeepsLog(Run(s, first), Run(s, first + second), id);
  }

  lemma KeepsLog(s: Store, s': Store, id: SiteId)
    requires KeepsHistory(s, s')
    ensures LogOf(s, id, DRAFT) <= LogOf(s', id, DRAFT)
  {}

  lemma RunOneMore(s: Store, ops: seq<Op>, i: nat)
    requires Valid(s) && i < |ops|
    ensures StepOf(Run(s, ops[..i]), ops[i]) == Run(s, ops[..i + 1])
  {
    hide Valid, Step, Run, StepOf;
    RunSnoc(s, ops[..i], ops[i]);
    TakeSnoc(ops, i);
  }

  lemma RunSnoc(s: Store, ops: seq<Op>, op: Op)
    requires Valid(s)
    ensures Run(s, ops + [op]) == StepOf(Run(s, ops), op)
  {
    hide Valid, Step, Run, StepOf;
    RunConcat(s, ops, [op]);
    RunOne(Run(s, ops), op);
  }

  lemma RunOne(s: Store, op: Op)
    requires Valid(s)
    ensures Run(s, [op]) == StepOf(s, op)
  {
    hide Valid, Step;
    StepValid(s, op);
    assert [op][1..] == [];
  }

  ghost function StepOf(s: Store, op: Op): Store
    requires Valid(s)
  {
    Step(s, op)
  }

  /** What each write checks before it looks at the base. */
  predicate PassesEarlyChecks(op: Op)
    requires IsWrite(op)
  {
    op.branch != PUBLISHED && op.branch != "" && op.base != "" &&
    match op
    case OpWrite(_, _, _, _, _, pathOk) => pathOk
    case OpDeleteFile(_, _, _, _, pathOk) => pathOk
    case OpImport(_, _, archive, _) => archive.Ok?
    case OpRollback(_, _, toSha, _) => toSha != ""
  }

  /** What a conflict lists when it knows of no changed path. */
  function Hint(op: Op): seq<string>
    requires IsWrite(op)
  {
    if op.OpWrite? || op.OpDeleteFile? then [op.path] else []
  }

  /** The log does not hold the base, or nothing differs from it. */
  ghost predicate SameSince(log: Log, base: string)
    requires log != []
  {
    forall k :: 0 <= k < |log| && log[k].sha == base ==> log[k].tree == Tip(log).tree
  }

  lemma StaleReply(s: Store, op: Op)
    requires Valid(s) && IsWrite(op) && PassesEarlyChecks(op)
    requires IsLive(s, op.id) && op.branch in s.sites[op.id].branches
    requires LogOf(s, op.id, op.branch) != [] && Tip(LogOf(s, op.id, op.branch)).sha != op.base
    ensures
      var log := LogOf(s, op.id, op.branch);
      var changed := ChangedSince(log, op.base);
      WriteReply(s, op) ==
        Err(Conflict(op.branch, op.base, Tip(log).sha, if changed == {} then Hint(op) else Sorted(changed)))
  {
    hide Valid, ChangedSince;
  }

  /** A write, delete, import or rollback on a stale base is refused and changes nothing. The error names the
      tip and lists, ascending, exactly the paths changed since the base; if the branch does not hold the base,
      or nothing differs, it lists the path of the request, if it has one. */
  lemma StaleWriteRefused(s: Store, op: Op)
    requires Valid(s) && IsWrite(op) && PassesEarlyChecks(op)
    requires IsLive(s, op.id) && op.branch in s.sites[op.id].branches
    ensures LogOf(s, op.id, op.branch) != []
    ensures
      var log, r := LogOf(s, op.id, op.branch), WriteReply(s, op);
      Tip(log).sha != op.base ==>
        r.Err? && r.error.Conflict? && r.error.actual == Tip(log).sha && Step(s, op) == s &&
        (forall k :: 0 <= k < |log| && log[k].sha == op.base && log[k].tree != Tip(log).tree ==>
          Ascending(r.error.changed) && forall p :: p in r.error.changed <==> Changed(log[k].tree, Tip(log).tree, p)) &&
        (SameSince(log, op.base) ==> r.error.changed == Hint(op))
  {
    hide Valid, WriteReply;
    var log := LogOf(s, op.id, op.branch);
    LogIsGood(s, op.id, op.branch);
    if Tip(log).sha != op.base {
      StaleReply(s, op);
      StalePaths(log, op.base);
    }
  }

  /** The changed paths of a conflict, for each place the base may have in the log. */
  lemma StalePaths(log: Log, base: string)
    requires log != [] && DistinctShas(log)
    ensures forall k | 0 <= k < |log| && log[k].sha == base && log[k].tree != Tip(log).tree ::
      ChangedSince(log, base) != {} &&
      Ascending(Sorted(ChangedSince(log, base))) &&
      forall p :: p in Sorted(ChangedSince(log, base)) <==> Changed(log[k].tree, Tip(log).tree, p)
    ensures SameSince(log, base) ==> ChangedSince(log, base) == {}
  {
    forall k | 0 <= k < |log| && log[k].sha == base
      ensures ChangedSince(log, base) == {} <==> log[k].tree == Tip(log).tree
      ensures forall p :: p in Sorted(ChangedSince(log, base)) <==> Changed(log[k].tree, Tip(log).tree, p)
    {
      ShasUnique(log, k, PositionOf(log, base));
      DiffSetExact(log[k].tree, Tip(log).tree);
      forall p ensures p in Sorted(ChangedSince(log, base)) <==> Changed(log[k].tree, Tip(log).tree, p) {
        assert p in Sorted(ChangedSince(log, base)) <==> p in Elements(Sorted(ChangedSince(log, base)));
      }
    }
  }

  lemma DiffSetExact(a: Tree, b: Tree)
    ensures forall p :: p in DiffSet(a, b, "") <==> Changed(a, b, p)
    ensures a != b <==> DiffSet(a, b, "") != {}
  {
    if DiffSet(a, b, "") == {} {
      forall p ensures Lookup(a, p) == Lookup(b, p) { assert p !in DiffSet(a, b, ""); }
      SameTree(a, b);
    }
  }

  /** Rolling an open branch back to its commit `k` succeeds, with that commit's tree. */
  lemma RollbackReply(s: Store, id: SiteId, branch: string, k: nat)
    requires Valid(s) && IsLive(s, id) && k < |LogOf(s, id, branch)| && branch != PUBLISHED && branch != ""
    ensures var log := LogOf(s, id, branch);
      var op := OpRollback(id, branch, log[k].sha, Tip(log).sha);
      Commits(s, op, id, branch, Tip(log).sha) && WriteReply(s, op).value.1.tree == log[k].tree
  {
    hide Valid;
    var log := LogOf(s, id, branch);
    LogIsGood(s, id, branch);
    ShaNotEmpty(log, s.counter, k);
    ShaNotEmpty(log, s.counter, |log| - 1);
    ShasUnique(log, k, PositionOf(log, log[k].sha));
  }

  /** Rolling back to the base of a write restores, as a new commit, the tree the write started from. */
  lemma RollbackUndoesWrite(s: Store, op: Op, id: SiteId, branch: string, base: string)
    requires Valid(s) && Commits(s, op, id, branch, base)
    ensures Valid(Step(s, op))
    ensures var undo := OpRollback(id, branch, base, WriteReply(s, op).value.1.sha);
      Commits(Step(s, op), undo, id, branch, undo.base) &&
      WriteReply(Step(s, op), undo).value.1.tree == Tip(LogOf(s, id, branch)).tree
  {
    hide Valid, Step, WriteReply;
    WriteExtendsByOne(s, op, id, branch, base);
    StepValid(s, op);
    var log, c, s1 := LogOf(s, id, branch), WriteReply(s, op).value.1, Step(s, op);
    assert LogOf(s1, id, branch) == log + [c] && IsLive(s1, id);
    assert (log + [c])[|log| - 1] == Tip(log) && Tip(log + [c]) == c;
    RollbackReply(s1, id, branch, |log| - 1);
  }

  lemma ShaNotEmpty(log: Log, n: nat, k: nat)
    requires AllIssued(log, n) && k < |log|
    ensures log[k].sha != ""
  {
    assert Issued(log[k].sha, n);
  }

  // ---- handle permanence ----

  /** The site answers to `h`: as its live handle, or by one redirect hop. */
  ghost predicate HoldsHandle(s: Store, id: SiteId, h: string) {
    IsLive(s, id) && (s.sites[id].handle == h || (h in s.redirects && s.redirects[h] == id))
  }

  /** Holding a handle and being what it resolves to are the same thing, so a handle has one holder. */
  lemma HeldIsResolved(s: Store, id: SiteId, h: string)
    requires Valid(s)
    ensures HoldsHandle(s, id, h) <==> ResolveHandle(s, h) == Some(id)
  {}

  /** A held handle is lower-case, and closed to everyone else in every spelling: nobody can create or
      rename onto it. */
  lemma HeldIsTaken(s: Store, id: SiteId, h: string, other: SiteId, spelled: string,
                    zip: Option<Archive>, html: Content)
    requires Valid(s) && HoldsHandle(s, id, h) && other != id
    ensures ToLower(h) == h
    ensures ToLower(spelled) == h ==>
      CreateSite(s, other, spelled, zip, html).Err? && RenameHandle(s, other, spelled).Err?
  {
    hide ValidSite, ValidateHandle;
    LowerFixed(h);
  }

  lemma RenameKeepsHandles(s: Store, id: SiteId, renamed: string, holder: SiteId, h: string)
    requires Valid(s) && IsLive(s, id) && HoldsHandle(s, holder, h)
    ensures HoldsHandle(After(s, RenameTo(s, id, s.sites[id], renamed)), holder, h)
  {
    hide ValidSite;
    var s' := After(s, RenameTo(s, id, s.sites[id], renamed));
    assert forall i :: IsLive(s', i) <==> IsLive(s, i);
    assert forall i :: IsLive(s', i) && i != id ==> s'.sites[i] == s.sites[i];
  }

  /** Same redirects, and no handle changed. */
  ghost predicate SameHandleTable(s: Store, s': Store) {
    s'.redirects == s.redirects &&
    forall i :: i in s.sites ==> i in s'.sites && s'.sites[i].handle == s.sites[i].handle
  }

  lemma WriteLeavesHandles(s: Store, op: Op)
    requires Valid(s) && IsWrite(op)
    ensures SameHandleTable(s, After(s, WriteReply(s, op)))
  {
    WriteShape(s, op);
  }

  lemma PublishLeavesHandles(s: Store, id: SiteId, from: string, base: string)
    requires Valid(s)
    ensures SameHandleTable(s, After(s, Publish(s, id, from, base)))
  {
    if Publish(s, id, from, base).Ok? {
      PublishShape(s, id, from, base);
      PublishLogShape(s, id, s.sites[id].branches[if from == "" then DRAFT else from]);
    }
  }

  lemma CreateSiteLeavesHandles(s: Store, id: SiteId, h: string, zip: Option<Archive>, html: Content)
    requires id !in s.sites
    ensures SameHandleTable(s, After(s, CreateSite(s, id, h, zip, html)))
  {}

  lemma DeleteSiteLeavesHandles(s: Store, id: SiteId)
    ensures SameHandleTable(s, After(s, DeleteSite(s, id)))
  {}

  lemma BranchesLeaveHandles(s: Store, id: SiteId, name: string, from: string)
    requires Valid(s)
    ensures SameHandleTable(s, After(s, CreateBranch(s, id, name, from)))
    ensures SameHandleTable(s, After(s, DeleteBranch(s, id, name)))
  {
    hide Valid, ValidateBranchName;
  }

  /** Nothing but a rename changes a handle or a redirect. */
  lemma StepLeavesHandles(s: Store, op: Op)
    requires Valid(s) && !op.OpRename?
    ensures SameHandleTable(s, Step(s, op))
  {
    hide Valid, WriteReply, CreateSite, DeleteSite,
      CreateBranch, DeleteBranch, Publish;
    if IsWrite(op) {
      WriteLeavesHandles(s, op);
    } else {
      match op
      case OpCreateSite(id, h, zip, html) => if id !in s.sites { CreateSiteLeavesHandles(s, id, h, zip, html); }
      case OpDeleteSite(id) => DeleteSiteLeavesHandles(s, id);
      case OpCreateBranch(id, name, from) => BranchesLeaveHandles(s, id, name, from);
      case OpDeleteBranch(id, name) => BranchesLeaveHandles(s, id, name, "");
      case OpCommit(id, b, base) => NoCommitStaged(s, id, b, base);
      case OpPublish(id, from, base) => PublishLeavesHandles(s, id, from, base);
    }
  }

  lemma StepKeepsHandles(s: Store, op: Op, holder: SiteId, h: string)
    requires Valid(s) && HoldsHandle(s, holder, h) && IsLive(Step(s, op), holder)
    ensures HoldsHandle(Step(s, op), holder, h)
  {
    hide Valid;
    if op.OpRename? {
      if IsLive(s, op.id) { RenameKeepsHandles(s, op.id, ToLower(op.handle), holder, h); }
    } else {
      StepLeavesHandles(s, op);
    }
  }

  lemma {:induction false} DeletedStaysDeleted(s: Store, ops: seq<Op>, id: SiteId)
    requires Valid(s) && id in s.sites && s.sites[id].deleted
    ensures id in Run(s, ops).sites && Run(s, ops).sites[id] == s.sites[id]
    decreases |ops|
  {
    if ops != [] {
      StepValid(s, ops[0]);
      StepGrows(s, ops[0]);
      assert SiteGrows(s.sites[id], Step(s, ops[0]).sites[id]);
      DeletedStaysDeleted(Step(s, ops[0]), ops[1..], id);
    }
  }

  /** Once a site has held a handle, the handle resolves to it for as long as the site is not deleted. */
  lemma {:induction false} HandlePermanence(s: Store, ops: seq<Op>, id: SiteId, h: string)
    requires Valid(s) && ResolveHandle(s, h) == Some(id)
    requires IsLive(Run(s, ops), id)
    ensures ResolveHandle(Run(s, ops), h) == Some(id)
    decreases |ops|
  {
    HeldIsResolved(s, id, h);
    if ops != [] {
      var s1 := Step(s, ops[0]);
      StepValid(s, ops[0]);
      StepGrows(s, ops[0]);
      if !IsLive(s1, id) { DeletedStaysDeleted(s1, ops[1..], id); }
      StepKeepsHandles(s, ops[0], id, h);
      HeldIsResolved(s1, id, h);
      HandlePermanence(s1, ops[1..], id, h);
    }
  }
}
