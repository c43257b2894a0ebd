/**
 What a caller of the site store sees: exactly when each operation succeeds, and what it then changes and
 what it leaves alone -- in terms of handles resolved, logs and files, not of how the operation works.
 backend/internal/site/fake.go
 */
module SiteEffects {
  import opened Prelude
  import opened Text
  import opened Shas
  import opened Handles
  import opened Trees
  import opened Logs
  import opened SiteModel
  import opened SiteInvariant
  import opened SiteRuns
  import opened SitePublish

  /** All sites but one are as they were. */
  ghost predicate OnlySite(s: Store, s': Store, id: SiteId) {
    s'.sites.Keys == s.sites.Keys + {id} && forall i :: i in s.sites && i != id ==> s'.sites[i] == s.sites[i]
  }

  /** All branches of the site but one are as they were, and so is everything else about it and the store,
      apart from the counter. */
  ghost predicate OnlyBranch(s: Store, s': Store, id: SiteId, branch: string) {
    OnlySite(s, s', id) && s'.redirects == s.redirects && IsLive(s, id) && IsLive(s', id) &&
    s'.sites[id].handle == s.sites[id].handle &&
    forall b :: b != branch ==>
      (b in s'.sites[id].branches <==> b in s.sites[id].branches) && LogOf(s', id, b) == LogOf(s, id, b)
  }

  /** No handle but `h` resolves differently. */
  ghost predicate OnlyHandle(s: Store, s': Store, h: string) {
    forall other :: other != h ==> ResolveHandle(s', other) == ResolveHandle(s, other)
  }

  // ---- handles ----

  /** A former handle of another site that has been deleted: nobody can have it again. */
  predicate LeftByDeleted(s: Store, h: string, id: SiteId) {
    h in s.redirects && s.redirects[h] != id && !IsLive(s, s.redirects[h])
  }

  /** A handle is free for a site if it resolves to no other, and was not left behind by a deleted one. */
  ghost predicate FreeFor(s: Store, h: string, id: SiteId) {
    (ResolveHandle(s, h).None? || ResolveHandle(s, h) == Some(id)) && !LeftByDeleted(s, h, id)
  }

  lemma FreeExactly(s: Store, h: string, id: SiteId)
    requires Valid(s)
    ensures FreeFor(s, h, id) <==>
      (forall i :: IsLive(s, i) && s.sites[i].handle == h ==> i == id) && (h in s.redirects ==> s.redirects[h] == id)
  {
    hide ValidSite;
    if HandleLive(s, h) {
      var i :| IsLive(s, i) && s.sites[i].handle == h;
      HeldIsResolved(s, i, h);
    } else if h in s.redirects && IsLive(s, s.redirects[h]) {
      HeldIsResolved(s, s.redirects[h], h);
    }
  }

  /** Exactly when a rename succeeds. */
  lemma RenameExactly(s: Store, id: SiteId, h: string)
    requires Valid(s)
    ensures RenameHandle(s, id, h).Ok? <==> ValidateHandle(h).None? && IsLive(s, id) && FreeFor(s, ToLower(h), id)
  {
    hide ValidSite, ValidateHandle, FreeFor;
    FreeExactly(s, ToLower(h), id);
  }

  /** What a successful rename does: the new handle is live and resolves to the site, the old one still does,
      and nothing else changes. */
  lemma RenameTakesEffect(s: Store, id: SiteId, h: string)
    requires Valid(s) && RenameHandle(s, id, h).Ok?
    ensures
      var (s', site) := RenameHandle(s, id, h).value;
      IsLive(s, id) && IsLive(s', id) && s'.sites[id] == site == s.sites[id].(handle := ToLower(h)) &&
      ResolveHandle(s', ToLower(h)) == Some(id) && ResolveHandle(s', s.sites[id].handle) == Some(id) &&
      OnlyHandle(s, s', ToLower(h)) && OnlySite(s, s', id) && s'.counter == s.counter
  {
    hide ValidSite, ValidateHandle, ResolveHandle, HoldsHandle;
    var s' := RenameHandle(s, id, h).value.0;
    RenameHandleValid(s, id, h);
    RenamedHolders(s, id, ToLower(h));
    HeldIsResolved(s', id, ToLower(h));
    HeldIsResolved(s', id, s.sites[id].handle);
    forall other | other != ToLower(h) ensures ResolveHandle(s', other) == ResolveHandle(s, other) {
      SameResolution(s, s', other);
    }
  }

  lemma RenamedHolders(s: Store, id: SiteId, h: string)
    requires Valid(s) && IsLive(s, id) && RenameTo(s, id, s.sites[id], h).Ok?
    ensures
      var s' := RenameTo(s, id, s.sites[id], h).value.0;
      HoldsHandle(s', id, h) && HoldsHandle(s', id, s.sites[id].handle) &&
      forall other, i :: other != h ==> (HoldsHandle(s, i, other) <==> HoldsHandle(s', i, other))
  {
    hide ValidSite;
  }

  /** A handle held by the same sites resolves alike. */
  lemma SameResolution(s: Store, s': Store, h: string)
    requires Valid(s) && Valid(s') && forall i :: HoldsHandle(s, i, h) <==> HoldsHandle(s', i, h)
    ensures ResolveHandle(s', h) == ResolveHandle(s, h)
  {
    hide Valid, HoldsHandle, ResolveHandle;
    var a, b := ResolveHandle(s, h), ResolveHandle(s', h);
    if a.Some? {
      HeldIsResolved(s, a.value, h);
      HeldIsResolved(s', a.value, h);
    } else if b.Some? {
      HeldIsResolved(s, b.value, h);
      HeldIsResolved(s', b.value, h);
    }
  }

  lemma ReservedIs(h: string)
    ensures ValidateHandle(h) == Some(Reserved) <==> h in RESERVED_HANDLES
  {
    ReservedWords(h);
    LabelIsWellFormed(h);
    if WellFormed(h) { WellFormedIsLower(h); }
    hide WellFormed, ToLower, MatchesLabel;
  }

  lemma ReservedWords(h: string)
    ensures h in RESERVED_HANDLES ==> WellFormed(h) && |h| >= 3
  {
    hide WellFormed;
    LogicalNames();
    NetworkNames();
    PageNames();
  }

  lemma LogicalNames()
    ensures WellFormed("draft") && WellFormed("preview") && WellFormed("published") && WellFormed("www")
  {}

  lemma NetworkNames()
    ensures WellFormed("api") && WellFormed("internal") && WellFormed("host") && WellFormed("admin")
  {}

  lemma PageNames()
    ensures WellFormed("app") && WellFormed("static") && WellFormed("assets") && WellFormed("mcp")
  {}

  /** A reserved word is refused as such, by creation and renaming alike. */
  lemma ReservedRefused(s: Store, id: SiteId, h: string, zip: Option<Archive>, html: Content)
    requires h in RESERVED_HANDLES
    ensures CreateSite(s, id, h, zip, html) == Err(ReservedHandle) && RenameHandle(s, id, h) == Err(ReservedHandle)
  {
    hide ValidateHandle;
    ReservedIs(h);
  }

  // ---- sites ----

  predicate IsLast(entries: seq<(string, Content)>, i: nat, p: string)
    requires i < |entries|
  {
    entries[i].0 == p && forall j :: i < j < |entries| ==> entries[j].0 != p
  }

  /** The tree of an archive: a path is there if an entry names it, with the content of the last one that does. */
  lemma {:induction false} TreeOfExactly(entries: seq<(string, Content)>, p: string)
    ensures p in TreeOf(entries) <==> exists i :: 0 <= i < |entries| && entries[i].0 == p
    ensures forall i | 0 <= i < |entries| && IsLast(entries, i, p) :: Lookup(TreeOf(entries), p) == Some(entries[i].1)
    decreases |entries|
  {
    if entries != [] {
      var front := entries[..|entries| - 1];
      TreeOfExactly(front, p);
      assert forall i :: 0 <= i < |front| ==> front[i] == entries[i];
    }
  }

  /** Exactly when a site can be created, and why not. */
  lemma CreateExactly(s: Store, id: SiteId, h: string, zip: Option<Archive>, html: Content)
    requires Valid(s) && id !in s.sites
    ensures
      var r := CreateSite(s, id, h, zip, html);
      (r.Ok? <==> ValidateHandle(h).None? && FreeFor(s, ToLower(h), id) && (zip.Some? ==> zip.value.Ok?)) &&
      (ValidateHandle(h).None? && !FreeFor(s, ToLower(h), id) ==> r == Err(HandleTaken)) &&
      (r.Err? && ValidateHandle(h).None? && FreeFor(s, ToLower(h), id) ==> r.error == zip.value.error)
  {
    hide ValidSite, ValidateHandle, FreeFor;
    FreeExactly(s, ToLower(h), id);
  }

  /** What creating a site does: its handle resolves to it, its only branch is a draft of one root commit with
      the uploaded files or the default page, and nothing else changes. */
  lemma CreateTakesEffect(s: Store, id: SiteId, h: string, zip: Option<Archive>, html: Content)
    requires Valid(s) && id !in s.sites && CreateSite(s, id, h, zip, html).Ok?
    ensures
      var (s', site) := CreateSite(s, id, h, zip, html).value;
      IsLive(s', id) && s'.sites[id] == site && site.handle == ToLower(h) && site.publishedSha == None &&
      ResolveHandle(s', ToLower(h)) == Some(id) && OnlyHandle(s, s', ToLower(h)) && OnlySite(s, s', id) &&
      s'.redirects == s.redirects && s'.counter == s.counter + 1 && site.branches.Keys == {"draft"} &&
      var log := site.branches["draft"];
      |log| == 1 && log[0].parents == [] && log[0].sha == Sha(s.counter + 1) &&
      (zip.None? ==> log[0].tree == map["index.html" := html]) &&
      (zip.Some? ==> zip.value.Ok? && log[0].tree == TreeOf(zip.value.value))
  {
    hide Valid, ValidHandles, CreateSite, ResolveHandle, HoldsHandle;
    var s' := CreateSite(s, id, h, zip, html).value.0;
    SeedIs(s, id, h, zip, html);
    CreateSiteValid(s, id, h, zip, html);
    assert ValidHandles(s) by { ValidHas(s); }
    SeededHolders(s, id, s'.sites[id], s');
    HeldIsResolved(s', id, ToLower(h));
    forall other | other != ToLower(h) ensures ResolveHandle(s', other) == ResolveHandle(s, other) {
      SameResolution(s, s', other);
    }
  }

  lemma ValidHas(s: Store)
    requires Valid(s)
    ensures ValidHandles(s)
  {}

  lemma SeedIs(s: Store, id: SiteId, h: string, zip: Option<Archive>, html: Content)
    requires CreateSite(s, id, h, zip, html).Ok?
    ensures zip.Some? ==> zip.value.Ok?
    ensures CreateSite(s, id, h, zip, html).value ==
      SeedSite(s, id, ToLower(h), if zip.None? then map["index.html" := html] else TreeOf(zip.value.value))
  {
    hide ValidateHandle;
  }

  lemma SeededHolders(s: Store, id: SiteId, site: Site, s': Store)
    requires id !in s.sites && !site.deleted && s'.sites == s.sites[id := site] && s'.redirects == s.redirects
    requires ValidHandles(s)
    ensures HoldsHandle(s', id, site.handle)
    ensures forall other, i :: other != site.handle ==> (HoldsHandle(s, i, other) <==> HoldsHandle(s', i, other))
  {}

  /** Deleting succeeds for live sites, and marks that site and nothing else; every handle that resolved to it
      stops resolving, and no other handle changes. */
  lemma DeleteTakesEffect(s: Store, id: SiteId, h: string)
    requires Valid(s)
    ensures DeleteSite(s, id).Ok? <==> IsLive(s, id)
    ensures DeleteSite(s, id).Err? ==> DeleteSite(s, id).error == NotFound
    ensures IsLive(s, id) ==>
      var s' := DeleteSite(s, id).value.0;
      !IsLive(s', id) && OnlySite(s, s', id) && s'.redirects == s.redirects && s'.counter == s.counter &&
      s'.sites[id] == s.sites[id].(deleted := true) &&
      ResolveHandle(s', h) == if ResolveHandle(s, h) == Some(id) then None else ResolveHandle(s, h)
  {
    hide ValidSite, ResolveHandle;
    if IsLive(s, id) {
      var s' := DeleteSite(s, id).value.0;
      DeleteSiteValid(s, id);
      if ResolveHandle(s, h) == Some(id) {
        HeldIsResolved(s, id, h);
        NobodyElse(s, s', id, h);
      } else {
        HeldIsResolved(s, id, h);
        assert forall i :: i != id ==> (IsLive(s', i) <==> IsLive(s, i));
        SameResolution(s, s', h);
      }
    }
  }

  lemma NobodyElse(s: Store, s': Store, id: SiteId, h: string)
    requires Valid(s) && Valid(s') && HoldsHandle(s, id, h) && !IsLive(s', id)
    requires forall i :: HoldsHandle(s', i, h) ==> HoldsHandle(s, i, h)
    ensures ResolveHandle(s', h) == None
  {
    hide Valid, ResolveHandle;
    HeldIsResolved(s, id, h);
    var r := ResolveHandle(s', h);
    if r.Some? {
      HeldIsResolved(s', r.value, h);
      HeldIsResolved(s, r.value, h);
      assert false;
    }
  }

  /** A deleted site gives back the handle it had, but not the ones it had before: those are gone for good. */
  lemma DeletedHandles(s: Store, id: SiteId, next: SiteId, former: string, zip: Option<Archive>, html: Content)
    requires Valid(s) && IsLive(s, id) && next !in s.sites
    requires former in s.redirects && s.redirects[former] == id
    ensures
      var s', h := DeleteSite(s, id).value.0, s.sites[id].handle;
      (ValidateHandle(h).None? ==> CreateSite(s', next, h, None, html).Ok?) &&
      CreateSite(s', next, former, zip, html).Err?
  {
    hide ValidSite, ValidateHandle;
    LowerFixed(s.sites[id].handle);
    LowerFixed(former);
  }

  // ---- branches ----

  /** Branching succeeds for a well-formed, unprotected, new name and an existing source -- draft if none is
      named -- and copies the whole log of the source. */
  lemma CreateBranchExactly(s: Store, id: SiteId, name: string, from: string)
    requires Valid(s)
    ensures
      var r, source := CreateBranch(s, id, name, from), if from == "" then "draft" else from;
      (r.Ok? <==>
        ValidateBranchName(name).None? && name != "draft" && name != "published" && IsLive(s, id) &&
        name !in s.sites[id].branches && source in s.sites[id].branches) &&
      (r.Ok? ==>
        LogOf(r.value.0, id, name) == LogOf(s, id, source) != [] && r.value.1 == Tip(LogOf(s, id, source)) &&
        OnlyBranch(s, r.value.0, id, name) && r.value.0.counter == s.counter)
  {
    hide Valid, ValidateBranchName;
    if IsLive(s, id) { LogThere(s, id, if from == "" then "draft" else from); }
  }

  /** Deleting a branch succeeds for an existing one that is not protected, and removes it alone. */
  lemma DeleteBranchExactly(s: Store, id: SiteId, name: string)
    requires Valid(s)
    ensures
      var r := DeleteBranch(s, id, name);
      (r.Ok? <==> name != "draft" && name != "published" && IsLive(s, id) && name in s.sites[id].branches) &&
      (r.Ok? ==>
        name !in r.value.0.sites[id].branches && OnlyBranch(s, r.value.0, id, name) && r.value.0.counter == s.counter)
  {
    hide Valid;
  }

  // ---- writes ----

  /** The branch exists, and the caller's base is its tip. */
  ghost predicate UpToDate(s: Store, id: SiteId, branch: string, base: string) {
    IsLive(s, id) && LogOf(s, id, branch) != [] && Tip(LogOf(s, id, branch)).sha == base
  }

  predicate Unprotected(branch: string) {
    branch != "published" && branch != ""
  }

  /** One commit more on the branch, its parent the old tip, under the next sha; nothing else changes. */
  ghost predicate Extended(s: Store, s': Store, id: SiteId, branch: string, c: Commit) {
    var log := LogOf(s, id, branch);
    LogOf(s', id, branch) == log + [c] && c.parents == (if log == [] then [] else [Tip(log).sha]) &&
    c.sha == Sha(s.counter + 1) && s'.counter == s.counter + 1 && OnlyBranch(s, s', id, branch)
  }

  lemma CommitOnExtends(s: Store, id: SiteId, branch: string, tree: Tree)
    requires Valid(s) && IsLive(s, id)
    ensures
      var (s', c) := CommitOn(s, id, branch, LogOf(s, id, branch), tree);
      Extended(s, s', id, branch, c) && c.tree == tree
  {
    hide Valid;
  }

  lemma LogThere(s: Store, id: SiteId, branch: string)
    requires Valid(s) && id in s.sites
    ensures branch in s.sites[id].branches <==> LogOf(s, id, branch) != []
  {
    assert ValidSite(s.sites[id], s.counter);
  }

  /** Writing a file: when, and what becomes of every path. */
  lemma WriteFileExactly(s: Store, id: SiteId, branch: string, path: string, content: Content, base: string,
                         pathOk: bool)
    requires Valid(s)
    ensures
      var r := WriteFile(s, id, branch, path, content, base, pathOk);
      (r.Ok? <==> Unprotected(branch) && pathOk && base != "" && UpToDate(s, id, branch, base)) &&
      (r.Ok? ==>
        Extended(s, r.value.0, id, branch, r.value.1) &&
        forall p :: Lookup(r.value.1.tree, p) ==
          if p == path then Some(content) else Lookup(Tip(LogOf(s, id, branch)).tree, p))
  {
    hide Valid, ChangedSince, CommitOn, Extended;
    if IsLive(s, id) {
      LogThere(s, id, branch);
      if LogOf(s, id, branch) != [] {
        CommitOnExtends(s, id, branch, Tip(LogOf(s, id, branch)).tree[path := content]);
      }
    }
  }

  /** Deleting a file: it has to be there, and no other path is touched. */
  lemma DeleteFileExactly(s: Store, id: SiteId, branch: string, path: string, base: string, pathOk: bool)
    requires Valid(s)
    ensures
      var r := DeleteFile(s, id, branch, path, base, pathOk);
      (r.Ok? <==>
        Unprotected(branch) && pathOk && base != "" && UpToDate(s, id, branch, base) &&
        path in Tip(LogOf(s, id, branch)).tree) &&
      (r.Ok? ==>
        Extended(s, r.value.0, id, branch, r.value.1) &&
        forall p :: Lookup(r.value.1.tree, p) ==
          if p == path then None else Lookup(Tip(LogOf(s, id, branch)).tree, p))
  {
    hide Valid, ChangedSince, CommitOn, Extended;
    if IsLive(s, id) {
      LogThere(s, id, branch);
      if LogOf(s, id, branch) != [] {
        CommitOnExtends(s, id, branch, Tip(LogOf(s, id, branch)).tree - {path});
      }
    }
  }

  /** Importing: onto an existing branch it needs the tip as base, and some path has to differ; an absent branch
      starts with a root commit and needs no base. The commit holds exactly what the archive holds. */
  lemma ImportExactly(s: Store, id: SiteId, branch: string, zip: Archive, base: string)
    requires Valid(s)
    ensures
      var r, log := ImportZip(s, id, branch, zip, base), LogOf(s, id, branch);
      (r.Ok? <==>
        Unprotected(branch) && zip.Ok? && IsLive(s, id) &&
        (log != [] ==> base != "" && Tip(log).sha == base && Tip(log).tree != TreeOf(zip.value))) &&
      (r.Ok? ==> Extended(s, r.value.0, id, branch, r.value.1) && r.value.1.tree == TreeOf(zip.value)) &&
      (Unprotected(branch) && base != "" && UpToDate(s, id, branch, base) ==>
        zip.Ok? && Tip(log).tree == TreeOf(zip.value) ==> r == Err(NothingToCommit))
  {
    hide Valid, ChangedSince, CommitOn, Extended;
    if IsLive(s, id) && zip.Ok? {
      LogThere(s, id, branch);
      CommitOnExtends(s, id, branch, TreeOf(zip.value));
    }
  }

  /** Rolling back: to any commit of the branch, whose tree it commits again. */
  lemma RollbackExactly(s: Store, id: SiteId, branch: string, toSha: string, base: string)
    requires Valid(s)
    ensures
      var r, log := Rollback(s, id, branch, toSha, base), LogOf(s, id, branch);
      (r.Ok? <==>
        Unprotected(branch) && base != "" && toSha != "" && UpToDate(s, id, branch, base) &&
        exists k :: 0 <= k < |log| && log[k].sha == toSha) &&
      (r.Ok? ==>
        Extended(s, r.value.0, id, branch, r.value.1) &&
        forall k :: 0 <= k < |log| && log[k].sha == toSha ==> r.value.1.tree == log[k].tree)
  {
    hide Valid, ChangedSince, CommitOn, Extended;
    if IsLive(s, id) {
      LogThere(s, id, branch);
      var log := LogOf(s, id, branch);
      if log != [] && Holds(log, toSha) {
        LogIsGood(s, id, branch);
        forall k | 0 <= k < |log| && log[k].sha == toSha ensures k == PositionOf(log, toSha) {
          ShasUnique(log, k, PositionOf(log, toSha));
        }
        CommitOnExtends(s, id, branch, log[PositionOf(log, toSha)].tree);
      }
    }
  }

  /** Committing what is staged never succeeds; with everything in order it says that nothing is. */
  lemma CommitStagedExactly(s: Store, id: SiteId, branch: string, base: string)
    requires Valid(s)
    ensures CommitStaged(s, id, branch, base).Err?
    ensures Unprotected(branch) && base != "" && UpToDate(s, id, branch, base) ==>
      CommitStaged(s, id, branch, base) == Err(NothingToCommit)
  {
    hide Valid, ChangedSince;
    if IsLive(s, id) { LogThere(s, id, branch); }
  }

  /** Why a write is refused before its base is looked at: a protected or nameless branch, a bad path, a missing
      base or target, a bad archive; then a site or branch that does not exist. */
  lemma RefusalsExactly(s: Store, op: Op)
    requires Valid(s) && IsWrite(op)
    ensures
      var r := WriteReply(s, op);
      (!Unprotected(op.branch) ==> r == Err(Invalid("branch"))) &&
      (Unprotected(op.branch) && !op.OpImport? && !op.OpRollback? && !op.pathOk ==> r == Err(Invalid("path"))) &&
      (Unprotected(op.branch) && op.OpImport? && op.archive.Err? ==> r == Err(op.archive.error)) &&
      (PassesEarlyChecks(op) && !IsLive(s, op.id) ==> r == Err(NotFound)) &&
      (PassesEarlyChecks(op) && !op.OpImport? && LogOf(s, op.id, op.branch) == [] ==> r == Err(NotFound))
    ensures Unprotected(op.branch) && op.base == "" && !op.OpImport? && (!op.OpRollback? ==> op.pathOk) ==>
      WriteReply(s, op) == Err(Invalid("baseSha"))
  {
    hide Valid, ChangedSince;
    if IsLive(s, op.id) { LogThere(s, op.id, op.branch); }
  }

  // ---- publish ----

  ghost predicate Clashing(pub: Log, src: Log) {
    pub != [] && src != [] && exists p :: Clash(Tip(pub).tree, Tip(src).tree, BaseTree(pub, src), p)
  }

  /** A publish of an existing source is refused for two reasons only, and says which. If the caller's base is
      not the source's tip, it names the source, the base and the tip. Otherwise exactly if the branches have
      diverged and some path was changed on both sides without ending equal; then it lists, ascending, exactly
      those paths. */
  lemma PublishExactly(s: Store, id: SiteId, from: string, base: string)
    requires Valid(s) && IsLive(s, id) && base != ""
    requires Source(from) != "published" && Source(from) in s.sites[id].branches
    ensures LogOf(s, id, Source(from)) != []
    ensures
      var r, pub, src := Publish(s, id, from, base), LogOf(s, id, PUBLISHED), LogOf(s, id, Source(from));
      (Tip(src).sha != base ==> r == Err(Conflict(Source(from), base, Tip(src).sha, []))) &&
      (Tip(src).sha == base ==>
        (r.Err? <==> Diverged(s, id, from) && Clashing(pub, src)) &&
        (r.Err? ==>
          r.error.PublishConflict? && Ascending(r.error.paths) &&
          forall p :: p in r.error.paths <==> Clash(Tip(pub).tree, Tip(src).tree, BaseTree(pub, src), p))) &&
      (r.Err? ==> Step(s, OpPublish(id, from, base)) == s)
  {
    hide Valid, Clash, Clashes, BaseTree;
    LogThere(s, id, Source(from));
    LogThere(s, id, PUBLISHED);
    var pub, src := LogOf(s, id, PUBLISHED), LogOf(s, id, Source(from));
    if pub != [] {
      ClashList(Tip(pub).tree, Tip(src).tree, BaseTree(pub, src));
    }
  }

  /** A publish that succeeds hands back the new tip of published and points to it. No other branch changes. */
  lemma PublishTakesEffect(s: Store, id: SiteId, from: string, base: string)
    requires Valid(s)
    ensures
      var r := Publish(s, id, from, base);
      r.Ok? ==>
        LogOf(r.value.0, id, PUBLISHED) != [] && r.value.1 == Tip(LogOf(r.value.0, id, PUBLISHED)) &&
        r.value.0.sites[id].publishedSha == Some(r.value.1.sha) && OnlyBranch(s, r.value.0, id, PUBLISHED)
  {
    hide Valid, Clash, Clashes, BaseTree;
    if IsLive(s, id) {
      LogThere(s, id, Source(from));
      LogThere(s, id, PUBLISHED);
    }
  }

  lemma ClashList(pub: Tree, src: Tree, base: Tree)
    ensures Clashes(pub, src, base) == {} <==> forall p :: !Clash(pub, src, base, p)
    ensures forall p :: p in Sorted(Clashes(pub, src, base)) <==> Clash(pub, src, base, p)
  {
    forall p ensures p in Sorted(Clashes(pub, src, base)) <==> Clash(pub, src, base, p) {
      ClashesComplete(pub, src, base, p);
      assert p in Sorted(Clashes(pub, src, base)) <==> p in Elements(Sorted(Clashes(pub, src, base)));
    }
    forall p ensures p in Clashes(pub, src, base) <==> Clash(pub, src, base, p) { ClashesComplete(pub, src, base, p); }
  }

  /** Publishing from published, without a base, from a site or a branch that does not exist. */
  lemma PublishRefusals(s: Store, id: SiteId, from: string, base: string)
    requires Valid(s)
    ensures
      var r := Publish(s, id, from, base);
      (from == "published" ==> r == Err(Invalid("from"))) &&
      (from != "published" && base == "" ==> r == Err(Invalid("baseSha"))) &&
      (from != "published" && base != "" && !IsLive(s, id) ==> r == Err(NotFound)) &&
      (from != "published" && base != "" && IsLive(s, id) ==>
        (if from == "" then "draft" else from) !in s.sites[id].branches ==> r == Err(NotFound))
  {
    hide Valid;
  }
}
