/**
 The in-memory site service: a class whose methods update its maps in place, each
 proved to do what SiteModel says. Maps are walked in an arbitrary order throughout.
 backend/internal/site/fake.go
 */
module FakeServiceModule {
  import opened Prelude
  import opened Text
  import opened Shas
  import opened Handles
  import opened Trees
  import opened Logs
  import M = SiteModel
  import opened SiteInvariant
  import opened BranchHistory

  /** `r` and the new state are exactly what the specification prescribes; an error changes nothing. */
  ghost predicate Did<T>(before: M.Store, after: M.Store, r: M.Result<T>, spec: M.Result<(M.Store, T)>) {
    match spec
    case Ok(v) => after == v.0 && r == Ok(v.1)
    case Err(e) => after == before && r == Err(e)
  }

  class FakeService {
    var sites: map<M.SiteId, M.Site>
    var redirects: map<string, M.SiteId>
    var counter: nat

    ghost function State(): M.Store
      reads this
    {
      M.Store(sites, redirects, counter)
    }

    ghost predicate Valid()
      reads this
    {
      M.Valid(State())
    }

    constructor ()
      ensures Valid() && State() == M.EMPTY_STORE
    {
      sites, redirects, counter := map[], map[], 0;
    }

    // ---- helpers ----

    /** nextSHA */
    method NextSha() returns (sha: string)
      modifies this`counter
      ensures counter == old(counter) + 1 && sha == Sha(counter)
    {
      counter := counter + 1;
      sha := Sha(counter);
    }

    /** The commit `commit` makes: next sha, the old tip as only parent. */
    method NewCommit(log: Log, tree: Tree) returns (c: Commit)
      modifies this`counter
      ensures counter == old(counter) + 1 && log + [c] == Append(log, tree, counter)
    {
      var parents: seq<string> := [];
      if log != [] {
        parents := [log[|log| - 1].sha];
      }
      var sha := NextSha();
      c := Logs.Commit(sha, parents, tree);
    }

    /** s.branches[branch] = log, for a site of the store. */
    method SetLog(id: M.SiteId, branch: string, log: Log)
      requires id in sites
      modifies this`sites
      ensures State() == M.PutLog(old(State()), id, branch, log)
    {
      var site := sites[id];
      sites := sites[id := site.(branches := site.branches[branch := log])];
    }

    /** commit: append to the branch's log. */
    method Commit(id: M.SiteId, branch: string, log: Log, tree: Tree) returns (c: Commit)
      requires id in sites
      modifies this
      ensures (State(), c) == M.CommitOn(old(State()), id, branch, log, tree)
    {
      c := NewCommit(log, tree);
      SetLog(id, branch, log + [c]);
    }

    method LiveSite(id: M.SiteId) returns (r: M.Result<M.Site>)
      ensures r == M.LiveSite(State(), id)
    {
      if id !in sites || sites[id].deleted {
        return Err(M.NotFound);
      }
      return Ok(sites[id]);
    }

    /** The collision loop of CreateSite and RenameHandle. */
    method HandleInUse(h: string) returns (r: bool)
      ensures r <==> M.HandleLive(State(), h)
    {
      var todo := sites.Keys;
      while todo != {}
        invariant todo <= sites.Keys
        invariant forall i :: i in sites && i !in todo ==> sites[i].deleted || sites[i].handle != h
      {
        var i :| i in todo;
        todo := todo - {i};
        if !sites[i].deleted && sites[i].handle == h {
          assert M.IsLive(State(), i);
          return true;
        }
      }
      return false;
    }

    method CheckHandle(h: string) returns (r: M.Result<()>)
      ensures r == M.CheckHandle(h)
    {
      match ValidateHandle(h)
      case None => return Ok(());
      case Some(Reserved) => return Err(M.ReservedHandle);
      case Some(_) => return Err(M.Invalid("handle"));
    }

    /** tree[e.path] = e.content over the entries, in order. */
    method ReadEntries(entries: seq<(string, Content)>) returns (tree: Tree)
      ensures tree == M.TreeOf(entries)
    {
      tree := map[];
      for i := 0 to |entries|
        invariant tree == M.TreeOf(entries[..i])
      {
        tree := tree[entries[i].0 := entries[i].1];
        assert entries[..i + 1][..i] == entries[..i];
      }
      assert entries[..|entries|] == entries;
    }

    /** checkBaseSHA */
    method CheckBaseSha(log: Log, branch: string, base: string, hint: seq<string>) returns (r: M.Result<()>)
      requires GoodLog(log, counter)
      ensures r == M.CheckBase(log, branch, base, hint)
    {
      var tip := log[|log| - 1];
      if tip.sha == base {
        return Ok(());
      }
      var changed := ChangedBetween(log, base, tip.sha);
      NoElements(changed);
      if |changed| == 0 {
        changed := hint;
      }
      return Err(M.Conflict(branch, base, tip.sha, changed));
    }

    /** The part all guarded writes share: live site, existing branch, fresh base. */
    method OpenBranch(id: M.SiteId, branch: string, base: string, hint: seq<string>) returns (r: M.Result<Log>)
      requires Valid()
      ensures r == M.OpenBranch(State(), id, branch, base, hint)
    {
      var site :- LiveSite(id);
      if branch !in site.branches {
        return Err(M.NotFound);
      }
      var log := site.branches[branch];
      assert GoodLog(log, counter) by { LogIsGood(State(), id, branch); }
      var _ :- CheckBaseSha(log, branch, base, hint);
      return Ok(log);
    }

    // ---- site lifecycle ----

    /** CreateSite. uuid.New gives an id no site has had. */
    method CreateSite(id: M.SiteId, h: string, zip: Option<M.Archive>, indexHtml: Content) returns (r: M.Result<M.Site>)
      requires Valid() && id !in sites
      modifies this
      ensures Valid()
      ensures Did(old(State()), State(), r, M.CreateSite(old(State()), id, h, zip, indexHtml))
    {
      hide M.Valid;
      CreateSiteValid(State(), id, h, zip, indexHtml);
      var _ :- CheckHandle(h);
      var lower := ToLower(h);
      var taken := HandleInUse(lower);
      if taken {
        return Err(M.HandleTaken);
      }
      if lower in redirects {
        return Err(M.HandleTaken);
      }
      var tree: Tree := map[];
      if zip.Some? {
        var entries :- zip.value;
        tree := ReadEntries(entries);
      } else {
        tree := tree["index.html" := indexHtml];
      }
      var root := NewCommit([], tree);
      var draft: Log := [] + [root];
      var site := M.Site(lower, false, None, map[DRAFT := draft]);
      sites := sites[id := site];
      return Ok(site);
    }

    method RenameHandle(id: M.SiteId, newHandle: string) returns (r: M.Result<M.Site>)
      requires Valid()
      modifies this
      ensures Valid()
      ensures Did(old(State()), State(), r, M.RenameHandle(old(State()), id, newHandle))
    {
      RenameHandleValid(State(), id, newHandle);
      var _ :- CheckHandle(newHandle);
      var site :- LiveSite(id);
      var lower := ToLower(newHandle);
      if lower == site.handle {
        return Ok(site);
      }
      var taken := HandleInUse(lower);
      if taken {
        return Err(M.HandleTaken);
      }
      if lower in redirects && redirects[lower] != id {
        return Err(M.HandleTaken);
      }
      redirects := redirects - {lower};
      redirects := redirects[site.handle := id];
      site := site.(handle := lower);
      sites := sites[id := site];
      return Ok(site);
    }

    method DeleteSite(id: M.SiteId) returns (r: M.Result<()>)
      requires Valid()
      modifies this
      ensures Valid()
      ensures Did(old(State()), State(), r, M.DeleteSite(old(State()), id))
    {
      DeleteSiteValid(State(), id);
      var site :- LiveSite(id);
      sites := sites[id := site.(deleted := true)];
      return Ok(());
    }

    // ---- branches ----

    method CreateBranch(id: M.SiteId, name: string, from: string) returns (r: M.Result<Commit>)
      requires Valid()
      modifies this
      ensures Valid()
      ensures Did(old(State()), State(), r, M.CreateBranch(old(State()), id, name, from))
    {
      hide M.Valid, Handles.ValidateBranchName;
      CreateBranchValid(State(), id, name, from);
      if ValidateBranchName(name).Some? {
        return Err(M.Invalid("branch"));
      }
      if name == PUBLISHED || name == DRAFT {
        return Err(M.Invalid("branch"));
      }
      var site :- LiveSite(id);
      if name in site.branches {
        return Err(M.BranchExists);
      }
      var fromBranch := from;
      if from == "" {
        fromBranch := DRAFT;
      }
      if fromBranch !in site.branches {
        return Err(M.NotFound);
      }
      SiteFacts(State(), id);
      var tip := Tip(site.branches[fromBranch]);
      var log := CommitsUpTo(site.branches, tip.sha);
      assert log == site.branches[fromBranch] by {
        var src := site.branches[fromBranch];
        assert src[|src| - 1].sha == tip.sha && src[..|src|] == src;
      }
      SetLog(id, name, log);
      return Ok(tip);
    }

    method DeleteBranch(id: M.SiteId, name: string) returns (r: M.Result<()>)
      requires Valid()
      modifies this
      ensures Valid()
      ensures Did(old(State()), State(), r, M.DeleteBranch(old(State()), id, name))
    {
      DeleteBranchValid(State(), id, name);
      if name == PUBLISHED || name == DRAFT {
        return Err(M.Invalid("branch"));
      }
      var site :- LiveSite(id);
      if name !in site.branches {
        return Err(M.NotFound);
      }
      sites := sites[id := site.(branches := site.branches - {name})];
      return Ok(());
    }

    // ---- writes ----

    method WriteFile(id: M.SiteId, branch: string, path: string, content: Content, base: string, pathOk: bool)
      returns (r: M.Result<Commit>)
      requires Valid()
      modifies this
      ensures Valid()
      ensures Did(old(State()), State(), r, M.WriteFile(old(State()), id, branch, path, content, base, pathOk))
    {
      hide M.Valid, M.CommitOn;
      WriteValid(State(), M.OpWrite(id, branch, path, content, base, pathOk));
      if branch == PUBLISHED || branch == "" {
        return Err(M.Invalid("branch"));
      }
      if !pathOk {
        return Err(M.Invalid("path"));
      }
      if base == "" {
        return Err(M.Invalid("baseSha"));
      }
      var log :- OpenBranch(id, branch, base, [path]);
      LogIsGood(State(), id, branch);
      var tree := log[|log| - 1].tree;
      tree := tree[path := content];
      var c := Commit(id, branch, log, tree);
      return Ok(c);
    }

    method DeleteFile(id: M.SiteId, branch: string, path: string, base: string, pathOk: bool)
      returns (r: M.Result<Commit>)
      requires Valid()
      modifies this
      ensures Valid()
      ensures Did(old(State()), State(), r, M.DeleteFile(old(State()), id, branch, path, base, pathOk))
    {
      hide M.Valid, M.CommitOn;
      WriteValid(State(), M.OpDeleteFile(id, branch, path, base, pathOk));
      if branch == PUBLISHED || branch == "" {
        return Err(M.Invalid("branch"));
      }
      if !pathOk {
        return Err(M.Invalid("path"));
      }
      if base == "" {
        return Err(M.Invalid("baseSha"));
      }
      var log :- OpenBranch(id, branch, base, [path]);
      LogIsGood(State(), id, branch);
      var tree := log[|log| - 1].tree;
      if path !in tree {
        return Err(M.NotFound);
      }
      tree := tree - {path};
      var c := Commit(id, branch, log, tree);
      return Ok(c);
    }

    /** Commit: nothing is ever staged. */
    method CommitStaged(id: M.SiteId, branch: string, base: string) returns (r: M.Result<Commit>)
      requires Valid()
      ensures Did(State(), State(), r, M.CommitStaged(State(), id, branch, base))
    {
      if branch == PUBLISHED || branch == "" {
        return Err(M.Invalid("branch"));
      }
      if base == "" {
        return Err(M.Invalid("baseSha"));
      }
      var _ :- OpenBranch(id, branch, base, []);
      return Err(M.NothingToCommit);
    }

    method ImportZip(id: M.SiteId, branch: string, zip: M.Archive, base: string) returns (r: M.Result<Commit>)
      requires Valid()
      modifies this
      ensures Valid()
      ensures Did(old(State()), State(), r, M.ImportZip(old(State()), id, branch, zip, base))
    {
      hide M.Valid, M.CommitOn;
      WriteValid(State(), M.OpImport(id, branch, zip, base));
      if branch == PUBLISHED || branch == "" {
        return Err(M.Invalid("branch"));
      }
      var entries :- zip;
      var site :- LiveSite(id);
      var log: Log := [];
      if branch in site.branches {
        if base == "" {
          return Err(M.Invalid("baseSha"));
        }
        log :- OpenBranch(id, branch, base, []);
        LogIsGood(State(), id, branch);
      }
      var tree := ReadEntries(entries);
      if log != [] {
        var same := TreesEqual(log[|log| - 1].tree, tree);
        if same {
          return Err(M.NothingToCommit);
        }
      }
      var c := Commit(id, branch, log, tree);
      return Ok(c);
    }

    method Rollback(id: M.SiteId, branch: string, toSha: string, base: string) returns (r: M.Result<Commit>)
      requires Valid()
      modifies this
      ensures Valid()
      ensures Did(old(State()), State(), r, M.Rollback(old(State()), id, branch, toSha, base))
    {
      hide M.Valid, M.CommitOn;
      WriteValid(State(), M.OpRollback(id, branch, toSha, base));
      if branch == PUBLISHED || branch == "" {
        return Err(M.Invalid("branch"));
      }
      if base == "" {
        return Err(M.Invalid("baseSha"));
      }
      if toSha == "" {
        return Err(M.Invalid("toSha"));
      }
      var log :- OpenBranch(id, branch, base, []);
      LogIsGood(State(), id, branch);
      var target := FindCommit(log, toSha);
      if target.None? {
        return Err(M.NotFound);
      }
      var c := Commit(id, branch, log, target.value.tree);
      return Ok(c);
    }

    // ---- publish ----

    /** s.branches[published] = log, and the published pointer with it. */
    method SetPublished(id: M.SiteId, log: Log)
      requires id in sites && log != []
      modifies this`sites
      ensures State() == M.SetPublished(old(State()), id, log)
    {
      var site := sites[id];
      site := site.(branches := site.branches[PUBLISHED := log]);
      site := site.(publishedSha := Some(log[|log| - 1].sha));
      sites := sites[id := site];
    }

    method Publish(id: M.SiteId, from: string, base: string) returns (r: M.Result<Commit>)
      requires Valid()
      modifies this
      ensures Valid()
      ensures Did(old(State()), State(), r, M.Publish(old(State()), id, from, base))
    {
      hide M.Valid, M.PublishLog;
      PublishValid(State(), id, from, base);
      var source := from;
      if from == "" {
        source := DRAFT;
      }
      if source == PUBLISHED {
        return Err(M.Invalid("from"));
      }
      if base == "" {
        return Err(M.Invalid("baseSha"));
      }
      var site :- LiveSite(id);
      if source !in site.branches {
        return Err(M.NotFound);
      }
      var src := site.branches[source];
      LogIsGood(State(), id, source);
      var srcTip := src[|src| - 1];
      if srcTip.sha != base {
        return Err(M.Conflict(source, base, srcTip.sha, []));
      }
      r := PublishFrom(id, src, source);
    }

    /** Publish, once the request has been checked. */
    method PublishFrom(id: M.SiteId, src: Log, ghost source: string) returns (r: M.Result<Commit>)
      requires Valid() && M.IsLive(State(), id) && source != PUBLISHED
      requires source in sites[id].branches && src == sites[id].branches[source] && src != []
      modifies this
      ensures Did(old(State()), State(), r, M.PublishLog(old(State()), id, src))
    {
      hide M.Valid, Clashes, BaseTree, Coherent;
      ghost var before := State();
      var site := sites[id];
      var srcTip := src[|src| - 1];
      if PUBLISHED !in site.branches {
        SetPublished(id, src);
        return Ok(srcTip);
      }
      var pub := site.branches[PUBLISHED];
      PublishFacts(before, id, source);
      var pubTip := pub[|pub| - 1];
      if pubTip.sha == srcTip.sha {
        return Ok(pubTip);
      }
      var ancestor := IsAncestor(src, pubTip.sha);
      if ancestor {
        SetPublished(id, src);
        return Ok(srcTip);
      }
      var base := MergeBaseTree(pub, src);
      var conflicts := ConflictingPaths(pubTip.tree, srcTip.tree, base);
      NoElements(conflicts);
      if |conflicts| > 0 {
        return Err(M.PublishConflict(conflicts));
      }
      var merged := MergeTrees(pubTip.tree, srcTip.tree);
      var sha := NextSha();
      var mc := Logs.Commit(sha, [pubTip.sha, srcTip.sha], merged);
      SetPublished(id, pub + [mc]);
      return Ok(mc);
    }

    // ---- reads ----

    /** GetDiff: both refs resolved, a missing target read as the empty tree, then the exact diff. */
    method GetDiff(id: M.SiteId, from: string, to: string, path: string) returns (r: M.Result<seq<FileDiff>>)
      requires Valid()
      ensures r.Ok? ==> M.IsLive(State(), id) && exists a, b ::
        Resolves(sites[id].branches, from, a) && IsDiffTarget(sites[id].branches, a, to, b) &&
        IsDiff(r.value, a.tree, b, path)
      ensures r.Err? ==> r.error == M.NotFound
      ensures r.Err? && M.IsLive(State(), id) ==> forall a :: !Resolves(sites[id].branches, from, a)
    {
      var site :- LiveSite(id);
      SiteFacts(State(), id);
      var a := ResolveAnyRef(site.branches, from);
      if a.None? {
        return Err(M.NotFound);
      }
      var b := a.value.tree;
      if to != "" {
        var c := ResolveAnyRef(site.branches, to);
        if c.None? {
          b := map[];
        } else {
          b := c.value.tree;
        }
      }
      var files := DiffTrees(a.value.tree, b, path);
      assert IsDiffTarget(site.branches, a.value, to, b);
      return Ok(files);
    }

    /** GetLog: newest first, strictly older than the cursor, restricted to commits that touched the path. */
    method GetLog(id: M.SiteId, branch: string, limit: int, before: string, path: string)
      returns (r: M.Result<seq<Commit>>)
      requires Valid()
      ensures r == if M.IsLive(State(), id) && branch in sites[id].branches
                   then Ok(LogPage(sites[id].branches[branch], ServiceLimit(limit), before, path))
                   else Err(M.NotFound)
    {
      var n := limit;
      if n <= 0 {
        n := DEFAULT_LOG_LIMIT;
      }
      if n > MAX_LOG_LIMIT {
        n := MAX_LOG_LIMIT;
      }
      var site :- LiveSite(id);
      if branch !in site.branches {
        return Err(M.NotFound);
      }
      LogIsGood(State(), id, branch);
      var out := ReadPage(site.branches[branch], n, before, path);
      return Ok(out);
    }

    /** The handle part of ResolveForServing. */
    method ResolveHandle(h: string) returns (r: Option<M.SiteId>)
      requires Valid()
      ensures r == M.ResolveHandle(State(), h)
    {
      hide M.ValidSite;
      var todo := sites.Keys;
      while todo != {}
        invariant todo <= sites.Keys
        invariant forall i :: i in sites && i !in todo ==> sites[i].deleted || sites[i].handle != h
      {
        var i :| i in todo;
        todo := todo - {i};
        if !sites[i].deleted && sites[i].handle == h {
          assert M.IsLive(State(), i);
          return Some(i);
        }
      }
      if h in redirects {
        var owner := redirects[h];
        if owner in sites && !sites[owner].deleted {
          return Some(owner);
        }
      }
      return None;
    }
  }

  /** The tree a diff compares against: the source's own without a target, the empty one if the target is unknown. */
  ghost predicate IsDiffTarget(branches: Branches, a: Commit, to: string, b: Tree) {
    if to == "" then b == a.tree
    else if exists c :: Resolves(branches, to, c) then exists c :: Resolves(branches, to, c) && b == c.tree
    else b == map[]
  }

  lemma SiteFacts(s: M.Store, id: M.SiteId)
    requires M.Valid(s) && M.IsLive(s, id)
    ensures AllCoherent(s.sites[id].branches)
    ensures forall n :: n in s.sites[id].branches ==> s.sites[id].branches[n] != []
  {
    assert M.ValidSite(s.sites[id], s.counter);
  }

  /** Publishing what is already published leaves the store as it is. */
  lemma NoChange(s: M.Store, id: M.SiteId)
    requires id in s.sites && PUBLISHED in s.sites[id].branches
    ensures
      var pub := s.sites[id].branches[PUBLISHED];
      pub != [] && s.sites[id].publishedSha == Some(Tip(pub).sha) ==> M.SetPublished(s, id, pub) == s
  {
    var site := s.sites[id];
    assert site.branches[PUBLISHED := site.branches[PUBLISHED]] == site.branches;
    assert s.sites[id := site] == s.sites;
  }

  /** Comparing shas, as Publish does, is comparing logs. */
  lemma PublishFacts(s: M.Store, id: M.SiteId, source: string)
    requires M.Valid(s) && M.IsLive(s, id) && source in s.sites[id].branches && PUBLISHED in s.sites[id].branches
    ensures
      var pub, src := s.sites[id].branches[PUBLISHED], s.sites[id].branches[source];
      pub != [] && src != [] && Coherent(pub, src) &&
      (Tip(pub).sha == Tip(src).sha <==> pub == src) &&
      ((exists j :: 0 <= j < |src| && src[j].sha == Tip(pub).sha) <==> pub <= src) &&
      (pub == src ==> M.SetPublished(s, id, src) == s)
  {
    SiteFacts(s, id);
    assert M.ValidSite(s.sites[id], s.counter);
    NoChange(s, id);
    var pub, src := s.sites[id].branches[PUBLISHED], s.sites[id].branches[source];
    AncestorIsPrefix(pub, src);
    assert pub[..|pub|] == pub && src[..|src|] == src;
  }
}
