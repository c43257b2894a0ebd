/**
 Every operation keeps the store valid: logs stay first-parent chains that share
 history only as common prefixes, and handles stay unambiguous.
 backend/internal/site/fake.go
 */
module SiteInvariant {
  import opened Prelude
  import opened Text
  import opened Shas
  import opened Handles
  import opened Trees
  import opened Logs
  import opened SiteModel

  lemma GoodLater(log: Log, n: nat, m: nat)
    requires GoodLog(log, n) && n <= m
    ensures GoodLog(log, m)
  {
    forall i | 0 <= i < |log| ensures Issued(log[i].sha, m) { assert Issued(log[i].sha, n); }
  }

  lemma SiteLater(s: Site, n: nat, m: nat)
    requires ValidSite(s, n) && n <= m
    ensures ValidSite(s, m)
  {
    forall b | b in s.branches ensures GoodLog(s.branches[b], m) { GoodLater(s.branches[b], n, m); }
  }

  /** Putting a log in the place of `name` is safe if it is good and coherent with the others. */
  lemma ReplaceLog(s: Site, n: nat, m: nat, name: string, log: Log)
    requires ValidSite(s, n) && n <= m && GoodLog(log, m)
    requires forall b :: b in s.branches && b != name ==> Coherent(log, s.branches[b])
    ensures var bs := s.branches[name := log];
      (forall b :: b in bs ==> GoodLog(bs[b], m)) && AllCoherent(bs)
  {
    SiteLater(s, n, m);
    var bs := s.branches[name := log];
    forall a, b | a in bs && b in bs ensures Coherent(bs[a], bs[b]) {
      CoherentSelf(log);
      if b == name && a != name { CoherentSymmetric(log, bs[a]); }
    }
  }

  /** The other sites do not notice, apart from the counter moving on. */
  lemma PutSiteValid(s: Store, id: SiteId, site: Site, m: nat)
    requires Valid(s) && s.counter <= m && ValidSite(site, m)
    requires IsLive(s, id) && site.handle == s.sites[id].handle
    ensures Valid(PutSite(s, id, site).(counter := m))
  {
    hide ValidSite, IsLower;
    var s' := PutSite(s, id, site).(counter := m);
    forall i | i in s'.sites ensures ValidSite(s'.sites[i], m) {
      if i != id { SiteLater(s.sites[i], s.counter, m); }
    }
    assert forall i :: IsLive(s', i) ==> IsLive(s, i) && s'.sites[i].handle == s.sites[i].handle;
  }

  /** A site with one more commit on a branch, or with a new branch of one commit. */
  lemma ExtendSite(site: Site, n: nat, branch: string, log: Log, tree: Tree)
    requires ValidSite(site, n) && branch != PUBLISHED
    requires if branch in site.branches then log == site.branches[branch] else log == []
    ensures ValidSite(site.(branches := site.branches[branch := Append(log, tree, n + 1)]), n + 1)
  {
    hide Coherent, GoodLog;
    var log' := Append(log, tree, n + 1);
    AppendGood(log, n, Tip(log'));
    forall b | b in site.branches && b != branch ensures Coherent(log', site.branches[b]) {
      AppendToOthers(site, n, branch, log, tree, b);
    }
    ReplaceLog(site, n, n + 1, branch, log');
  }

  lemma AppendToOthers(site: Site, n: nat, branch: string, log: Log, tree: Tree, other: string)
    requires ValidSite(site, n) && other in site.branches && other != branch
    requires if branch in site.branches then log == site.branches[branch] else log == []
    ensures Coherent(Append(log, tree, n + 1), site.branches[other])
  {
    assert GoodLog(site.branches[other], n);
    AppendCoherent(log, site.branches[other], n, Tip(Append(log, tree, n + 1)));
  }

  /** A new commit on an existing branch, or the first commit of a new one. */
  lemma CommitOnValid(s: Store, id: SiteId, branch: string, log: Log, tree: Tree)
    requires Valid(s) && IsLive(s, id) && branch != PUBLISHED
    requires if branch in s.sites[id].branches then log == s.sites[id].branches[branch] else log == []
    ensures Valid(CommitOn(s, id, branch, log, tree).0)
  {
    hide ValidSite, ValidHandles;
    var site, n := s.sites[id], s.counter;
    ExtendSite(site, n, branch, log, tree);
    PutSiteValid(s, id, site.(branches := site.branches[branch := Append(log, tree, n + 1)]), n + 1);
  }

  /** Handles, redirects and the deleted flag play no part in a site's own validity. */
  lemma SameHistory(s: Site, s': Site, n: nat)
    requires ValidSite(s, n) && s'.branches == s.branches && s'.publishedSha == s.publishedSha
    ensures ValidSite(s', n)
  {}

  lemma RootSite(h: string, tree: Tree, n: nat)
    ensures ValidSite(Site(h, false, None, map[DRAFT := Append([], tree, n + 1)]), n + 1)
  {
    var log := Append([], tree, n + 1);
    AppendGood([], n, Tip(log));
    CoherentSelf(log);
  }

  lemma SeedHandles(s: Store, id: SiteId, site: Site)
    requires ValidHandles(s) && id !in s.sites && !HandleLive(s, site.handle) && site.handle !in s.redirects
    requires !site.deleted && IsLower(site.handle)
    ensures ValidHandles(PutSite(s, id, site))
  {
    hide IsLower;
    var s' := PutSite(s, id, site);
    assert forall i :: IsLive(s', i) && i != id ==> IsLive(s, i) && s'.sites[i] == s.sites[i];
  }

  lemma SeedSiteValid(s: Store, id: SiteId, h: string, tree: Tree)
    requires Valid(s) && id !in s.sites && !HandleLive(s, h) && h !in s.redirects && IsLower(h)
    ensures Valid(SeedSite(s, id, h, tree).0)
  {
    hide IsLower;
    var (s', site) := SeedSite(s, id, h, tree);
    var n := s.counter;
    forall i | i in s'.sites ensures ValidSite(s'.sites[i], n + 1) {
      if i == id { RootSite(h, tree, n); } else { SiteLater(s.sites[i], n, n + 1); }
    }
    SeedHandles(s, id, site);
    SameHandles(PutSite(s, id, site), s');
  }

  /** ValidHandles looks at handles, deleted flags and redirects only. */
  lemma SameHandles(s: Store, s': Store)
    requires ValidHandles(s) && s'.sites == s.sites && s'.redirects == s.redirects
    ensures ValidHandles(s')
  {
    assert forall i :: IsLive(s', i) <==> IsLive(s, i);
  }

  lemma CreateSiteValid(s: Store, id: SiteId, h: string, zip: Option<Archive>, html: Content)
    requires Valid(s) && id !in s.sites
    ensures Valid(After(s, CreateSite(s, id, h, zip, html)))
  {
    var r := CreateSite(s, id, h, zip, html);
    LowerFixed(h);
    if r.Ok? {
      SeedSiteValid(s, id, ToLower(h), Tip(r.value.1.branches[DRAFT]).tree);
    }
  }

  lemma RenameHandles(s: Store, id: SiteId, h: string)
    requires ValidHandles(s) && IsLive(s, id) && IsLower(h)
    ensures ValidHandles(After(s, RenameTo(s, id, s.sites[id], h)))
  {
    hide IsLower;
    var s' := After(s, RenameTo(s, id, s.sites[id], h));
    assert forall i :: IsLive(s', i) <==> IsLive(s, i);
    assert forall i :: IsLive(s', i) && i != id ==> s'.sites[i] == s.sites[i];
  }

  lemma RenameToValid(s: Store, id: SiteId, h: string)
    requires Valid(s) && IsLive(s, id) && IsLower(h)
    ensures Valid(After(s, RenameTo(s, id, s.sites[id], h)))
  {
    hide ValidSite, ValidHandles, IsLower;
    var s' := After(s, RenameTo(s, id, s.sites[id], h));
    forall i | i in s'.sites ensures ValidSite(s'.sites[i], s'.counter) {
      SameHistory(s.sites[i], s'.sites[i], s.counter);
    }
    RenameHandles(s, id, h);
  }

  lemma FewerLive(s: Store, s': Store)
    requires ValidHandles(s) && s'.redirects == s.redirects
    requires s'.sites.Keys == s.sites.Keys
    requires forall i :: i in s.sites ==> s'.sites[i].handle == s.sites[i].handle
    requires forall i :: IsLive(s', i) ==> IsLive(s, i) && s'.sites[i] == s.sites[i]
    ensures ValidHandles(s')
  {
    hide IsLower;
  }

  lemma DeleteSiteValid(s: Store, id: SiteId)
    requires Valid(s)
    ensures Valid(After(s, DeleteSite(s, id)))
  {
    hide ValidHandles, ValidSite;
    var s' := After(s, DeleteSite(s, id));
    forall i | i in s'.sites ensures ValidSite(s'.sites[i], s'.counter) {
      SameHistory(s.sites[i], s'.sites[i], s.counter);
    }
    FewerLive(s, s');
  }

  lemma CreateBranchValid(s: Store, id: SiteId, name: string, from: string)
    requires Valid(s)
    ensures Valid(After(s, CreateBranch(s, id, name, from)))
  {
    var r := CreateBranch(s, id, name, from);
    if r.Ok? {
      var site := s.sites[id];
      assert ValidSite(site, s.counter);
      var log := site.branches[if from == "" then DRAFT else from];
      ReplaceLog(site, s.counter, s.counter, name, log);
      PutSiteValid(s, id, site.(branches := site.branches[name := log]), s.counter);
    }
  }

  lemma DeleteBranchValid(s: Store, id: SiteId, name: string)
    requires Valid(s)
    ensures Valid(After(s, DeleteBranch(s, id, name)))
  {
    var r := DeleteBranch(s, id, name);
    if r.Ok? {
      var site := s.sites[id];
      assert ValidSite(site, s.counter);
      PutSiteValid(s, id, site.(branches := site.branches - {name}), s.counter);
    }
  }

  /** A merge commit is fresh, so it keeps the published log good and coherent. */
  lemma MergeValid(s: Site, n: nat, src: Log)
    requires ValidSite(s, n) && PUBLISHED in s.branches && src != []
    ensures var log := s.branches[PUBLISHED] + [MergeCommit(s.branches[PUBLISHED], src, n + 1)];
      GoodLog(log, n + 1) && forall b :: b in s.branches && b != PUBLISHED ==> Coherent(log, s.branches[b])
  {
    var pub := s.branches[PUBLISHED];
    assert GoodLog(pub, n);
    var mc := MergeCommit(pub, src, n + 1);
    AppendGood(pub, n, mc);
    forall b | b in s.branches && b != PUBLISHED ensures Coherent(pub + [mc], s.branches[b]) {
      assert GoodLog(s.branches[b], n);
      AppendCoherent(pub, s.branches[b], n, mc);
    }
  }

  lemma PublishedSite(site: Site, n: nat, log: Log, m: nat)
    requires ValidSite(site, n) && n <= m && GoodLog(log, m)
    requires forall b :: b in site.branches && b != PUBLISHED ==> Coherent(log, site.branches[b])
    ensures ValidSite(site.(branches := site.branches[PUBLISHED := log], publishedSha := Some(Tip(log).sha)), m)
  {
    ReplaceLog(site, n, m, PUBLISHED, log);
  }

  lemma SetPublishedValid(s: Store, id: SiteId, log: Log, m: nat)
    requires Valid(s) && IsLive(s, id) && s.counter <= m && GoodLog(log, m)
    requires forall b :: b in s.sites[id].branches && b != PUBLISHED ==> Coherent(log, s.sites[id].branches[b])
    ensures Valid(SetPublished(s, id, log).(counter := m))
  {
    var site := s.sites[id];
    PublishedSite(site, s.counter, log, m);
    var site' := site.(branches := site.branches[PUBLISHED := log], publishedSha := Some(Tip(log).sha));
    PutSiteValid(s, id, site', m);
  }

  /** The log a successful publish leaves behind, and the counter after it. */
  ghost function PublishedLog(s: Store, id: SiteId, src: Log): (Log, nat)
    requires Valid(s) && IsLive(s, id) && src != []
  {
    var bs := s.sites[id].branches;
    if PUBLISHED !in bs || bs[PUBLISHED] <= src then (src, s.counter)
    else
      assert GoodLog(bs[PUBLISHED], s.counter);
      (bs[PUBLISHED] + [MergeCommit(bs[PUBLISHED], src, s.counter + 1)], s.counter + 1)
  }

  lemma PublishedLogGood(s: Store, id: SiteId, name: string)
    requires Valid(s) && IsLive(s, id) && name in s.sites[id].branches
    ensures s.sites[id].branches[name] != []
    ensures var (log, m) := PublishedLog(s, id, s.sites[id].branches[name]);
      s.counter <= m && GoodLog(log, m) &&
      (PUBLISHED in s.sites[id].branches ==> s.sites[id].branches[PUBLISHED] <= log) &&
      forall b :: b in s.sites[id].branches && b != PUBLISHED ==> Coherent(log, s.sites[id].branches[b])
  {
    var site := s.sites[id];
    assert ValidSite(site, s.counter);
    assert GoodLog(site.branches[name], s.counter);
    if PUBLISHED in site.branches { MergeValid(site, s.counter, site.branches[name]); }
  }

  lemma PublishShape(s: Store, id: SiteId, from: string, base: string)
    requires Valid(s) && Publish(s, id, from, base).Ok?
    ensures var name := if from == "" then DRAFT else from;
      IsLive(s, id) && name in s.sites[id].branches && s.sites[id].branches[name] != [] &&
      Tip(s.sites[id].branches[name]).sha == base &&
      Publish(s, id, from, base) == PublishLog(s, id, s.sites[id].branches[name])
  {
    var name := if from == "" then DRAFT else from;
    assert GoodLog(s.sites[id].branches[name], s.counter);
  }

  lemma PublishLogShape(s: Store, id: SiteId, src: Log)
    requires Valid(s) && IsLive(s, id) && src != [] && PublishLog(s, id, src).Ok?
    ensures PublishedLog(s, id, src).0 != []
    ensures
      var (log, counter) := PublishedLog(s, id, src);
      PublishLog(s, id, src).value == (SetPublished(s, id, log).(counter := counter), Tip(log))
  {
    hide Valid, Clashes, BaseTree;
  }

  lemma PublishValid(s: Store, id: SiteId, from: string, base: string)
    requires Valid(s)
    ensures Valid(After(s, Publish(s, id, from, base)))
  {
    if Publish(s, id, from, base).Ok? {
      PublishShape(s, id, from, base);
      var name := if from == "" then DRAFT else from;
      PublishedLogGood(s, id, name);
      PublishLogShape(s, id, s.sites[id].branches[name]);
      var (log, m) := PublishedLog(s, id, s.sites[id].branches[name]);
      SetPublishedValid(s, id, log, m);
    }
  }

  /** The log of a branch, empty if there is no such branch. */
  ghost function LogOf(s: Store, id: SiteId, branch: string): Log {
    if id in s.sites && branch in s.sites[id].branches then s.sites[id].branches[branch] else []
  }

  lemma LogIsGood(s: Store, id: SiteId, branch: string)
    requires Valid(s) && id in s.sites && branch in s.sites[id].branches
    ensures GoodLog(LogOf(s, id, branch), s.counter)
  {
    assert ValidSite(s.sites[id], s.counter);
  }

  /** A successful reply is the store with one commit more on that branch, and that commit. */
  ghost predicate IsCommitOn(s: Store, id: SiteId, branch: string, r: Result<(Store, Commit)>) {
    r.Ok? ==>
      IsLive(s, id) && branch != PUBLISHED && branch != "" &&
      r.value == CommitOn(s, id, branch, LogOf(s, id, branch), r.value.1.tree)
  }

  /** All four writes have the same shape, and all name the tip of the branch they extend. */
  lemma WriteShape(s: Store, op: Op)
    requires Valid(s) && IsWrite(op)
    ensures IsCommitOn(s, op.id, op.branch, WriteReply(s, op))
    ensures var log := LogOf(s, op.id, op.branch);
      WriteReply(s, op).Ok? && log != [] ==> Tip(log).sha == op.base && op.base != ""
  {
    hide Valid, ChangedSince;
  }

  lemma WriteValid(s: Store, op: Op)
    requires Valid(s) && IsWrite(op)
    ensures Valid(After(s, WriteReply(s, op)))
  {
    hide Valid, WriteReply, CommitOn;
    WriteShape(s, op);
    var r := WriteReply(s, op);
    if r.Ok? { CommitOnValid(s, op.id, op.branch, LogOf(s, op.id, op.branch), r.value.1.tree); }
  }

  lemma RenameHandleValid(s: Store, id: SiteId, h: string)
    requires Valid(s)
    ensures Valid(After(s, RenameHandle(s, id, h)))
  {
    hide Valid, RenameTo;
    LowerFixed(h);
    if IsLive(s, id) { RenameToValid(s, id, ToLower(h)); }
  }

  lemma NoCommitStaged(s: Store, id: SiteId, branch: string, base: string)
    requires Valid(s)
    ensures CommitStaged(s, id, branch, base).Err?
  {}

  /** No operation breaks the invariant. */
  lemma StepValid(s: Store, op: Op)
    requires Valid(s)
    ensures Valid(Step(s, op))
  {
    hide Valid, WriteReply, CreateSite, RenameHandle, DeleteSite,
      CreateBranch, DeleteBranch, CommitStaged, Publish;
    if IsWrite(op) {
      WriteValid(s, op);
    } else {
      match op
      case OpCreateSite(id, h, zip, html) => if id !in s.sites { CreateSiteValid(s, id, h, zip, html); }
      case OpRename(id, h) => RenameHandleValid(s, id, h);
      case OpDeleteSite(id) => DeleteSiteValid(s, id);
      case OpCreateBranch(id, name, from) => CreateBranchValid(s, id, name, from);
      case OpDeleteBranch(id, name) => DeleteBranchValid(s, id, name);
      case OpCommit(id, b, base) => NoCommitStaged(s, id, b, base);
      case OpPublish(id, from, base) => PublishValid(s, id, from, base);
    }
  }

  /** The store after a whole run. */
  ghost function Run(s: Store, ops: seq<Op>): (s': Store)
    requires Valid(s)
    ensures Valid(s')
    decreases |ops|
  {
    if ops == [] then s
    else
      StepValid(s, ops[0]);
      Run(Step(s, ops[0]), ops[1..])
  }

  /** Every state the service can reach from an empty store is valid. */
  lemma ReachableValid(ops: seq<Op>)
    ensures Valid(EMPTY_STORE) && Valid(Run(EMPTY_STORE, ops))
  {}

  lemma {:induction false} RunConcat(s: Store, first: seq<Op>, second: seq<Op>)
    requires Valid(s)
    ensures Run(s, first + second) == Run(Run(s, first), second)
    decreases |first|
  {
    if first == [] {
      assert first + second == second;
    } else {
      StepValid(s, first[0]);
      assert (first + second)[1..] == first[1..] + second;
      RunConcat(Step(s, first[0]), first[1..], second);
    }
  }
}
