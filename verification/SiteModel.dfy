/**
 What each operation of the site store is supposed to do, stated on values:
 ancestry is the prefix order on logs, the merge base is the end of the longest
 common prefix, and nothing depends on the order a map is walked in.
 backend/internal/site/fake.go
 */
module SiteModel {
  import opened Prelude
  import opened Text
  import opened Shas
  import opened Handles
  import opened Trees
  import opened Logs

  type SiteId = nat

  datatype Site = Site(handle: string, deleted: bool, publishedSha: Option<string>, branches: Branches)

  datatype Store = Store(sites: map<SiteId, Site>, redirects: map<string, SiteId>, counter: nat)

  datatype Error =
    | NotFound
    | Invalid(field: string)
    | ReservedHandle
    | HandleTaken
    | BranchExists
    | NothingToCommit
    | Conflict(branch: string, expected: string, actual: string, changed: seq<string>)
    | PublishConflict(paths: seq<string>)
    | BadArchive

  type Result<T> = Outcome<T, Error>

  /** The validated entries of an uploaded zip, or the error the archive reader gave. */
  type Archive = Result<seq<(string, Content)>>

  const EMPTY_STORE := Store(map[], map[], 0)

  // ---- invariants ----

  ghost predicate ValidSite(s: Site, n: nat) {
    DRAFT in s.branches &&
    (forall b :: b in s.branches ==> GoodLog(s.branches[b], n)) &&
    AllCoherent(s.branches) &&
    s.publishedSha == if PUBLISHED in s.branches then Some(Tip(s.branches[PUBLISHED]).sha) else None
  }

  predicate IsLive(s: Store, id: SiteId) {
    id in s.sites && !s.sites[id].deleted
  }

  /** Live handles are pairwise distinct, none of them is also a redirect, and all of them are lower-case. */
  ghost predicate ValidHandles(s: Store) {
    (forall i, j :: IsLive(s, i) && IsLive(s, j) && s.sites[i].handle == s.sites[j].handle ==> i == j) &&
    (forall i :: IsLive(s, i) ==> s.sites[i].handle !in s.redirects) &&
    (forall h :: h in s.redirects ==> s.redirects[h] in s.sites) &&
    (forall i :: i in s.sites ==> IsLower(s.sites[i].handle)) &&
    (forall h :: h in s.redirects ==> IsLower(h))
  }

  ghost predicate Valid(s: Store) {
    (forall i :: i in s.sites ==> ValidSite(s.sites[i], s.counter)) && ValidHandles(s)
  }

  // ---- building blocks ----

  ghost function LiveSite(s: Store, id: SiteId): Result<Site> {
    if IsLive(s, id) then Ok(s.sites[id]) else Err(NotFound)
  }

  /** refuseProtectedBranch */
  ghost function Writable(branch: string): Result<()> {
    Need(branch != PUBLISHED && branch != "", Invalid("branch"))
  }

  /** The optimistic lock: the caller's base must be the tip; if not, say what changed since. */
  ghost function CheckBase(log: Log, branch: string, base: string, hint: seq<string>): Result<()>
    requires log != []
  {
    var changed := ChangedSince(log, base);
    Need(Tip(log).sha == base,
      Conflict(branch, base, Tip(log).sha, if changed == {} then hint else Sorted(changed)))
  }

  /** The log a guarded write may extend: live site, existing branch, up-to-date base. */
  ghost function OpenBranch(s: Store, id: SiteId, branch: string, base: string, hint: seq<string>): (r: Result<Log>)
    requires Valid(s)
    ensures r.Ok? ==> IsLive(s, id) && branch in s.sites[id].branches && r.value == s.sites[id].branches[branch]
    ensures r.Ok? ==> Tip(r.value).sha == base
  {
    var site :- LiveSite(s, id);
    var _ :- Need(branch in site.branches, NotFound);
    var log := site.branches[branch];
    assert GoodLog(log, s.counter);
    var _ :- CheckBase(log, branch, base, hint);
    Ok(log)
  }

  function PutSite(s: Store, id: SiteId, site: Site): Store {
    s.(sites := s.sites[id := site])
  }

  function PutLog(s: Store, id: SiteId, branch: string, log: Log): Store
    requires id in s.sites
  {
    PutSite(s, id, s.sites[id].(branches := s.sites[id].branches[branch := log]))
  }

  /** Commit `tree` on top of `log`, under the next sha. */
  ghost function CommitOn(s: Store, id: SiteId, branch: string, log: Log, tree: Tree): (Store, Commit)
    requires id in s.sites
  {
    var log' := Append(log, tree, s.counter + 1);
    (PutLog(s, id, branch, log').(counter := s.counter + 1), Tip(log'))
  }

  /** A tree built from zip entries: the last entry for a path wins. */
  ghost function TreeOf(entries: seq<(string, Content)>): Tree {
    if entries == [] then map[]
    else
      var last := entries[|entries| - 1];
      TreeOf(entries[..|entries| - 1])[last.0 := last.1]
  }

  // ---- site lifecycle ----

  ghost function CheckHandle(h: string): Result<()> {
    match ValidateHandle(h)
    case None => Ok(())
    case Some(Reserved) => Err(ReservedHandle)
    case Some(_) => Err(Invalid("handle"))
  }

  ghost predicate HandleLive(s: Store, h: string) {
    exists i :: IsLive(s, i) && s.sites[i].handle == h
  }

  ghost function CreateSite(s: Store, id: SiteId, h: string, zip: Option<Archive>, indexHtml: Content)
    : Result<(Store, Site)>
  {
    var _ :- CheckHandle(h);
    var lower := ToLower(h);
    var _ :- Need(!HandleLive(s, lower) && lower !in s.redirects, HandleTaken);
    var tree :- if zip.None? then Ok(map["index.html" := indexHtml])
                else if zip.value.Ok? then Ok(TreeOf(zip.value.value)) else Err(zip.value.error);
    Ok(SeedSite(s, id, lower, tree))
  }

  /** A new site: its draft branch holds one root commit. */
  ghost function SeedSite(s: Store, id: SiteId, h: string, tree: Tree): (Store, Site) {
    var site := Site(h, false, None, map[DRAFT := Append([], tree, s.counter + 1)]);
    (PutSite(s, id, site).(counter := s.counter + 1), site)
  }

  ghost function RenameHandle(s: Store, id: SiteId, h: string): Result<(Store, Site)> {
    var _ :- CheckHandle(h);
    var site :- LiveSite(s, id);
    RenameTo(s, id, site, ToLower(h))
  }

  /** Taking a new handle leaves the old one behind as a redirect. */
  ghost function RenameTo(s: Store, id: SiteId, site: Site, h: string): Result<(Store, Site)> {
    if h == site.handle then Ok((s, site))
    else
      var _ :- Need(!HandleLive(s, h), HandleTaken);
      var _ :- Need(h in s.redirects ==> s.redirects[h] == id, HandleTaken);
      var site' := site.(handle := h);
      Ok((PutSite(s, id, site').(redirects := (s.redirects - {h})[site.handle := id]), site'))
  }

  ghost function DeleteSite(s: Store, id: SiteId): Result<(Store, ())> {
    var site :- LiveSite(s, id);
    Ok((PutSite(s, id, site.(deleted := true)), ()))
  }

  // ---- branches ----

  ghost function CreateBranch(s: Store, id: SiteId, name: string, from: string): Result<(Store, Commit)>
    requires Valid(s)
  {
    var _ :- Need(ValidateBranchName(name).None?, Invalid("branch"));
    var _ :- Need(name != PUBLISHED && name != DRAFT, Invalid("branch"));
    var site :- LiveSite(s, id);
    var _ :- Need(name !in site.branches, BranchExists);
    var source := if from == "" then DRAFT else from;
    var _ :- Need(source in site.branches, NotFound);
    var log := site.branches[source];
    assert GoodLog(log, s.counter);
    Ok((PutLog(s, id, name, log), Tip(log)))
  }

  ghost function DeleteBranch(s: Store, id: SiteId, name: string): Result<(Store, ())> {
    var _ :- Need(name != PUBLISHED && name != DRAFT, Invalid("branch"));
    var site :- LiveSite(s, id);
    var _ :- Need(name in site.branches, NotFound);
    Ok((PutSite(s, id, site.(branches := site.branches - {name})), ()))
  }

  // ---- writes ----

  ghost function WriteFile(s: Store, id: SiteId, branch: string, path: string, content: Content, base: string,
                           pathOk: bool): Result<(Store, Commit)>
    requires Valid(s)
  {
    var _ :- Writable(branch);
    var _ :- Need(pathOk, Invalid("path"));
    var _ :- Need(base != "", Invalid("baseSha"));
    var log :- OpenBranch(s, id, branch, base, [path]);
    assert GoodLog(log, s.counter);
    Ok(CommitOn(s, id, branch, log, Tip(log).tree[path := content]))
  }

  ghost function DeleteFile(s: Store, id: SiteId, branch: string, path: string, base: string, pathOk: bool)
    : Result<(Store, Commit)>
    requires Valid(s)
  {
    var _ :- Writable(branch);
    var _ :- Need(pathOk, Invalid("path"));
    var _ :- Need(base != "", Invalid("baseSha"));
    var log :- OpenBranch(s, id, branch, base, [path]);
    assert GoodLog(log, s.counter);
    var _ :- Need(path in Tip(log).tree, NotFound);
    Ok(CommitOn(s, id, branch, log, Tip(log).tree - {path}))
  }

  /** Commit never has anything staged: it checks the lock and reports so. */
  ghost function CommitStaged(s: Store, id: SiteId, branch: string, base: string): Result<(Store, Commit)>
    requires Valid(s)
  {
    var _ :- Writable(branch);
    var _ :- Need(base != "", Invalid("baseSha"));
    var _ :- OpenBranch(s, id, branch, base, []);
    Err(NothingToCommit)
  }

  ghost function ImportZip(s: Store, id: SiteId, branch: string, zip: Archive, base: string)
    : Result<(Store, Commit)>
    requires Valid(s)
  {
    var _ :- Writable(branch);
    var entries :- zip;
    var site :- LiveSite(s, id);
    if branch in site.branches then
      var _ :- Need(base != "", Invalid("baseSha"));
      var log :- OpenBranch(s, id, branch, base, []);
      assert GoodLog(log, s.counter);
      var _ :- Need(Tip(log).tree != TreeOf(entries), NothingToCommit);
      Ok(CommitOn(s, id, branch, log, TreeOf(entries)))
    else
      Ok(CommitOn(s, id, branch, [], TreeOf(entries)))
  }

  ghost function Rollback(s: Store, id: SiteId, branch: string, toSha: string, base: string)
    : Result<(Store, Commit)>
    requires Valid(s)
  {
    var _ :- Writable(branch);
    var _ :- Need(base != "", Invalid("baseSha"));
    var _ :- Need(toSha != "", Invalid("toSha"));
    var log :- OpenBranch(s, id, branch, base, []);
    var _ :- Need(Holds(log, toSha), NotFound);
    Ok(CommitOn(s, id, branch, log, log[PositionOf(log, toSha)].tree))
  }

  // ---- publish ----

  ghost function SetPublished(s: Store, id: SiteId, log: Log): Store
    requires id in s.sites && log != []
  {
    var site := s.sites[id];
    PutSite(s, id, site.(branches := site.branches[PUBLISHED := log], publishedSha := Some(Tip(log).sha)))
  }

  /** The merge commit a diverged publish appends: first parent published, second parent the source. */
  ghost function MergeCommit(pub: Log, src: Log, number: nat): Commit
    requires pub != [] && src != []
  {
    Commit(Sha(number), [Tip(pub).sha, Tip(src).sha], Tip(pub).tree + Tip(src).tree)
  }

  ghost function Publish(s: Store, id: SiteId, from: string, base: string): Result<(Store, Commit)>
    requires Valid(s)
  {
    var source := if from == "" then DRAFT else from;
    var _ :- Need(source != PUBLISHED, Invalid("from"));
    var _ :- Need(base != "", Invalid("baseSha"));
    var site :- LiveSite(s, id);
    var _ :- Need(source in site.branches, NotFound);
    var src := site.branches[source];
    assert GoodLog(src, s.counter);
    var _ :- Need(Tip(src).sha == base, Conflict(source, base, Tip(src).sha, []));
    PublishLog(s, id, src)
  }

  /** First publish and fast-forward copy the source log; a diverged publish merges or reports the clashes. */
  ghost function PublishLog(s: Store, id: SiteId, src: Log): Result<(Store, Commit)>
    requires Valid(s) && IsLive(s, id) && src != []
  {
    var site := s.sites[id];
    if PUBLISHED !in site.branches || site.branches[PUBLISHED] <= src then
      Ok((SetPublished(s, id, src), Tip(src)))
    else
      var pub := site.branches[PUBLISHED];
      assert GoodLog(pub, s.counter);
      var clashes := Clashes(Tip(pub).tree, Tip(src).tree, BaseTree(pub, src));
      var _ :- Need(clashes == {}, PublishConflict(Sorted(clashes)));
      var mc := MergeCommit(pub, src, s.counter + 1);
      Ok((SetPublished(s, id, pub + [mc]).(counter := s.counter + 1), mc))
  }

  // ---- resolving handles ----

  /** The handle part of ResolveForServing: a live handle first, else one redirect hop. */
  ghost function ResolveHandle(s: Store, h: string): Option<SiteId> {
    if HandleLive(s, h) then
      var i :| IsLive(s, i) && s.sites[i].handle == h;
      Some(i)
    else if h in s.redirects && IsLive(s, s.redirects[h]) then Some(s.redirects[h])
    else None
  }

  // ---- runs ----

  datatype Op =
    | OpCreateSite(id: SiteId, handle: string, zip: Option<Archive>, indexHtml: Content)
    | OpRename(id: SiteId, handle: string)
    | OpDeleteSite(id: SiteId)
    | OpCreateBranch(id: SiteId, name: string, from: string)
    | OpDeleteBranch(id: SiteId, name: string)
    | OpWrite(id: SiteId, branch: string, path: string, content: Content, base: string, pathOk: bool)
    | OpDeleteFile(id: SiteId, branch: string, path: string, base: string, pathOk: bool)
    | OpCommit(id: SiteId, branch: string, base: string)
    | OpImport(id: SiteId, branch: string, archive: Archive, base: string)
    | OpRollback(id: SiteId, branch: string, toSha: string, base: string)
    | OpPublish(id: SiteId, from: string, base: string)

  /** The store part of a result; a failed operation changes nothing. */
  function After<T>(s: Store, r: Result<(Store, T)>): Store {
    if r.Ok? then r.value.0 else s
  }

  /** The operations that put a commit of the caller's making on a working branch. */
  predicate IsWrite(op: Op) {
    op.OpWrite? || op.OpDeleteFile? || op.OpImport? || op.OpRollback?
  }

  ghost function WriteReply(s: Store, op: Op): Result<(Store, Commit)>
    requires Valid(s) && IsWrite(op)
  {
    match op
    case OpWrite(id, b, p, c, base, ok) => WriteFile(s, id, b, p, c, base, ok)
    case OpDeleteFile(id, b, p, base, ok) => DeleteFile(s, id, b, p, base, ok)
    case OpImport(id, b, zip, base) => ImportZip(s, id, b, zip, base)
    case OpRollback(id, b, to, base) => Rollback(s, id, b, to, base)
  }

  /** One operation. A site id is never issued twice (uuid.New), so a repeated one is not a step. */
  ghost function Step(s: Store, op: Op): Store
    requires Valid(s)
  {
    if IsWrite(op) then After(s, WriteReply(s, op))
    else match op
      case OpCreateSite(id, h, zip, html) => if id in s.sites then s else After(s, CreateSite(s, id, h, zip, html))
      case OpRename(id, h) => After(s, RenameHandle(s, id, h))
      case OpDeleteSite(id) => After(s, DeleteSite(s, id))
      case OpCreateBranch(id, name, from) => After(s, CreateBranch(s, id, name, from))
      case OpDeleteBranch(id, name) => After(s, DeleteBranch(s, id, name))
      case OpCommit(id, b, base) => After(s, CommitStaged(s, id, b, base))
      case OpPublish(id, from, base) => After(s, Publish(s, id, from, base))
  }
}
