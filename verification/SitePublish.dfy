/**
 What a publish does to the published branch: first publish, fast-forward, merge,
 and exactly when the merge is the three-way merge it stands for.
 backend/internal/site/fake.go, backend/internal/site/fake_helpers.go
 */
module SitePublish {
  import opened Prelude
  import opened Text
  import opened Shas
  import opened Handles
  import opened Trees
  import opened Logs
  import opened SiteModel
  import opened SiteInvariant
  import opened SiteRuns

  /** The branch a publish takes its commits from. */
  function Source(from: string): string {
    if from == "" then DRAFT else from
  }

  /** Published and source have each gone their own way. */
  ghost predicate Diverged(s: Store, id: SiteId, from: string) {
    var pub := LogOf(s, id, PUBLISHED);
    pub != [] && !(pub <= LogOf(s, id, Source(from)))
  }

  /** A publish that need not merge makes published a copy of the source, losing nothing it had. */
  lemma PublishForward(s: Store, id: SiteId, from: string, base: string)
    requires Valid(s) && Publish(s, id, from, base).Ok? && !Diverged(s, id, from)
    ensures var s' := Publish(s, id, from, base).value.0;
      LogOf(s', id, PUBLISHED) == LogOf(s, id, Source(from)) != [] &&
      LogOf(s, id, PUBLISHED) <= LogOf(s', id, PUBLISHED) &&
      Tip(LogOf(s', id, PUBLISHED)).sha == base && s'.counter == s.counter
  {
    hide Valid;
    PublishShape(s, id, from, base);
    PublishedIsGood(s, id);
  }

  lemma PublishedIsGood(s: Store, id: SiteId)
    requires Valid(s) && id in s.sites
    ensures PUBLISHED in s.sites[id].branches ==> GoodLog(LogOf(s, id, PUBLISHED), s.counter)
  {
    assert ValidSite(s.sites[id], s.counter);
  }

  /** A diverged publish appends one commit with both tips as parents, keeping every published commit. */
  lemma PublishMerges(s: Store, id: SiteId, from: string, base: string)
    requires Valid(s) && Publish(s, id, from, base).Ok? && Diverged(s, id, from)
    ensures var r := Publish(s, id, from, base).value;
      var pub, src := LogOf(s, id, PUBLISHED), LogOf(s, id, Source(from));
      src != [] && LogOf(r.0, id, PUBLISHED) == pub + [r.1] &&
      r.1.parents == [Tip(pub).sha, base] && r.1.tree == Tip(pub).tree + Tip(src).tree &&
      Clashes(Tip(pub).tree, Tip(src).tree, BaseTree(pub, src)) == {} &&
      r.0.counter == s.counter + 1
  {
    hide Valid;
    PublishShape(s, id, from, base);
    PublishedIsGood(s, id);
  }

  /** The merge commit's tree is the three-way merge exactly when no path the source deleted is
      still published, and no path the source left alone was changed or deleted by published. */
  lemma MergeIsThreeWay(s: Store, id: SiteId, from: string, base: string)
    requires Valid(s) && Publish(s, id, from, base).Ok? && Diverged(s, id, from)
    ensures LogOf(s, id, Source(from)) != []
    ensures
      var pub, src := LogOf(s, id, PUBLISHED), LogOf(s, id, Source(from));
      var p, q, b := Tip(pub).tree, Tip(src).tree, BaseTree(pub, src);
      Publish(s, id, from, base).value.1.tree == ThreeWay(p, q, b) <==>
      forall path :: !Resurrects(p, q, b, path) && !Reverts(p, q, b, path)
  {
    PublishMerges(s, id, from, base);
    var pub, src := LogOf(s, id, PUBLISHED), LogOf(s, id, Source(from));
    UnionIsThreeWay(Tip(pub).tree, Tip(src).tree, BaseTree(pub, src));
  }

  lemma PointsAtTip(s: Store, id: SiteId)
    requires Valid(s) && id in s.sites && LogOf(s, id, PUBLISHED) != []
    ensures s.sites[id].publishedSha == Some(Tip(LogOf(s, id, PUBLISHED)).sha)
  {
    assert ValidSite(s.sites[id], s.counter);
  }

  /** Publishing is idempotent exactly when published already is the source. */
  lemma PublishIdempotent(s: Store, id: SiteId, from: string, base: string)
    requires Valid(s) && Publish(s, id, from, base).Ok?
    ensures Publish(s, id, from, base).value.0 == s <==> LogOf(s, id, PUBLISHED) == LogOf(s, id, Source(from))
  {
    hide Valid;
    var s' := Publish(s, id, from, base).value.0;
    PublishShape(s, id, from, base);
    if Diverged(s, id, from) {
      PublishMerges(s, id, from, base);
    } else {
      PublishForward(s, id, from, base);
      if LogOf(s, id, PUBLISHED) == LogOf(s, id, Source(from)) {
        PointsAtTip(s, id);
        assert s'.sites[id].branches == s.sites[id].branches;
        assert s'.sites[id] == s.sites[id];
        assert s'.sites == s.sites;
      }
    }
  }

  lemma SourceIsOther(s: Store, id: SiteId, from: string, base: string)
    requires Valid(s) && Publish(s, id, from, base).Ok?
    ensures Source(from) != PUBLISHED && base != ""
  {}

  /** The store right after a merge. */
  lemma AfterMerge(s: Store, id: SiteId, from: string, base: string)
    requires Valid(s) && Publish(s, id, from, base).Ok? && Diverged(s, id, from)
    ensures
      var (s1, mc) := Publish(s, id, from, base).value;
      Valid(s1) && IsLive(s1, id) && Source(from) != PUBLISHED && base != "" &&
      LogOf(s1, id, PUBLISHED) == LogOf(s, id, PUBLISHED) + [mc] &&
      LogOf(s1, id, Source(from)) == LogOf(s, id, Source(from)) != [] &&
      Tip(LogOf(s, id, Source(from))).sha == base
  {
    hide Valid, Publish, PublishLog;
    PublishMerges(s, id, from, base);
    PublishValid(s, id, from, base);
    SourceIsOther(s, id, from, base);
    PublishShape(s, id, from, base);
    PublishLogShape(s, id, LogOf(s, id, Source(from)));
  }

  /** After a merge the source's own commits are still not in published, so the next publish merges again:
      it succeeds, adds one more commit, and leaves the tree as it was. */
  lemma MergeAgain(s: Store, id: SiteId, from: string, base: string)
    requires Valid(s) && Publish(s, id, from, base).Ok? && Diverged(s, id, from)
    ensures Valid(Publish(s, id, from, base).value.0)
    ensures
      var s1 := Publish(s, id, from, base).value.0;
      var again := Publish(s1, id, from, base);
      again.Ok? && LogOf(s1, id, PUBLISHED) != [] &&
      LogOf(again.value.0, id, PUBLISHED) == LogOf(s1, id, PUBLISHED) + [again.value.1] &&
      again.value.1.tree == Tip(LogOf(s1, id, PUBLISHED)).tree
  {
    PublishMerges(s, id, from, base);
    AfterMerge(s, id, from, base);
    var (s1, mc) := Publish(s, id, from, base).value;
    MergeUnion(s1, id, from, base, LogOf(s, id, PUBLISHED), LogOf(s, id, Source(from)), mc);
  }

  /** Publishing over a published tip that already is the union of both sides. */
  lemma MergeUnion(s: Store, id: SiteId, from: string, base: string, pub: Log, src: Log, mc: Commit)
    requires Valid(s) && IsLive(s, id) && Source(from) != PUBLISHED && base != ""
    requires src == LogOf(s, id, Source(from)) && LogOf(s, id, PUBLISHED) == pub + [mc]
    requires src != [] && pub != [] && Tip(src).sha == base && !(pub <= src)
    requires mc.tree == Tip(pub).tree + Tip(src).tree
    requires Clashes(Tip(pub).tree, Tip(src).tree, BaseTree(pub, src)) == {}
    ensures
      var again := Publish(s, id, from, base);
      again.Ok? && LogOf(again.value.0, id, PUBLISHED) == pub + [mc] + [again.value.1] && again.value.1.tree == mc.tree
  {
    hide Valid, Publish;
    assert pub + [mc] <= src ==> pub <= src;
    CommonAfterAppend(pub, src, mc);
    NoClashWithUnion(Tip(pub).tree, Tip(src).tree, BaseTree(pub, src));
    PublishesClean(s, id, from, base, pub + [mc], src);
    PublishMerges(s, id, from, base);
    assert mc.tree + Tip(src).tree == mc.tree;
  }

  /** A diverged publish without clashes goes through. */
  lemma PublishesClean(s: Store, id: SiteId, from: string, base: string, pub: Log, src: Log)
    requires Valid(s) && IsLive(s, id) && Source(from) != PUBLISHED && base != ""
    requires Source(from) in s.sites[id].branches && src == s.sites[id].branches[Source(from)]
    requires PUBLISHED in s.sites[id].branches && pub == s.sites[id].branches[PUBLISHED]
    requires src != [] && pub != [] && Tip(src).sha == base
    requires Clashes(Tip(pub).tree, Tip(src).tree, BaseTree(pub, src)) == {}
    ensures Publish(s, id, from, base).Ok?
  {}

  lemma CommonAfterAppend(a: Log, b: Log, c: Commit)
    requires !(a <= b)
    ensures CommonLen(a + [c], b) == CommonLen(a, b)
  {
    var n := CommonLen(a, b);
    assert a[..|a|] == a;
    assert n < |a| && (a + [c])[..n] == a[..n];
    CommonLenIs(a + [c], b, n);
  }

  lemma NoClashWithUnion(pub: Tree, src: Tree, base: Tree)
    requires Clashes(pub, src, base) == {}
    ensures Clashes(pub + src, src, base) == {}
  {
    forall p ensures !Clash(pub + src, src, base, p) {
      ClashesComplete(pub, src, base, p);
    }
  }

  // ---- both sides of the boundary are reachable ----

  /** A site published once, with a fix branch published after it and a draft edit made meanwhile:
      `fix` puts `fixed` at `path` and goes to published, then draft adds style.css -- or deletes
      index.html -- and is published. */
  ghost function DivergedRun(id: SiteId, h: string, path: string, fixed: Content, deletes: bool): seq<Op> {
    [OpCreateSite(id, h, None, [1]),
     OpPublish(id, DRAFT, Sha(1)),
     OpCreateBranch(id, FIX, PUBLISHED),
     OpWrite(id, FIX, path, fixed, Sha(1), true),
     OpPublish(id, FIX, Sha(2)),
     Edit(id, deletes),
     OpPublish(id, DRAFT, Sha(3))]
  }

  const FIX := "fix"

  /** The branches of the example once the fix branch exists. */
  function Three(draft: Log, published: Log, fix: Log): Branches {
    map[DRAFT := draft, PUBLISHED := published, FIX := fix]
  }

  lemma ThreeUpdates(d: Log, p: Log, f: Log, log: Log)
    ensures DRAFT != PUBLISHED && DRAFT != FIX && PUBLISHED != FIX
    ensures map[DRAFT := d, PUBLISHED := p][FIX := log] == Three(d, p, log)
    ensures Three(d, p, f)[DRAFT := log] == Three(log, p, f)
    ensures Three(d, p, f)[PUBLISHED := log] == Three(d, log, f)
    ensures Three(d, p, f)[FIX := log] == Three(d, p, log)
  {
    assert |DRAFT| == 5 && |PUBLISHED| == 9 && |FIX| == 3;
  }

  lemma ThreeLogs(id: SiteId, h: string, sha: Option<string>, d: Log, p: Log, f: Log, n: nat)
    ensures
      var s := OneSite(id, h, sha, Three(d, p, f), n);
      IsLive(s, id) && s.sites[id].branches == Three(d, p, f) &&
      LogOf(s, id, DRAFT) == d && LogOf(s, id, PUBLISHED) == p && LogOf(s, id, FIX) == f
  {
    ThreeUpdates(d, p, f, d);
  }

  const ROOT := Commit(Sha(1), [], map["index.html" := [1]])

  function FixCommit(path: string, fixed: Content): Commit {
    Commit(Sha(2), [Sha(1)], ROOT.tree[path := fixed])
  }

  function Edit(id: SiteId, deletes: bool): Op {
    if deletes then OpDeleteFile(id, DRAFT, "index.html", Sha(1), true)
    else OpWrite(id, DRAFT, "style.css", [3], Sha(1), true)
  }

  /** The draft commit of the example. */
  function Edited(deletes: bool): Commit {
    Commit(Sha(3), [Sha(1)], if deletes then map[] else ROOT.tree["style.css" := [3]])
  }

  /** The file the draft edit is about. */
  function EditedPath(deletes: bool): string {
    if deletes then "index.html" else "style.css"
  }

  lemma WriteStep(s: Store, id: SiteId, branch: string, path: string, content: Content)
    requires Valid(s) && IsLive(s, id) && LogOf(s, id, branch) != [] && branch != PUBLISHED && branch != ""
    ensures var log := LogOf(s, id, branch);
      Step(s, OpWrite(id, branch, path, content, Tip(log).sha, true))
        == CommitOn(s, id, branch, log, Tip(log).tree[path := content]).0
  {
    hide Valid;
    var log := LogOf(s, id, branch);
    LogIsGood(s, id, branch);
    ShaNotEmpty(log, s.counter, |log| - 1);
  }

  lemma DeleteStep(s: Store, id: SiteId, branch: string, path: string)
    requires Valid(s) && IsLive(s, id) && LogOf(s, id, branch) != [] && branch != PUBLISHED && branch != ""
    requires path in Tip(LogOf(s, id, branch)).tree
    ensures
      var log := LogOf(s, id, branch);
      Step(s, OpDeleteFile(id, branch, path, Tip(log).sha, true))
        == CommitOn(s, id, branch, log, Tip(log).tree - {path}).0
  {
    hide Valid;
    var log := LogOf(s, id, branch);
    LogIsGood(s, id, branch);
    ShaNotEmpty(log, s.counter, |log| - 1);
  }

  lemma ForwardStep(s: Store, id: SiteId, from: string)
    requires Valid(s) && IsLive(s, id) && from != PUBLISHED && from != "" && LogOf(s, id, from) != []
    requires LogOf(s, id, PUBLISHED) <= LogOf(s, id, from)
    ensures var src := LogOf(s, id, from);
      Step(s, OpPublish(id, from, Tip(src).sha)) == SetPublished(s, id, src)
  {
    hide Valid;
    var src := LogOf(s, id, from);
    LogIsGood(s, id, from);
    ShaNotEmpty(src, s.counter, |src| - 1);
  }

  lemma CreateStep(id: SiteId, h: string)
    requires ValidateHandle(h).None?
    ensures Valid(EMPTY_STORE)
    ensures Step(EMPTY_STORE, OpCreateSite(id, h, None, [1]))
      == Store(map[id := Site(ToLower(h), false, None, map[DRAFT := [ROOT]])], map[], 1)
  {
    var s := EMPTY_STORE;
    assert !HandleLive(s, ToLower(h));
    assert CreateSite(s, id, h, None, [1]) == Ok(SeedSite(s, id, ToLower(h), map["index.html" := [1]]));
    assert Append([], map["index.html" := [1]], 1) == [ROOT];
  }

  lemma BranchStep(s: Store, id: SiteId)
    requires Valid(s) && IsLive(s, id) && PUBLISHED in s.sites[id].branches && FIX !in s.sites[id].branches
    ensures Step(s, OpCreateBranch(id, FIX, PUBLISHED)) == PutLog(s, id, FIX, LogOf(s, id, PUBLISHED))
  {
    hide Valid;
    AcceptedBranches(FIX);
  }

  lemma RunFrom(s: Store, ops: seq<Op>, i: nat, s': Store)
    requires Valid(s) && i < |ops| && Step(s, ops[i]) == s'
    ensures Valid(s') && Run(s, ops[i..]) == Run(s', ops[i + 1..])
  {
    StepValid(s, ops[i]);
    assert ops[i..][1..] == ops[i + 1..];
  }

  function OneSite(id: SiteId, h: string, published: Option<string>, branches: Branches, n: nat): Store {
    Store(map[id := Site(ToLower(h), false, published, branches)], map[], n)
  }

  lemma FirstPublish(id: SiteId, h: string, path: string, fixed: Content, deletes: bool)
    requires ValidateHandle(h).None?
    ensures Valid(EMPTY_STORE)
    ensures
      var ops := DivergedRun(id, h, path, fixed, deletes);
      var s2 := OneSite(id, h, Some(Sha(1)), map[DRAFT := [ROOT], PUBLISHED := [ROOT]], 1);
      Valid(s2) && Run(EMPTY_STORE, ops) == Run(s2, ops[2..])
  {
    hide Valid, Step;
    var ops := DivergedRun(id, h, path, fixed, deletes);
    CreateStep(id, h);
    var s1 := OneSite(id, h, None, map[DRAFT := [ROOT]], 1);
    assert ops[0..] == ops;
    RunFrom(EMPTY_STORE, ops, 0, s1);
    ForwardStep(s1, id, DRAFT);
    var s2 := OneSite(id, h, Some(Sha(1)), map[DRAFT := [ROOT], PUBLISHED := [ROOT]], 1);
    assert SetPublished(s1, id, [ROOT]) == s2;
    RunFrom(s1, ops, 1, s2);
  }

  lemma FixBranched(id: SiteId, h: string, path: string, fixed: Content, deletes: bool)
    requires Valid(OneSite(id, h, Some(Sha(1)), map[DRAFT := [ROOT], PUBLISHED := [ROOT]], 1))
    ensures
      var ops := DivergedRun(id, h, path, fixed, deletes);
      var s2 := OneSite(id, h, Some(Sha(1)), map[DRAFT := [ROOT], PUBLISHED := [ROOT]], 1);
      var s3 := OneSite(id, h, Some(Sha(1)), Three([ROOT], [ROOT], [ROOT]), 1);
      Valid(s3) && Run(s2, ops[2..]) == Run(s3, ops[3..])
  {
    hide Valid, Step;
    var s2 := OneSite(id, h, Some(Sha(1)), map[DRAFT := [ROOT], PUBLISHED := [ROOT]], 1);
    ThreeUpdates([ROOT], [ROOT], [ROOT], [ROOT]);
    BranchStep(s2, id);
    var s3 := OneSite(id, h, Some(Sha(1)), Three([ROOT], [ROOT], [ROOT]), 1);
    assert PutLog(s2, id, FIX, [ROOT]) == s3;
    RunFrom(s2, DivergedRun(id, h, path, fixed, deletes), 2, s3);
  }

  lemma FixWritten(id: SiteId, h: string, path: string, fixed: Content, deletes: bool)
    requires Valid(OneSite(id, h, Some(Sha(1)), Three([ROOT], [ROOT], [ROOT]), 1))
    ensures
      var ops := DivergedRun(id, h, path, fixed, deletes);
      var s3 := OneSite(id, h, Some(Sha(1)), Three([ROOT], [ROOT], [ROOT]), 1);
      var s4 := OneSite(id, h, Some(Sha(1)), Three([ROOT], [ROOT], [ROOT, FixCommit(path, fixed)]), 2);
      Valid(s4) && Run(s3, ops[3..]) == Run(s4, ops[4..])
  {
    hide Valid, Step;
    var fix := [ROOT, FixCommit(path, fixed)];
    var s3 := OneSite(id, h, Some(Sha(1)), Three([ROOT], [ROOT], [ROOT]), 1);
    ThreeUpdates([ROOT], [ROOT], [ROOT], fix);
    WriteStep(s3, id, FIX, path, fixed);
    var s4 := OneSite(id, h, Some(Sha(1)), Three([ROOT], [ROOT], fix), 2);
    assert Append([ROOT], ROOT.tree[path := fixed], 2) == fix;
    assert CommitOn(s3, id, FIX, [ROOT], ROOT.tree[path := fixed]).0 == s4;
    RunFrom(s3, DivergedRun(id, h, path, fixed, deletes), 3, s4);
  }

  lemma FixForward(id: SiteId, h: string, fix: Log)
    requires |fix| == 2 && fix[0] == ROOT && fix[1].sha == Sha(2)
    requires Valid(OneSite(id, h, Some(Sha(1)), Three([ROOT], [ROOT], fix), 2))
    ensures Step(OneSite(id, h, Some(Sha(1)), Three([ROOT], [ROOT], fix), 2), OpPublish(id, FIX, Sha(2)))
      == OneSite(id, h, Some(Sha(2)), Three([ROOT], fix, fix), 2)
  {
    hide Valid, Step;
    var s4 := OneSite(id, h, Some(Sha(1)), Three([ROOT], [ROOT], fix), 2);
    ThreeUpdates([ROOT], [ROOT], fix, fix);
    ThreeLogs(id, h, Some(Sha(1)), [ROOT], [ROOT], fix, 2);
    ForwardStep(s4, id, FIX);
    assert SetPublished(s4, id, fix) == OneSite(id, h, Some(Sha(2)), Three([ROOT], fix, fix), 2);
  }

  lemma FixPublished(id: SiteId, h: string, path: string, fixed: Content, deletes: bool)
    requires Valid(OneSite(id, h, Some(Sha(1)), Three([ROOT], [ROOT], [ROOT, FixCommit(path, fixed)]), 2))
    ensures
      var ops, fix := DivergedRun(id, h, path, fixed, deletes), [ROOT, FixCommit(path, fixed)];
      var s4 := OneSite(id, h, Some(Sha(1)), Three([ROOT], [ROOT], fix), 2);
      var s5 := OneSite(id, h, Some(Sha(2)), Three([ROOT], fix, fix), 2);
      Valid(s5) && Run(s4, ops[4..]) == Run(s5, ops[5..])
  {
    hide Valid, Step;
    var fix := [ROOT, FixCommit(path, fixed)];
    var s4 := OneSite(id, h, Some(Sha(1)), Three([ROOT], [ROOT], fix), 2);
    FixForward(id, h, fix);
    RunFrom(s4, DivergedRun(id, h, path, fixed, deletes), 4, OneSite(id, h, Some(Sha(2)), Three([ROOT], fix, fix), 2));
  }

  /** The example's store before its last publish: published has the fix, draft has the edit. */
  function DivergedStore(id: SiteId, h: string, path: string, fixed: Content, deletes: bool): Store {
    var fix := [ROOT, FixCommit(path, fixed)];
    OneSite(id, h, Some(Sha(2)), Three([ROOT, Edited(deletes)], fix, fix), 3)
  }

  lemma DraftEdited(id: SiteId, h: string, path: string, fixed: Content, deletes: bool)
    requires
      var fix := [ROOT, FixCommit(path, fixed)];
      Valid(OneSite(id, h, Some(Sha(2)), Three([ROOT], fix, fix), 2))
    ensures
      var ops, fix := DivergedRun(id, h, path, fixed, deletes), [ROOT, FixCommit(path, fixed)];
      var s5 := OneSite(id, h, Some(Sha(2)), Three([ROOT], fix, fix), 2);
      Valid(DivergedStore(id, h, path, fixed, deletes)) &&
      Run(s5, ops[5..]) == Run(DivergedStore(id, h, path, fixed, deletes), ops[6..])
  {
    hide Valid, Step;
    var fix := [ROOT, FixCommit(path, fixed)];
    var s5 := OneSite(id, h, Some(Sha(2)), Three([ROOT], fix, fix), 2);
    ThreeUpdates([ROOT], fix, fix, [ROOT, Edited(deletes)]);
    ThreeLogs(id, h, Some(Sha(2)), [ROOT], fix, fix, 2);
    if deletes {
      DeleteStep(s5, id, DRAFT, "index.html");
      assert ROOT.tree - {"index.html"} == map[];
    } else {
      WriteStep(s5, id, DRAFT, "style.css", [3]);
    }
    var s6 := DivergedStore(id, h, path, fixed, deletes);
    assert Append([ROOT], Edited(deletes).tree, 3) == [ROOT, Edited(deletes)];
    assert CommitOn(s5, id, DRAFT, [ROOT], Edited(deletes).tree).0 == s6;
    RunFrom(s5, DivergedRun(id, h, path, fixed, deletes), 5, s6);
  }

  lemma LastStep(s: Store, id: SiteId, h: string, path: string, fixed: Content, deletes: bool)
    requires Valid(s) && Publish(s, id, DRAFT, Sha(3)).Ok?
    ensures Run(s, DivergedRun(id, h, path, fixed, deletes)[6..]) == Publish(s, id, DRAFT, Sha(3)).value.0
  {
    hide Valid, Publish;
    var ops := DivergedRun(id, h, path, fixed, deletes);
    RunFrom(s, ops, 6, Publish(s, id, DRAFT, Sha(3)).value.0);
    assert ops[7..] == [];
  }

  /** What the last publish of the example merges. */
  lemma LastPublish(id: SiteId, h: string, path: string, fixed: Content, deletes: bool)
    requires Valid(DivergedStore(id, h, path, fixed, deletes)) && path != EditedPath(deletes)
    ensures
      var r := Publish(DivergedStore(id, h, path, fixed, deletes), id, DRAFT, Sha(3));
      r.Ok? && LogOf(r.value.0, id, PUBLISHED) == [ROOT, FixCommit(path, fixed), r.value.1] &&
      r.value.1.tree == FixCommit(path, fixed).tree + Edited(deletes).tree
    ensures Clashes(FixCommit(path, fixed).tree, Edited(deletes).tree, ROOT.tree) == {}
  {
    hide Valid, Publish;
    var s := DivergedStore(id, h, path, fixed, deletes);
    var pub, src := [ROOT, FixCommit(path, fixed)], [ROOT, Edited(deletes)];
    ThreeUpdates(src, pub, pub, src);
    ThreeLogs(id, h, Some(Sha(2)), src, pub, pub, 3);
    ShasDiffer(2, 3);
    assert !(pub <= src) by { assert pub[1] != src[1]; }
    CommonLenIs(pub, src, 1);
    ExampleTrees(path, fixed, deletes);
    PublishesClean(s, id, DRAFT, Sha(3), pub, src);
    PublishMerges(s, id, DRAFT, Sha(3));
  }

  /** The three trees of the example: never a clash; a revert exactly when index.html was fixed, and a
      resurrection whenever it was deleted. */
  lemma ExampleTrees(path: string, fixed: Content, deletes: bool)
    requires path != EditedPath(deletes)
    ensures
      var pub, src := FixCommit(path, fixed).tree, Edited(deletes).tree;
      Clashes(pub, src, ROOT.tree) == {} &&
      (deletes ==> pub + src == pub && Resurrects(pub, src, ROOT.tree, "index.html")) &&
      (pub + src == ThreeWay(pub, src, ROOT.tree) <==> !deletes && (path != "index.html" || fixed == [1]))
  {
    var pub, src := FixCommit(path, fixed).tree, Edited(deletes).tree;
    assert Clashes(pub, src, ROOT.tree) == {};
    UnionIsThreeWay(pub, src, ROOT.tree);
    if deletes {
      assert Resurrects(pub, src, ROOT.tree, "index.html");
    } else {
      assert Reverts(pub, src, ROOT.tree, "index.html") <==> path == "index.html" && fixed != [1];
    }
  }

  lemma UpToLastPublish(id: SiteId, h: string, path: string, fixed: Content, deletes: bool)
    requires ValidateHandle(h).None?
    ensures Valid(EMPTY_STORE) && Valid(DivergedStore(id, h, path, fixed, deletes))
    ensures
      var ops := DivergedRun(id, h, path, fixed, deletes);
      Run(EMPTY_STORE, ops) == Run(DivergedStore(id, h, path, fixed, deletes), ops[6..])
  {
    FirstPublish(id, h, path, fixed, deletes);
    FixBranched(id, h, path, fixed, deletes);
    FixWritten(id, h, path, fixed, deletes);
    FixPublished(id, h, path, fixed, deletes);
    DraftEdited(id, h, path, fixed, deletes);
  }

  lemma MergedRun(id: SiteId, h: string, path: string, fixed: Content, deletes: bool)
    requires ValidateHandle(h).None? && path != EditedPath(deletes)
    ensures Valid(EMPTY_STORE)
    ensures
      var log := LogOf(Run(EMPTY_STORE, DivergedRun(id, h, path, fixed, deletes)), id, PUBLISHED);
      |log| == 3 && log[..2] == [ROOT, FixCommit(path, fixed)] &&
      Tip(log).tree == FixCommit(path, fixed).tree + Edited(deletes).tree
  {
    hide Valid, Publish, Step;
    UpToLastPublish(id, h, path, fixed, deletes);
    LastPublish(id, h, path, fixed, deletes);
    LastStep(DivergedStore(id, h, path, fixed, deletes), id, h, path, fixed, deletes);
  }

  /** The run in which draft adds a file always ends in a merge, and the merge is right unless the fix touched
      the file the draft had merely left alone: then the fix is undone on published without any conflict. */
  lemma MergeBoundaryReached(id: SiteId, h: string, path: string, fixed: Content)
    requires ValidateHandle(h).None? && path != "style.css"
    ensures Valid(EMPTY_STORE)
    ensures
      var log := LogOf(Run(EMPTY_STORE, DivergedRun(id, h, path, fixed, false)), id, PUBLISHED);
      |log| == 3 && log[..2] == [ROOT, FixCommit(path, fixed)] &&
      (Tip(log).tree == ThreeWay(FixCommit(path, fixed).tree, Edited(false).tree, ROOT.tree)
       <==> path != "index.html" || fixed == [1])
  {
    hide Valid, Run;
    MergedRun(id, h, path, fixed, false);
    ExampleTrees(path, fixed, false);
  }

  /** The run in which draft deletes index.html, while a fix to another file goes out: the merge has no
      conflict and leaves the deleted file published, where a three-way merge would have dropped it. */
  lemma DeletionUndone(id: SiteId, h: string, path: string, fixed: Content)
    requires ValidateHandle(h).None? && path != "index.html"
    ensures Valid(EMPTY_STORE)
    ensures
      var log := LogOf(Run(EMPTY_STORE, DivergedRun(id, h, path, fixed, true)), id, PUBLISHED);
      |log| == 3 && "index.html" in Tip(log).tree &&
      "index.html" !in ThreeWay(FixCommit(path, fixed).tree, Edited(true).tree, ROOT.tree)
  {
    hide Valid, Run;
    MergedRun(id, h, path, fixed, true);
    ExampleTrees(path, fixed, true);
  }
}
