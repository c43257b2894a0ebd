/**
 Branches as append-only commit logs, and what it means for two logs to share history.
 backend/internal/site/fake.go, backend/internal/site/fake_helpers.go
 */
module Logs {
  import opened Prelude
  import opened Text
  import opened Shas
  import opened Trees

  datatype Commit = Commit(sha: string, parents: seq<string>, tree: Tree)

  type Log = seq<Commit>

  function Tip(log: Log): Commit
    requires log != []
  {
    log[|log| - 1]
  }

  /** The log with one more commit, made the way `commit` makes it. */
  function Append(log: Log, tree: Tree, number: nat): Log {
    log + [Commit(Sha(number), if log == [] then [] else [Tip(log).sha], tree)]
  }

  // ---- well-formed logs ----

  /** The commit's first parent is the commit before it; the first commit has none. */
  ghost predicate LinkedAt(log: Log, i: nat)
    requires i < |log|
  {
    if i == 0 then log[i].parents == [] else log[i].parents != [] && log[i].parents[0] == log[i - 1].sha
  }

  ghost predicate Chained(log: Log) {
    forall i: nat :: i < |log| ==> LinkedAt(log, i)
  }

  ghost predicate DistinctShas(log: Log) {
    forall i, j :: 0 <= i < |log| && 0 <= j < |log| && log[i].sha == log[j].sha ==> i == j
  }

  ghost predicate AllIssued(log: Log, n: nat) {
    forall i :: 0 <= i < |log| ==> Issued(log[i].sha, n)
  }

  ghost predicate GoodLog(log: Log, n: nat) {
    log != [] && Chained(log) && DistinctShas(log) && AllIssued(log, n)
  }

  /** Wherever the two logs hold the same sha they hold it at the same place, and agree up to there. */
  ghost predicate Coherent(a: Log, b: Log) {
    forall i, j :: 0 <= i < |a| && 0 <= j < |b| && a[i].sha == b[j].sha ==>
      i == j && a[..i + 1] == b[..j + 1]
  }

  lemma CoherentSymmetric(a: Log, b: Log)
    requires Coherent(a, b)
    ensures Coherent(b, a)
  {}

  lemma CoherentSelf(a: Log)
    requires DistinctShas(a)
    ensures Coherent(a, a)
  {}

  lemma ShasUnique(log: Log, i: nat, j: nat)
    requires DistinctShas(log) && i < |log| && j < |log| && log[i].sha == log[j].sha
    ensures i == j
  {}

  /** `c` can go on top of `log`: its first parent is the tip, if there is one. */
  predicate Follows(c: Commit, log: Log) {
    if log == [] then c.parents == [] else c.parents != [] && c.parents[0] == Tip(log).sha
  }

  lemma AppendChained(log: Log, c: Commit)
    requires Chained(log) && Follows(c, log)
    ensures Chained(log + [c])
  {
    forall i: nat | i < |log + [c]| ensures LinkedAt(log + [c], i) {
      if i < |log| { assert LinkedAt(log, i); }
    }
  }

  lemma AppendFresh(log: Log, n: nat, c: Commit)
    requires DistinctShas(log) && AllIssued(log, n) && c.sha == Sha(n + 1)
    ensures DistinctShas(log + [c]) && AllIssued(log + [c], n + 1)
  {
    FreshSha(n);
    forall i | 0 <= i < |log| ensures Issued(log[i].sha, n + 1) && log[i].sha != c.sha {
      assert Issued(log[i].sha, n);
    }
  }

  /** Appending a freshly numbered commit keeps a log good. */
  lemma AppendGood(log: Log, n: nat, c: Commit)
    requires log == [] || GoodLog(log, n)
    requires c.sha == Sha(n + 1) && Follows(c, log)
    ensures GoodLog(log + [c], n + 1)
  {
    AppendChained(log, c);
    AppendFresh(log, n, c);
  }

  /** ... and keeps it coherent with any other log of the store. */
  lemma AppendCoherent(a: Log, b: Log, n: nat, c: Commit)
    requires Coherent(a, b) && AllIssued(b, n) && c.sha == Sha(n + 1)
    ensures Coherent(a + [c], b)
  {
    FreshSha(n);
    var a' := a + [c];
    forall i, j | 0 <= i < |a'| && 0 <= j < |b| && a'[i].sha == b[j].sha
      ensures i == j && a'[..i + 1] == b[..j + 1]
    {
      assert Issued(b[j].sha, n);
      assert i < |a|;
      assert a'[..i + 1] == a[..i + 1];
    }
  }

  // ---- ancestry is the prefix order ----

  /** How far two logs run together. */
  function CommonLen(a: Log, b: Log): (n: nat)
    ensures n <= |a| && n <= |b| && a[..n] == b[..n]
    ensures n < |a| && n < |b| ==> a[n] != b[n]
  {
    if a == [] || b == [] || a[0] != b[0] then 0
    else
      var n := CommonLen(a[1..], b[1..]);
      assert a[..n + 1] == [a[0]] + a[1..][..n];
      assert b[..n + 1] == [b[0]] + b[1..][..n];
      n + 1
  }

  lemma {:induction false} CommonLenIs(a: Log, b: Log, n: nat)
    requires n <= |a| && n <= |b| && a[..n] == b[..n]
    requires n < |a| && n < |b| ==> a[n] != b[n]
    ensures CommonLen(a, b) == n
  {
    if n > 0 {
      assert a[0] == a[..n][0] == b[..n][0] == b[0];
      assert a[1..][..n - 1] == a[..n][1..] && b[1..][..n - 1] == b[..n][1..];
      CommonLenIs(a[1..], b[1..], n - 1);
    }
  }

  /** The tree of the newest commit two logs share, the empty tree if they share none. */
  ghost function BaseTree(pub: Log, src: Log): Tree {
    var n := CommonLen(pub, src);
    if n == 0 then map[] else src[n - 1].tree
  }

  /** "Some commit of `src` has the published tip's sha" says exactly that `pub` is a prefix of `src`. */
  lemma AncestorIsPrefix(pub: Log, src: Log)
    requires pub != [] && Coherent(pub, src)
    ensures (exists j :: 0 <= j < |src| && src[j].sha == Tip(pub).sha) <==> pub <= src
  {
    if j :| 0 <= j < |src| && src[j].sha == Tip(pub).sha {
      assert pub[|pub| - 1].sha == src[j].sha;
      assert pub[..|pub|] == pub;
    }
    if pub <= src {
      assert src[|pub| - 1].sha == Tip(pub).sha;
    }
  }

  /** The shas two coherent logs share are exactly those of the common prefix. */
  lemma SharedIsCommon(a: Log, b: Log, j: nat)
    requires Coherent(a, b) && j < |b|
    ensures (exists i :: 0 <= i < |a| && a[i].sha == b[j].sha) <==> j < CommonLen(a, b)
  {
    var n := CommonLen(a, b);
    if i :| 0 <= i < |a| && a[i].sha == b[j].sha {
      assert a[..i + 1] == b[..j + 1];
      forall k | 0 <= k <= j ensures a[k] == b[k] {
        assert a[..i + 1][k] == b[..j + 1][k];
      }
    }
    if j < n {
      assert a[j] == a[..n][j] == b[..n][j] == b[j];
    }
  }

  lemma SameCommit(a: Log, b: Log, i: nat, j: nat)
    requires Coherent(a, b) && i < |a| && j < |b| && a[i].sha == b[j].sha
    ensures i == j && a[i] == b[j]
  {
    assert a[..i + 1][i] == b[..j + 1][i];
  }

  // ---- the ancestry helpers ----

  /** isAncestor */
  method IsAncestor(branch: Log, sha: string) returns (r: bool)
    ensures r <==> exists j :: 0 <= j < |branch| && branch[j].sha == sha
  {
    for i := 0 to |branch|
      invariant forall j :: 0 <= j < i ==> branch[j].sha != sha
    {
      if branch[i].sha == sha {
        return true;
      }
    }
    return false;
  }

  /** The sha -> tree table of the published log; `at` says where each sha stands. */
  method TreesBySha(pub: Log) returns (trees: map<string, Tree>, ghost at: map<string, nat>)
    ensures forall i :: 0 <= i < |pub| ==> pub[i].sha in trees
    ensures forall sha :: sha in trees ==>
      sha in at && at[sha] < |pub| && pub[at[sha]].sha == sha && pub[at[sha]].tree == trees[sha]
  {
    trees, at := map[], map[];
    for k := 0 to |pub|
      invariant forall i :: 0 <= i < k ==> pub[i].sha in trees
      invariant forall sha :: sha in trees ==>
        sha in at && at[sha] < k && pub[at[sha]].sha == sha && pub[at[sha]].tree == trees[sha]
    {
      trees := trees[pub[k].sha := pub[k].tree];
      at := at[pub[k].sha := k];
    }
  }

  /** mergeBaseTree: the newest source commit that published has seen. */
  method MergeBaseTree(pub: Log, src: Log) returns (base: Tree)
    requires Coherent(pub, src)
    ensures base == BaseTree(pub, src)
  {
    hide Coherent, CommonLen;
    var pubSet, at := TreesBySha(pub);
    var i := |src|;
    while i > 0
      invariant CommonLen(pub, src) <= i <= |src|
    {
      i := i - 1;
      SharedIsCommon(pub, src, i);
      if src[i].sha in pubSet {
        SameCommit(pub, src, at[src[i].sha], i);
        return pubSet[src[i].sha];
      }
    }
    return map[];
  }

  type Branches = map<string, Log>

  ghost predicate AllCoherent(branches: Branches) {
    forall n, m :: n in branches && m in branches ==> Coherent(branches[n], branches[m])
  }

  /** commitsUpTo: whichever branch the walk meets first, the answer is the same. */
  method CommitsUpTo(branches: Branches, sha: string) returns (r: Log)
    requires AllCoherent(branches)
    ensures forall n, i :: n in branches && 0 <= i < |branches[n]| && branches[n][i].sha == sha ==>
      r == branches[n][..i + 1]
    ensures (forall n, i :: n in branches && 0 <= i < |branches[n]| ==> branches[n][i].sha != sha) ==> r == []
  {
    var todo := branches.Keys;
    while todo != {}
      invariant todo <= branches.Keys
      invariant forall n, i :: n in branches && n !in todo && 0 <= i < |branches[n]| ==> branches[n][i].sha != sha
    {
      var n :| n in todo;
      todo := todo - {n};
      var b := branches[n];
      for i := 0 to |b|
        invariant forall j :: 0 <= j < i ==> b[j].sha != sha
      {
        if b[i].sha == sha {
          return b[..i + 1];
        }
      }
    }
    return [];
  }

  /** `ref` names this commit: the tip of the branch of that name, else the commit of that sha. */
  ghost predicate Resolves(branches: Branches, ref: string, c: Commit) {
    if ref in branches then branches[ref] != [] && c == Tip(branches[ref])
    else c.sha == ref && exists n, i :: n in branches && 0 <= i < |branches[n]| && branches[n][i] == c
  }

  /** A ref names at most one commit, however many branches share it. */
  lemma ResolvesOnce(branches: Branches, ref: string, c: Commit, d: Commit)
    requires AllCoherent(branches) && Resolves(branches, ref, c) && Resolves(branches, ref, d)
    ensures c == d
  {
    if ref !in branches {
      var n, i :| n in branches && 0 <= i < |branches[n]| && branches[n][i] == c;
      var m, j :| m in branches && 0 <= j < |branches[m]| && branches[m][j] == d;
      assert branches[n][..i + 1][i] == branches[m][..j + 1][i];
    }
  }

  /** resolveAnyRef: a branch name first, else the one commit of the site with that sha. */
  method ResolveAnyRef(branches: Branches, ref: string) returns (r: Option<Commit>)
    requires forall n :: n in branches ==> branches[n] != []
    ensures r.Some? ==> Resolves(branches, ref, r.value)
    ensures r.None? ==> forall c :: !Resolves(branches, ref, c)
  {
    if ref in branches {
      return Some(Tip(branches[ref]));
    }
    var todo := branches.Keys;
    while todo != {}
      invariant todo <= branches.Keys
      invariant forall n, i :: n in branches && n !in todo && 0 <= i < |branches[n]| ==> branches[n][i].sha != ref
    {
      var n :| n in todo;
      todo := todo - {n};
      var b := branches[n];
      for i := 0 to |b|
        invariant forall j :: 0 <= j < i ==> b[j].sha != ref
      {
        if b[i].sha == ref {
          assert branches[n][i] == b[i];
          return Some(b[i]);
        }
      }
    }
    return None;
  }

  // ---- looking inside one log ----

  ghost predicate Holds(log: Log, sha: string) {
    exists i :: 0 <= i < |log| && log[i].sha == sha
  }

  ghost function PositionOf(log: Log, sha: string): (i: nat)
    requires Holds(log, sha)
    ensures i < |log| && log[i].sha == sha
  {
    var i :| 0 <= i < |log| && log[i].sha == sha;
    i
  }

  /** The paths that differ between a commit of the log and its tip; none if the sha is unknown. */
  ghost function ChangedSince(log: Log, base: string): set<string>
    requires log != []
  {
    if Holds(log, base) then DiffSet(log[PositionOf(log, base)].tree, Tip(log).tree, "") else {}
  }

  /** changedBetween, with the tip as the later commit. */
  method ChangedBetween(commits: Log, base: string, tip: string) returns (paths: seq<string>)
    requires commits != [] && DistinctShas(commits) && tip == Tip(commits).sha
    ensures paths == Sorted(ChangedSince(commits, base))
  {
    var baseTree: Option<Tree> := None;
    var tipTree: Option<Tree> := None;
    for i := 0 to |commits|
      invariant baseTree.None? ==> forall j :: 0 <= j < i ==> commits[j].sha != base
      invariant baseTree.Some? ==> exists j :: 0 <= j < i && commits[j].sha == base && baseTree == Some(commits[j].tree)
      invariant i == |commits| ==> tipTree == Some(Tip(commits).tree)
    {
      if commits[i].sha == base {
        baseTree := Some(commits[i].tree);
      }
      if commits[i].sha == tip {
        tipTree := Some(commits[i].tree);
      }
    }
    if baseTree.None? || tipTree.None? {
      NoElements(Sorted({}));
      return [];
    }
    var diffs := DiffTrees(baseTree.value, tipTree.value, "");
    paths := [];
    for i := 0 to |diffs|
      invariant paths == KeysOf(diffs, PathOf)[..i]
    {
      paths := paths + [diffs[i].path];
    }
    ghost var j :| 0 <= j < |commits| && commits[j].sha == base && baseTree == Some(commits[j].tree);
    ShasUnique(commits, j, PositionOf(commits, base));
  }

  /** Did commit `k` of the log change `path`, compared with the commit before it? */
  predicate TouchedAt(log: Log, k: nat, path: string)
    requires k < |log|
  {
    Lookup(log[k].tree, path) != if k > 0 then Lookup(log[k - 1].tree, path) else None
  }

  /** commitTouchedPath */
  method CommitTouchedPath(commits: Log, sha: string, path: string) returns (r: bool)
    requires DistinctShas(commits)
    ensures Holds(commits, sha) ==> r == TouchedAt(commits, PositionOf(commits, sha), path)
    ensures !Holds(commits, sha) ==> !r
  {
    var idx := -1;
    for i := 0 to |commits|
      invariant idx == -1
      invariant forall j :: 0 <= j < i ==> commits[j].sha != sha
    {
      if commits[i].sha == sha {
        idx := i;
        break;
      }
    }
    if idx < 0 {
      return false;
    }
    ShasUnique(commits, idx, PositionOf(commits, sha));
    var cur := commits[idx].tree;
    var parent: Tree := map[];
    if idx > 0 {
      parent := commits[idx - 1].tree;
    }
    if (path in cur) != (path in parent) {
      return true;
    }
    if path in cur && path in parent && cur[path] != parent[path] {
      return true;
    }
    return false;
  }

  /** The ancestor search of Rollback. */
  method FindCommit(commits: Log, sha: string) returns (r: Option<Commit>)
    requires DistinctShas(commits)
    ensures r == if Holds(commits, sha) then Some(commits[PositionOf(commits, sha)]) else None
  {
    for i := 0 to |commits|
      invariant forall j :: 0 <= j < i ==> commits[j].sha != sha
    {
      if commits[i].sha == sha {
        ShasUnique(commits, i, PositionOf(commits, sha));
        return Some(commits[i]);
      }
    }
    return None;
  }
}
