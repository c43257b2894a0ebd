/**
 The path-filtered, newest-first history of a branch and one page of it.
 backend/internal/site/fake.go, backend/internal/site/fake_helpers.go
 */
module BranchHistory {
  import opened Prelude
  import opened Logs

  const DEFAULT_LOG_LIMIT: nat := 50
  const MAX_LOG_LIMIT: nat := 500

  /** The clamp GetLog puts on the requested count. */
  function ServiceLimit(limit: int): (n: nat)
    ensures 1 <= n <= MAX_LOG_LIMIT
    ensures limit <= 0 ==> n == 50
    ensures 1 <= limit <= 500 ==> n == limit
  {
    if limit <= 0 then DEFAULT_LOG_LIMIT else Min(limit, MAX_LOG_LIMIT)
  }

  /** The commits that touched `path` (all of them for ""), newest first. */
  function History(log: Log, path: string): (h: seq<Commit>)
    ensures forall c :: c in h ==> c in log
  {
    if log == [] then []
    else
      var k := |log| - 1;
      (if path == "" || TouchedAt(log, k, path) then [log[k]] else []) + History(log[..k], path)
  }

  /** The part of the log strictly older than the cursor; all of it if the cursor is empty or unknown. */
  ghost function Older(log: Log, before: string): Log {
    if before != "" && Holds(log, before) then log[..PositionOf(log, before)] else log
  }

  function Take<T>(s: seq<T>, n: nat): seq<T> {
    if |s| <= n then s else s[..n]
  }

  ghost function LogPage(log: Log, n: nat, before: string, path: string): seq<Commit> {
    Take(History(Older(log, before), path), n)
  }

  /** Touching a path is judged against the commit before, so a longer log does not change it. */
  lemma TouchedInPrefix(log: Log, m: nat, k: nat, path: string)
    requires k < m <= |log|
    ensures TouchedAt(log[..m], k, path) == TouchedAt(log, k, path)
  {}

  /** The log turned round. */
  method NewestFirst(commits: Log) returns (all: Log)
    ensures |all| == |commits|
    ensures forall j :: 0 <= j < |all| ==> all[j] == commits[|commits| - 1 - j]
  {
    all := [];
    var i := |commits| - 1;
    while i >= 0
      invariant -1 <= i < |commits|
      invariant |all| == |commits| - 1 - i
      invariant forall j :: 0 <= j < |all| ==> all[j] == commits[|commits| - 1 - j]
    {
      all := all + [commits[i]];
      i := i - 1;
    }
  }

  /** Where the page starts in the turned-round log. */
  method StartAfter(commits: Log, all: Log, before: string) returns (start: nat)
    requires DistinctShas(commits) && |all| == |commits|
    requires forall j :: 0 <= j < |all| ==> all[j] == commits[|commits| - 1 - j]
    ensures start <= |all| && Older(commits, before) == commits[..|all| - start]
  {
    start := 0;
    if before != "" {
      for k := 0 to |all|
        invariant start == 0
        invariant forall j :: 0 <= j < k ==> all[j].sha != before
      {
        if all[k].sha == before {
          start := k + 1;
          ShasUnique(commits, |commits| - start, PositionOf(commits, before));
          return;
        }
      }
      forall i | 0 <= i < |commits| ensures commits[i].sha != before {
        assert all[|commits| - 1 - i] == commits[i];
      }
    }
    assert commits[..|commits|] == commits;
  }

  lemma OwnPosition(log: Log, k: nat)
    requires DistinctShas(log) && k < |log|
    ensures Holds(log, log[k].sha) && PositionOf(log, log[k].sha) == k
  {
    ShasUnique(log, k, PositionOf(log, log[k].sha));
  }

  /** One more commit at the newest end. */
  lemma HistoryStep(log: Log, m: nat, path: string)
    requires m < |log|
    ensures History(log[..m + 1], path)
      == (if path == "" || TouchedAt(log, m, path) then [log[m]] else []) + History(log[..m], path)
  {
    assert log[..m + 1][..m] == log[..m];
    TouchedInPrefix(log, m + 1, m, path);
  }

  /** A commit touched a path exactly if it added, changed or deleted it. */
  lemma TouchedExactly(log: Log, k: nat, path: string)
    requires k < |log|
    ensures
      var before := if k == 0 then map[] else log[k - 1].tree;
      TouchedAt(log, k, path) <==>
        (path in log[k].tree && path !in before) || (path !in log[k].tree && path in before) ||
        (path in log[k].tree && path in before && log[k].tree[path] != before[path])
  {}

  /** What a new commit does to the history of a path: it goes to the front if it added, changed or deleted the
      path, or if the history of all paths is asked for; otherwise nothing changes. */
  lemma CommitEntersHistory(log: Log, c: Commit, path: string)
    ensures
      var before := if log == [] then map[] else Tip(log).tree;
      History(log + [c], path) ==
        (if path == "" || Lookup(before, path) != Lookup(c.tree, path) then [c] else []) + History(log, path)
  {
    var log' := log + [c];
    assert log'[..|log|] == log;
  }

  /** The loops of GetLog. */
  method ReadPage(commits: Log, limit: nat, before: string, path: string) returns (out: seq<Commit>)
    requires DistinctShas(commits)
    ensures out == LogPage(commits, limit, before, path)
  {
    hide Older, History, DistinctShas, Holds, PositionOf, TouchedAt;
    var all := NewestFirst(commits);
    var start := StartAfter(commits, all, before);
    ghost var h := History(Older(commits, before), path);
    out := [];
    var k := start;
    while k < |all| && |out| < limit
      invariant start <= k <= |all| && |out| <= limit
      invariant out + History(commits[..|all| - k], path) == h
    {
      var c := all[k];
      HistoryStep(commits, |all| - 1 - k, path);
      OwnPosition(commits, |all| - 1 - k);
      k := k + 1;
      if path != "" {
        var touched := CommitTouchedPath(commits, c.sha, path);
        if !touched {
          continue;
        }
      }
      out := out + [c];
    }
    if k == |all| { NoHistory(commits, path); }
    assert out == h[..|out|];
  }

  lemma NoHistory(log: Log, path: string)
    ensures History(log[..0], path) == []
  {}
}
