/**
 Cursor paging through a branch's history, by the rule of the REST endpoint and by
 the rule of the MCP tool, while commits keep arriving between the requests.
 backend/internal/api/history.go, backend/internal/mcpserver/tools.go
 */
module Paging {
  import opened Prelude
  import opened Shas
  import opened Handles
  import opened Logs
  import opened BranchHistory
  import M = SiteModel
  import opened SiteInvariant
  import opened SiteRuns
  import SitePublish
  import opened FakeServiceModule

  const MAX_REST_LIMIT: nat := 500

  /** One page and the cursor for the next, if there is one. */
  datatype Page = Page(commits: seq<Commit>, next: Option<string>)

  /** The two ways of asking for `limit` commits. */
  datatype Rule =
    | Rest(limit: nat) // asks for one more and cuts it off
    | Mcp(limit: nat)  // takes a full page to mean that there may be more

  /** The limits the endpoints let through. */
  predicate Allowed(rule: Rule) {
    rule.limit >= 1 && (rule.Rest? ==> rule.limit <= MAX_REST_LIMIT)
  }

  ghost function PageOf(rule: Rule, log: Log, before: string, path: string): Page
    requires Allowed(rule)
  {
    match rule
    case Rest(n) =>
      var got := LogPage(log, ServiceLimit(n + 1), before, path);
      if |got| > n then Page(got[..n], Some(got[n - 1].sha)) else Page(got, None)
    case Mcp(n) =>
      var got := LogPage(log, ServiceLimit(n), before, path);
      Page(got, if |got| == n then Some(got[n - 1].sha) else None)
  }

  // ---- the endpoints ----

  /** The page size a REST request gets; a parameter that is no number counts as absent. */
  function RestLimit(limitParam: Option<int>): (n: nat)
    ensures 1 <= n <= MAX_REST_LIMIT
    ensures limitParam.None? || limitParam.value < 1 ==> n == 50
    ensures limitParam.Some? && limitParam.value > 500 ==> n == 500
    ensures limitParam.Some? && 1 <= limitParam.value <= MAX_REST_LIMIT ==> n == limitParam.value
  {
    match limitParam
    case Some(n) => if n < 1 then DEFAULT_LOG_LIMIT else Min(n, MAX_REST_LIMIT)
    case None => DEFAULT_LOG_LIMIT
  }

  /** The REST handler after access control: clamp, ask for one extra, trim. */
  method RestGetLog(svc: FakeService, id: M.SiteId, branch: string, limitParam: Option<int>,
                    before: string, path: string)
    returns (r: M.Result<Page>)
    requires svc.Valid()
    ensures r == if M.IsLive(svc.State(), id) && branch in svc.sites[id].branches
                 then Ok(PageOf(Rest(RestLimit(limitParam)), svc.sites[id].branches[branch], before, path))
                 else Err(M.NotFound)
  {
    hide LogPage, M.Valid;
    var n := DEFAULT_LOG_LIMIT;
    if limitParam.Some? {
      n := limitParam.value;
    }
    if n < 1 {
      n := DEFAULT_LOG_LIMIT;
    }
    if n > MAX_REST_LIMIT {
      n := MAX_REST_LIMIT;
    }
    var commits :- svc.GetLog(id, branch, n + 1, before, path);
    var nextBefore := None;
    if |commits| > n {
      nextBefore := Some(commits[n - 1].sha);
      commits := commits[..n];
    }
    return Ok(Page(commits, nextBefore));
  }

  /** The MCP tool after access control: reject an out-of-range limit, list the page, set the cursor. */
  method McpGetLog(svc: FakeService, id: M.SiteId, branch: string, limit: int, maxLimit: nat,
                   before: string, path: string)
    returns (r: M.Result<Page>)
    requires svc.Valid()
    ensures !(1 <= limit <= maxLimit) ==> r == Err(M.Invalid("limit"))
    ensures 1 <= limit <= maxLimit ==>
      r == if M.IsLive(svc.State(), id) && branch in svc.sites[id].branches
           then Ok(PageOf(Mcp(limit), svc.sites[id].branches[branch], before, path))
           else Err(M.NotFound)
  {
    hide LogPage, M.Valid;
    if limit < 1 || limit > maxLimit {
      return Err(M.Invalid("limit"));
    }
    var commits :- svc.GetLog(id, branch, limit, before, path);
    var out: seq<Commit> := [];
    for i := 0 to |commits|
      invariant out == commits[..i]
    {
      out := out + [commits[i]];
    }
    assert commits[..|commits|] == commits;
    var next := None;
    if |out| == limit && limit > 0 {
      next := Some(out[|out| - 1].sha);
    }
    return Ok(Page(out, next));
  }

  // ---- a client following the cursor ----

  /** What a client has collected after asking once per log in `logs`, and whether the cursor ran out. */
  ghost function Walk(rule: Rule, logs: seq<Log>, before: string, path: string): (seq<Commit>, bool)
    requires Allowed(rule)
  {
    if logs == [] then ([], false)
    else
      var page := PageOf(rule, logs[0], before, path);
      if page.next.None? then (page.commits, true)
      else
        var rest := Walk(rule, logs[1..], page.next.value, path);
        (page.commits + rest.0, rest.1)
  }

  /** Each log extends the first one, and has no repeated and no empty sha. */
  ghost predicate Growing(first: Log, logs: seq<Log>) {
    forall i :: 0 <= i < |logs| ==> first <= logs[i] && ProperShas(logs[i])
  }

  ghost predicate ProperShas(log: Log) {
    DistinctShas(log) && forall i :: 0 <= i < |log| ==> log[i].sha != ""
  }

  /** After the `j`-th entry of a history comes the history of what is older than that commit. */
  lemma {:induction false} HistoryBelow(log: Log, path: string, j: nat) returns (q: nat)
    requires j < |History(log, path)|
    ensures q < |log| && log[q] == History(log, path)[j]
    ensures History(log[..q], path) == History(log, path)[j + 1..]
    decreases |log|
  {
    var k := |log| - 1;
    var h, below := History(log, path), History(log[..k], path);
    if path == "" || TouchedAt(log, k, path) {
      assert h == [log[k]] + below;
      if j == 0 {
        q := k;
        return;
      }
      q := HistoryBelow(log[..k], path, j - 1);
    } else {
      assert h == [] + below == below;
      q := HistoryBelow(log[..k], path, j);
    }
    assert log[..k][..q] == log[..q];
  }

  /** In any later log the cursor still points at the same place. */
  lemma CursorStable(first: Log, later: Log, q: nat)
    requires first <= later && ProperShas(later) && q < |first|
    ensures Older(later, first[q].sha) == first[..q]
  {
    assert later[q] == first[q];
    ShasUnique(later, q, PositionOf(later, first[q].sha));
    assert later[..q] == first[..q];
  }

  /** The pages the service's cap leaves alone. */
  predicate WithinCap(rule: Rule) {
    match rule
    case Rest(n) => n + 1 <= MAX_LOG_LIMIT
    case Mcp(n) => n <= MAX_LOG_LIMIT
  }

  /** Within the cap a page with a cursor is exactly the next `limit` commits, and one without is all the rest. */
  lemma PageShape(rule: Rule, log: Log, before: string, path: string)
    requires Allowed(rule) && WithinCap(rule)
    ensures
      var page, h := PageOf(rule, log, before, path), History(Older(log, before), path);
      if page.next.None? then page.commits == h
      else |h| >= rule.limit && page.commits == h[..rule.limit] && page.next.value == h[rule.limit - 1].sha
  {}

  /** A walk whose cursor stands at position `p` of the first log collects the history below `p`. */
  lemma {:induction false} WalkFrom(rule: Rule, first: Log, p: nat, logs: seq<Log>, before: string, path: string)
    requires Allowed(rule) && WithinCap(rule) && Growing(first, logs) && p <= |first|
    requires |logs| > |History(first[..p], path)| && Older(logs[0], before) == first[..p]
    ensures Walk(rule, logs, before, path) == (History(first[..p], path), true)
    decreases |logs|
  {
    hide PageOf, History, Older;
    var h, n := History(first[..p], path), rule.limit;
    PageShape(rule, logs[0], before, path);
    var page := PageOf(rule, logs[0], before, path);
    if page.next.Some? {
      var q := HistoryBelow(first[..p], path, n - 1);
      assert first[..p][..q] == first[..q] && first[..p][q] == first[q];
      CursorStable(first, logs[1], q);
      WalkFrom(rule, first, q, logs[1..], page.next.value, path);
      assert h[..n] + h[n..] == h;
    }
  }

  /** Past the cap there is one page of MAX_LOG_LIMIT commits at most, and no cursor. */
  lemma WalkCapped(rule: Rule, logs: seq<Log>, path: string)
    requires Allowed(rule) && !WithinCap(rule) && logs != []
    ensures Walk(rule, logs, "", path) == (Take(History(logs[0], path), MAX_LOG_LIMIT), true)
  {}

  /** Following the cursor ends, and yields exactly the history as of the first request, without gap or
      repeat, whatever was committed meanwhile -- unless the page asked for is beyond the service's cap:
      then everything after the first MAX_LOG_LIMIT commits is lost. */
  lemma PagingExact(rule: Rule, logs: seq<Log>, path: string)
    requires Allowed(rule) && logs != [] && Growing(logs[0], logs)
    requires |logs| > |History(logs[0], path)|
    ensures Walk(rule, logs, "", path).1
    ensures Walk(rule, logs, "", path).0 == History(logs[0], path)
       <==> WithinCap(rule) || |History(logs[0], path)| <= MAX_LOG_LIMIT
  {
    if WithinCap(rule) {
      assert logs[0][..|logs[0]|] == logs[0];
      WalkFrom(rule, logs[0], |logs[0]|, logs, "", path);
    } else {
      WalkCapped(rule, logs, path);
    }
  }

  /** A history lists each commit at most once. */
  lemma {:induction false} HistoryDistinct(log: Log, path: string)
    requires DistinctShas(log)
    ensures Distinct(History(log, path))
    decreases |log|
  {
    if log != [] {
      var k := |log| - 1;
      HistoryDistinct(log[..k], path);
      forall c | c in History(log[..k], path) ensures c != log[k] {
        var i :| 0 <= i < k && log[..k][i] == c;
        assert log[i].sha != log[k].sha;
      }
      var below := History(log[..k], path);
      assert log[k] !in below;
      assert Distinct([log[k]] + below);
      assert [] + below == below;
    }
  }

  // ---- the logs a client meets in a run of the service ----

  /** The store before the first request and after each batch of operations. */
  ghost function StoresBetween(s: M.Store, batches: seq<seq<M.Op>>): (r: seq<M.Store>)
    requires M.Valid(s)
    ensures |r| == |batches| + 1 && r[0] == s
    decreases |batches|
  {
    if batches == [] then [s]
    else [s] + StoresBetween(Run(s, batches[0]), batches[1..])
  }

  ghost function LogsOf(stores: seq<M.Store>, id: M.SiteId, branch: string): (r: seq<Log>)
    ensures |r| == |stores| && forall i :: 0 <= i < |stores| ==> r[i] == LogOf(stores[i], id, branch)
  {
    seq(|stores|, i requires 0 <= i < |stores| => LogOf(stores[i], id, branch))
  }

  lemma LogIsProper(s: M.Store, id: M.SiteId, branch: string)
    requires M.Valid(s)
    ensures ProperShas(LogOf(s, id, branch))
  {
    if id in s.sites && branch in s.sites[id].branches {
      LogIsGood(s, id, branch);
      forall i | 0 <= i < |LogOf(s, id, branch)| ensures LogOf(s, id, branch)[i].sha != "" {
        ShaNotEmpty(LogOf(s, id, branch), s.counter, i);
      }
    }
  }

  lemma KeepsLogOf(s: M.Store, s': M.Store, id: M.SiteId, branch: string)
    requires KeepsHistory(s, s') && (branch == DRAFT || branch == PUBLISHED)
    ensures LogOf(s, id, branch) <= LogOf(s', id, branch)
  {}

  /** On draft and published, whatever happens between the requests, the logs met only extend the first. */
  lemma {:induction false} RunsGrow(s: M.Store, batches: seq<seq<M.Op>>, id: M.SiteId, branch: string, first: Log)
    requires M.Valid(s) && (branch == DRAFT || branch == PUBLISHED)
    requires first != [] && first <= LogOf(s, id, branch)
    ensures Growing(first, LogsOf(StoresBetween(s, batches), id, branch))
    decreases |batches|
  {
    hide M.Valid, Run, ProperShas, KeepsHistory;
    LogIsProper(s, id, branch);
    if batches != [] {
      var s' := Run(s, batches[0]);
      RunKeepsHistory(s, batches[0]);
      KeepsLogOf(s, s', id, branch);
      PrefixTransitive(first, LogOf(s, id, branch), LogOf(s', id, branch));
      RunsGrow(s', batches[1..], id, branch, first);
      var logs := LogsOf(StoresBetween(s, batches), id, branch);
      var rest := LogsOf(StoresBetween(s', batches[1..]), id, branch);
      forall i | 0 <= i < |logs| ensures first <= logs[i] && ProperShas(logs[i]) {
        if i > 0 { assert logs[i] == rest[i - 1]; }
      }
    }
  }

  /** Paging through draft or published over any run of the service, one batch of operations between
      two requests. */
  lemma PagingOverRun(rule: Rule, s: M.Store, batches: seq<seq<M.Op>>, id: M.SiteId, branch: string, path: string)
    requires M.Valid(s) && (branch == DRAFT || branch == PUBLISHED) && LogOf(s, id, branch) != []
    requires Allowed(rule) && |batches| >= |History(LogOf(s, id, branch), path)|
    ensures
      var walk := Walk(rule, LogsOf(StoresBetween(s, batches), id, branch), "", path);
      var history := History(LogOf(s, id, branch), path);
      walk.1 && (walk.0 == history <==> WithinCap(rule) || |history| <= MAX_LOG_LIMIT)
  {
    var log := LogOf(s, id, branch);
    RunsGrow(s, batches, id, branch, log);
    PagingExact(rule, LogsOf(StoresBetween(s, batches), id, branch), path);
  }

  // ---- both sides of the cap are reachable ----

  /** A site whose draft is written to until it has `n` commits. */
  ghost function DraftRun(id: M.SiteId, h: string, n: nat): seq<M.Op>
    requires n >= 1
  {
    if n == 1 then [M.OpCreateSite(id, h, None, [1])]
    else DraftRun(id, h, n - 1) + [M.OpWrite(id, DRAFT, "index.html", [], Sha(n - 1), true)]
  }

  lemma {:induction false} DraftRunLength(id: M.SiteId, h: string, n: nat)
    requires n >= 1 && ValidateHandle(h).None?
    ensures M.Valid(M.EMPTY_STORE)
    ensures
      var s := Run(M.EMPTY_STORE, DraftRun(id, h, n));
      var log := LogOf(s, id, DRAFT);
      M.IsLive(s, id) && s.counter == n && |log| == n && Tip(log).sha == Sha(n)
    decreases n
  {
    hide M.Valid, M.Step, Run;
    SitePublish.CreateStep(id, h);
    if n == 1 {
      RunOne(M.EMPTY_STORE, M.OpCreateSite(id, h, None, [1]));
    } else {
      DraftRunLength(id, h, n - 1);
      var s := Run(M.EMPTY_STORE, DraftRun(id, h, n - 1));
      SitePublish.WriteStep(s, id, DRAFT, "index.html", []);
      RunSnoc(M.EMPTY_STORE, DraftRun(id, h, n - 1), M.OpWrite(id, DRAFT, "index.html", [], Sha(n - 1), true));
    }
  }

  lemma {:induction false} WholeHistory(log: Log)
    ensures |History(log, "")| == |log|
    decreases |log|
  {
    if log != [] { WholeHistory(log[..|log| - 1]); }
  }

  /** Requests with nothing in between. */
  function Idle(n: nat): (r: seq<seq<M.Op>>)
    ensures |r| == n
  {
    seq(n, _ => [])
  }

  /** For every n there is a run that gives draft n commits. Paging through it within the cap collects all n;
      with a rule beyond the cap -- a REST limit of 500 is one -- it stops after 500 of them. */
  lemma CapIsReached(rule: Rule, id: M.SiteId, h: string, n: nat)
    requires Allowed(rule) && n >= 1 && ValidateHandle(h).None?
    ensures M.Valid(M.EMPTY_STORE)
    ensures
      var s := Run(M.EMPTY_STORE, DraftRun(id, h, n));
      var walk := Walk(rule, LogsOf(StoresBetween(s, Idle(n)), id, DRAFT), "", "");
      |History(LogOf(s, id, DRAFT), "")| == n && walk.1 &&
      |walk.0| == if WithinCap(rule) then n else Min(n, MAX_LOG_LIMIT)
  {
    hide M.Valid, Run, Walk, DraftRun, StoresBetween, LogOf, History;
    DraftRunLength(id, h, n);
    var s := Run(M.EMPTY_STORE, DraftRun(id, h, n));
    WholeHistory(LogOf(s, id, DRAFT));
    PagingOverRun(rule, s, Idle(n), id, DRAFT, "");
    if !WithinCap(rule) { WalkCapped(rule, LogsOf(StoresBetween(s, Idle(n)), id, DRAFT), ""); }
  }
}
