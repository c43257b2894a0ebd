/**
 The preview cache: a time-limited, least-recently-used map whose misses are filled outside the lock.
 backend/internal/serve/treeprovider.go
 */
module PreviewCache {
  import opened Prelude
  import Handles
  import Text

  type Time = int

  datatype Target = Target(handle: string, branch: string, isPreview: bool)

  datatype TreeHandle = TreeHandle(root: string, commitSHA: string, siteID: nat)

  datatype Entry = Entry(th: TreeHandle, expires: Time, lastUsed: Time)

  datatype Cache = Cache(entries: map<string, Entry>, lruOrder: seq<string>)

  const EMPTY := Cache(map[], [])

  function Key(t: Target): string {
    t.handle + "\0" + t.branch
  }

  /** The targets the resolver hands over have a valid handle. */
  predicate Sane(t: Target) {
    t.isPreview && Handles.ValidateHandleForResolver(t.handle).None?
  }

  /** The key keeps handle and branch apart, since no valid handle holds a NUL. */
  lemma KeyInjective(t: Target, u: Target)
    requires Sane(t) && Sane(u)
    ensures Key(t) == Key(u) <==> t == u
  {
    Handles.AcceptedHandles(t.handle, 1);
    Handles.AcceptedHandles(u.handle, 1);
    Text.SplitCons(t.handle, t.branch, '\0');
    Text.SplitCons(u.handle, u.branch, '\0');
    if Key(t) == Key(u) {
      assert t.handle == Text.Split(Key(t), '\0')[0] == u.handle;
      assert t.branch == Key(t)[|t.handle| + 1..] == u.branch;
    }
  }

  // ---- the two locked sections ----

  /** The first: a fresh entry is a hit, and is marked as used. The clock is read twice. */
  function Looked(c: Cache, key: string, now: Time, again: Time): (Cache, Option<TreeHandle>) {
    if key in c.entries && now < c.entries[key].expires then
      (c.(entries := c.entries[key := c.entries[key].(lastUsed := again)]), Some(c.entries[key].th))
    else
      (c, None)
  }

  /** Whom a full cache gives up: any entry that no other was used before. */
  ghost predicate IsVictim(c: Cache, max: nat, victim: Option<string>) {
    if |c.entries| < max then victim.None?
    else
      victim.Some? && victim.value in c.entries &&
      forall k :: k in c.entries ==> c.entries[victim.value].lastUsed <= c.entries[k].lastUsed
  }

  function Without(entries: map<string, Entry>, victim: Option<string>): map<string, Entry> {
    match victim
    case None => entries
    case Some(v) => entries - {v}
  }

  /** The second: make room, then store. */
  function Filled(c: Cache, key: string, th: TreeHandle, now: Time, victim: Option<string>, ttl: Time, max: nat)
    : Cache
  {
    var order := if |c.entries| >= max && |c.lruOrder| > 4 * max then [] else c.lruOrder;
    Cache(Without(c.entries, victim)[key := Entry(th, now + ttl, now)], order + [key])
  }

  // ---- runs, with any interleaving of any number of requests ----

  /** Requests look, the wrapped provider answers, and answers are stored, in any order in which an
      answer is stored only after it was given. */
  datatype Event =
    | Look(t: Target, now: Time, again: Time)
    | Answer(t: Target, th: TreeHandle)
    | Store(t: Target, th: TreeHandle, now: Time, victim: Option<string>)

  datatype World = World(c: Cache, clock: Time)

  function Step(w: World, ev: Event, ttl: Time, max: nat): World {
    match ev
    case Look(t, now, again) => World(Looked(w.c, Key(t), now, again).0, again)
    case Answer(_, _) => w
    case Store(t, th, now, victim) => World(Filled(w.c, Key(t), th, now, victim, ttl, max), now)
  }

  function Run(trace: seq<Event>, ttl: Time, max: nat): World {
    if trace == [] then World(EMPTY, 0)
    else Step(Run(trace[..|trace| - 1], ttl, max), trace[|trace| - 1], ttl, max)
  }

  ghost predicate Possible(before: seq<Event>, ev: Event, ttl: Time, max: nat) {
    var w := Run(before, ttl, max);
    match ev
    case Look(t, now, again) => Sane(t) && w.clock <= now <= again
    case Answer(t, _) => Sane(t)
    case Store(t, th, now, victim) =>
      Sane(t) && w.clock <= now && IsVictim(w.c, max, victim) && Answer(t, th) in before
  }

  ghost predicate IsRun(trace: seq<Event>, ttl: Time, max: nat) {
    forall k :: 0 <= k < |trace| ==> Possible(trace[..k], trace[k], ttl, max)
  }

  lemma RunFront(trace: seq<Event>, ttl: Time, max: nat)
    requires trace != [] && IsRun(trace, ttl, max)
    ensures IsRun(trace[..|trace| - 1], ttl, max)
    ensures Possible(trace[..|trace| - 1], trace[|trace| - 1], ttl, max)
  {
    var front := trace[..|trace| - 1];
    forall k | 0 <= k < |front| ensures Possible(front[..k], front[k], ttl, max) {
      assert front[..k] == trace[..k];
    }
  }

  // ---- what an entry is, read off the trace alone ----

  /** The store that an entry for this key comes from, unless it has been evicted since. */
  function Latest(trace: seq<Event>, key: string): (r: Option<nat>)
    ensures r.Some? ==> r.value < |trace| && trace[r.value].Store? && Key(trace[r.value].t) == key
  {
    if trace == [] then None
    else
      var last := trace[|trace| - 1];
      if last.Store? && Key(last.t) == key then Some(|trace| - 1)
      else if last.Store? && last.victim == Some(key) then None
      else Latest(trace[..|trace| - 1], key)
  }

  /** A lookup of this key at `now` finds the last store still there and less than ttl old. */
  predicate Hits(before: seq<Event>, key: string, now: Time, ttl: Time) {
    var j := Latest(before, key);
    j.Some? && now < before[j.value].now + ttl
  }

  /** When a key was last looked up with success, or stored. */
  function LastUse(trace: seq<Event>, key: string, ttl: Time): Option<Time> {
    if trace == [] then None
    else
      var front, last := trace[..|trace| - 1], trace[|trace| - 1];
      if last.Store? && Key(last.t) == key then Some(last.now)
      else if last.Look? && Key(last.t) == key && Hits(front, key, last.now, ttl) then Some(last.again)
      else LastUse(front, key, ttl)
  }

  ghost predicate EntryIs(trace: seq<Event>, key: string, e: Entry, clock: Time, ttl: Time) {
    var j := Latest(trace, key);
    j.Some? && e.th == trace[j.value].th && e.expires == trace[j.value].now + ttl &&
    LastUse(trace, key, ttl) == Some(e.lastUsed) && trace[j.value].now <= e.lastUsed <= clock
  }

  ghost predicate Agrees(trace: seq<Event>, ttl: Time, max: nat) {
    var w := Run(trace, ttl, max);
    (forall key :: key in w.c.entries <==> Latest(trace, key).Some?) &&
    (forall key :: key in w.c.entries ==> EntryIs(trace, key, w.c.entries[key], w.clock, ttl)) &&
    |w.c.entries| <= max
  }

  /** An entry the last event did not touch. */
  lemma EntryKept(trace: seq<Event>, key: string, e: Entry, clock: Time, clock': Time, ttl: Time)
    requires trace != [] && clock <= clock'
    requires Latest(trace, key) == Latest(trace[..|trace| - 1], key)
    requires LastUse(trace, key, ttl) == LastUse(trace[..|trace| - 1], key, ttl)
    requires EntryIs(trace[..|trace| - 1], key, e, clock, ttl)
    ensures EntryIs(trace, key, e, clock', ttl)
  {
    hide LastUse;
  }

  lemma {:induction false} CacheAgrees(trace: seq<Event>, ttl: Time, max: nat)
    requires IsRun(trace, ttl, max) && max > 0
    ensures Agrees(trace, ttl, max)
    decreases |trace|
  {
    if trace != [] {
      var front, last := trace[..|trace| - 1], trace[|trace| - 1];
      RunFront(trace, ttl, max);
      CacheAgrees(front, ttl, max);
      match last
      case Answer(_, _) => AnswerAgrees(trace, ttl, max);
      case Look(_, _, _) => LookAgrees(trace, ttl, max);
      case Store(_, _, _, _) => StoreAgrees(trace, ttl, max);
    }
  }

  lemma AnswerAgrees(trace: seq<Event>, ttl: Time, max: nat)
    requires trace != [] && trace[|trace| - 1].Answer? && Agrees(trace[..|trace| - 1], ttl, max)
    ensures Agrees(trace, ttl, max)
  {
    hide EntryIs;
    var front := trace[..|trace| - 1];
    var w := Run(front, ttl, max);
    assert Run(trace, ttl, max) == w;
    forall key ensures Latest(trace, key) == Latest(front, key) {}
    forall key | key in w.c.entries ensures EntryIs(trace, key, w.c.entries[key], w.clock, ttl) {
      EntryKept(trace, key, w.c.entries[key], w.clock, w.clock, ttl);
    }
  }

  lemma LookAgrees(trace: seq<Event>, ttl: Time, max: nat)
    requires trace != [] && trace[|trace| - 1].Look? && Agrees(trace[..|trace| - 1], ttl, max)
    requires Possible(trace[..|trace| - 1], trace[|trace| - 1], ttl, max)
    ensures Agrees(trace, ttl, max)
  {
    hide EntryIs, Key, Sane, Latest;
    var front, last := trace[..|trace| - 1], trace[|trace| - 1];
    var w, w' := Run(front, ttl, max), Run(trace, ttl, max);
    assert w' == Step(w, last, ttl, max);
    assert w'.c.entries.Keys == w.c.entries.Keys;
    forall key ensures Latest(trace, key) == Latest(front, key) { LookKeepsLatest(trace, key); }
    forall key | key in w'.c.entries ensures EntryIs(trace, key, w'.c.entries[key], w'.clock, ttl) {
      assert EntryIs(front, key, w.c.entries[key], w.clock, ttl);
      if key == Key(last.t) && last.now < w.c.entries[key].expires {
        EntryUsed(trace, w.c.entries[key], w.clock, ttl);
      } else {
        EntryPassedOver(trace, key, w.c.entries[key], w.clock, ttl);
      }
    }
  }

  lemma LookKeepsLatest(trace: seq<Event>, key: string)
    requires trace != [] && trace[|trace| - 1].Look?
    ensures Latest(trace, key) == Latest(trace[..|trace| - 1], key)
  {}

  /** The entry that a successful lookup touched. */
  lemma EntryUsed(trace: seq<Event>, e: Entry, clock: Time, ttl: Time)
    requires trace != [] && trace[|trace| - 1].Look?
    requires clock <= trace[|trace| - 1].now <= trace[|trace| - 1].again
    requires
      var Look(t, now, again) := trace[|trace| - 1];
      EntryIs(trace[..|trace| - 1], Key(t), e, clock, ttl) && now < e.expires
    ensures
      var Look(t, now, again) := trace[|trace| - 1];
      EntryIs(trace, Key(t), e.(lastUsed := again), again, ttl)
  {
    var key := Key(trace[|trace| - 1].t);
    assert Latest(trace, key) == Latest(trace[..|trace| - 1], key);
  }

  /** An entry that a lookup did not touch: another key's, or an expired one. */
  lemma EntryPassedOver(trace: seq<Event>, key: string, e: Entry, clock: Time, ttl: Time)
    requires trace != [] && trace[|trace| - 1].Look? && clock <= trace[|trace| - 1].now <= trace[|trace| - 1].again
    requires EntryIs(trace[..|trace| - 1], key, e, clock, ttl)
    requires key == Key(trace[|trace| - 1].t) ==> trace[|trace| - 1].now >= e.expires
    ensures EntryIs(trace, key, e, trace[|trace| - 1].again, ttl)
  {
    hide Key;
    assert Latest(trace, key) == Latest(trace[..|trace| - 1], key);
  }

  lemma StoreAgrees(trace: seq<Event>, ttl: Time, max: nat)
    requires trace != [] && trace[|trace| - 1].Store? && Agrees(trace[..|trace| - 1], ttl, max) && max > 0
    requires Possible(trace[..|trace| - 1], trace[|trace| - 1], ttl, max)
    ensures Agrees(trace, ttl, max)
  {
    hide EntryIs, Key, Sane, IsVictim, Latest, LastUse;
    var front, last := trace[..|trace| - 1], trace[|trace| - 1];
    var w, w' := Run(front, ttl, max), Run(trace, ttl, max);
    assert w' == Step(w, last, ttl, max);
    forall key ensures key in w'.c.entries <==> Latest(trace, key).Some? {
      AfterStore(trace, key, ttl);
    }
    forall key | key in w'.c.entries ensures EntryIs(trace, key, w'.c.entries[key], w'.clock, ttl) {
      if key == Key(last.t) {
        EntryStored(trace, ttl);
      } else {
        AfterStore(trace, key, ttl);
        EntryKept(trace, key, w.c.entries[key], w.clock, w'.clock, ttl);
      }
    }
    FilledSize(w.c, Key(last.t), last.th, last.now, last.victim, ttl, max);
  }

  lemma AfterStore(trace: seq<Event>, key: string, ttl: Time)
    requires trace != [] && trace[|trace| - 1].Store?
    ensures
      var front, last := trace[..|trace| - 1], trace[|trace| - 1];
      key != Key(last.t) ==>
        Latest(trace, key) == (if last.victim == Some(key) then None else Latest(front, key)) &&
        LastUse(trace, key, ttl) == LastUse(front, key, ttl)
    ensures key == Key(trace[|trace| - 1].t) ==> Latest(trace, key).Some?
  {
    hide Key;
  }

  lemma EntryStored(trace: seq<Event>, ttl: Time)
    requires trace != [] && trace[|trace| - 1].Store?
    ensures
      var Store(t, th, now, _) := trace[|trace| - 1];
      EntryIs(trace, Key(t), Entry(th, now + ttl, now), now, ttl)
  {}

  lemma FilledSize(c: Cache, key: string, th: TreeHandle, now: Time, victim: Option<string>, ttl: Time, max: nat)
    requires |c.entries| <= max && max > 0 && IsVictim(c, max, victim)
    ensures |Filled(c, key, th, now, victim, ttl, max).entries| <= max
  {
    var kept := Without(c.entries, victim);
    assert |kept| < max by {
      if victim.Some? {
        assert kept.Keys == c.entries.Keys - {victim.value};
        assert |kept.Keys| == |c.entries.Keys| - 1;
      }
    }
    assert Filled(c, key, th, now, victim, ttl, max).entries.Keys == kept.Keys + {key};
  }

  // ---- main results ----

  /** In every interleaving, a lookup at `now` is a hit exactly when the last store for that very handle
      and branch has not been evicted and is less than ttl old; it then returns the stored tree, which is
      one the wrapped provider had given for that handle and branch. */
  lemma HitsExactly(trace: seq<Event>, k: nat, ttl: Time, max: nat)
    requires IsRun(trace, ttl, max) && max > 0 && k < |trace| && trace[k].Look?
    ensures
      var Look(t, now, again) := trace[k];
      var hit := Looked(Run(trace[..k], ttl, max).c, Key(t), now, again).1;
      var j := Latest(trace[..k], Key(t));
      (hit.Some? <==> j.Some? && now < trace[j.value].now + ttl) &&
      (hit.Some? ==>
        trace[j.value].t == t && trace[j.value].th == hit.value &&
        trace[j.value].now <= now < trace[j.value].now + ttl && Answer(t, hit.value) in trace[..j.value])
  {
    hide Key, Sane;
    var before := trace[..k];
    Prefix(trace, k, ttl, max);
    CacheAgrees(before, ttl, max);
    var t := trace[k].t;
    var j := Latest(before, Key(t));
    assert Possible(before, trace[k], ttl, max);
    if j.Some? {
      var s := trace[j.value];
      assert before[j.value] == s;
      assert EntryIs(before, Key(t), Run(before, ttl, max).c.entries[Key(t)], Run(before, ttl, max).clock, ttl);
      assert Possible(trace[..j.value], s, ttl, max);
      KeyInjective(t, s.t);
    }
  }

  lemma Prefix(trace: seq<Event>, k: nat, ttl: Time, max: nat)
    requires IsRun(trace, ttl, max) && k <= |trace|
    ensures IsRun(trace[..k], ttl, max)
  {
    forall i | 0 <= i < k ensures Possible(trace[..k][..i], trace[..k][i], ttl, max) {
      assert trace[..k][..i] == trace[..i];
    }
  }

  /** The cache never exceeds its bound, and a store gives up an entry only when it is full -- then one
      whose last use, as the trace tells it, is no later than any other's. */
  lemma EvictsLeastRecentlyUsed(trace: seq<Event>, k: nat, ttl: Time, max: nat)
    requires IsRun(trace, ttl, max) && max > 0 && k < |trace| && trace[k].Store?
    ensures
      var entries := Run(trace[..k], ttl, max).c.entries;
      var victim := trace[k].victim;
      |entries| <= max && (victim.Some? <==> |entries| == max) &&
      (victim.Some? ==> victim.value in entries) &&
      forall key :: key in entries && victim.Some? ==>
        LastUse(trace[..k], victim.value, ttl).Some? && LastUse(trace[..k], key, ttl).Some? &&
        LastUse(trace[..k], victim.value, ttl).value <= LastUse(trace[..k], key, ttl).value
  {
    hide Key, Sane, Latest, LastUse;
    Prefix(trace, k, ttl, max);
    CacheAgrees(trace[..k], ttl, max);
    assert Possible(trace[..k], trace[k], ttl, max);
  }

  /** A lookup that misses leaves the cache alone, and one that hits changes nothing but a time of use:
      which lookups hit never depends on lookups. */
  lemma LookupsAreInvisible(c: Cache, key: string, now: Time, again: Time, other: string, later: Time)
    ensures
      var c' := Looked(c, key, now, again).0;
      Looked(c', other, later, later).1 == Looked(c, other, later, later).1 &&
      c'.entries.Keys == c.entries.Keys && c'.lruOrder == c.lruOrder
  {
    hide Key;
    assert Looked(c, key, now, again).0.entries.Keys == c.entries.Keys;
  }

  // ---- when a hit is the newest answer ----

  predicate AnswerFor(ev: Event, t: Target) {
    ev.Answer? && ev.t == t
  }

  predicate StoreFor(ev: Event, t: Target) {
    ev.Store? && ev.t == t
  }

  /** Where the wrapped provider last answered for this target. */
  function Newest(trace: seq<Event>, t: Target): (r: Option<nat>)
    ensures r.Some? ==> r.value < |trace| && AnswerFor(trace[r.value], t)
    ensures r.Some? ==> forall i :: r.value < i < |trace| ==> !AnswerFor(trace[i], t)
    ensures r.None? ==> forall i :: 0 <= i < |trace| ==> !AnswerFor(trace[i], t)
  {
    if trace == [] then None
    else if AnswerFor(trace[|trace| - 1], t) then Some(|trace| - 1)
    else Newest(trace[..|trace| - 1], t)
  }

  /** The store at `j` puts in the newest answer given for its target. */
  predicate StoresNewest(trace: seq<Event>, j: nat)
    requires j < |trace| && trace[j].Store?
  {
    var n := Newest(trace[..j], trace[j].t);
    n.Some? && trace[n.value].th == trace[j].th
  }

  /** Some answer for `t` was given between `j` and `k`. */
  ghost predicate AnsweredSince(trace: seq<Event>, t: Target, j: nat, k: nat)
    requires k <= |trace|
  {
    exists i :: j < i < k && AnswerFor(trace[i], t)
  }

  ghost predicate DistinctAnswers(trace: seq<Event>, t: Target) {
    forall i, m | 0 <= i < |trace| && 0 <= m < |trace| && AnswerFor(trace[i], t) && AnswerFor(trace[m], t) ::
      trace[i].th == trace[m].th ==> i == m
  }

  /** A hit returns the newest answer for its target if the store it comes from was not overtaken by a newer
      answer, neither before it nor since; and if all answers differ, only then. */
  lemma NewestServedExactly(trace: seq<Event>, k: nat, ttl: Time, max: nat)
    requires IsRun(trace, ttl, max) && max > 0 && k < |trace| && trace[k].Look?
    ensures
      var Look(t, now, again) := trace[k];
      var hit := Looked(Run(trace[..k], ttl, max).c, Key(t), now, again).1;
      var j, n := Latest(trace[..k], Key(t)), Newest(trace[..k], t);
      hit.Some? ==>
        n.Some? && j.Some? &&
        (StoresNewest(trace, j.value) && !AnsweredSince(trace, t, j.value, k) ==> hit == Some(trace[n.value].th)) &&
        (DistinctAnswers(trace[..k], t) && hit == Some(trace[n.value].th) ==>
          StoresNewest(trace, j.value) && !AnsweredSince(trace, t, j.value, k))
  {
    hide Key, Sane, IsRun, Run, Looked, Latest, Newest, DistinctAnswers;
    HitsExactly(trace, k, ttl, max);
    var Look(t, now, again) := trace[k];
    var before := trace[..k];
    var hit := Looked(Run(before, ttl, max).c, Key(t), now, again).1;
    if hit.Some? {
      NewestOfHit(trace, k, t, Latest(before, Key(t)).value, hit.value);
    }
  }

  lemma NewestOfHit(trace: seq<Event>, k: nat, t: Target, j: nat, th: TreeHandle)
    requires j < k < |trace| && trace[j].Store? && trace[j].t == t && trace[j].th == th && Answer(t, th) in trace[..j]
    ensures
      var n := Newest(trace[..k], t);
      n.Some? &&
      (StoresNewest(trace, j) && !AnsweredSince(trace, t, j, k) ==> th == trace[n.value].th) &&
      (DistinctAnswers(trace[..k], t) && th == trace[n.value].th ==>
        StoresNewest(trace, j) && !AnsweredSince(trace, t, j, k))
  {
    hide Newest;
    var before, early := trace[..k], trace[..j];
    var i :| 0 <= i < |early| && early[i] == Answer(t, th);
    assert AnswerFor(before[i], t);
    var n, m := Newest(before, t).value, Newest(early, t);
    assert m.Some? by { assert AnswerFor(early[i], t); }
    assert AnswerFor(early[m.value], t) && AnswerFor(before[m.value], t) && early[m.value] == trace[m.value];
    assert forall x :: j < x < k ==> before[x] == trace[x];
    assert !AnswerFor(trace[j], t) && before[j] == trace[j];
    if n < j { assert AnswerFor(early[n], t); }
  }

  /** Fills taken in turn: every store for `t` puts in the newest answer, and at every lookup of `t` the
      newest answer has been stored. */
  ghost predicate InTurn(trace: seq<Event>, t: Target) {
    (forall j :: 0 <= j < |trace| && StoreFor(trace[j], t) ==> StoresNewest(trace, j)) &&
    forall i, k :: 0 <= i < k < |trace| && AnswerFor(trace[i], t) && trace[k].Look? && trace[k].t == t ==>
      exists j :: i < j < k && StoreFor(trace[j], t)
  }

  lemma {:induction false} LatestIsLast(trace: seq<Event>, key: string)
    ensures
      var j := Latest(trace, key);
      j.Some? ==> forall i :: j.value < i < |trace| && trace[i].Store? ==> Key(trace[i].t) != key
    decreases |trace|
  {
    hide Key;
    if trace != [] { LatestIsLast(trace[..|trace| - 1], key); }
  }

  /** While the fills for a target are taken in turn, every hit on it is the newest answer given for it. */
  lemma InTurnServesNewest(trace: seq<Event>, k: nat, ttl: Time, max: nat)
    requires IsRun(trace, ttl, max) && max > 0 && k < |trace| && trace[k].Look? && InTurn(trace, trace[k].t)
    ensures
      var Look(t, now, again) := trace[k];
      var hit := Looked(Run(trace[..k], ttl, max).c, Key(t), now, again).1;
      hit.Some? ==> Newest(trace[..k], t).Some? && hit.value == trace[Newest(trace[..k], t).value].th
  {
    hide Key, Sane, IsRun, Run, Looked, Latest, Newest, StoresNewest;
    HitsExactly(trace, k, ttl, max);
    NewestServedExactly(trace, k, ttl, max);
    var t := trace[k].t;
    LatestIsLast(trace[..k], Key(t));
    var j := Latest(trace[..k], Key(t));
    if j.Some? && trace[j.value].t == t {
      assert trace[..k][j.value] == trace[j.value];
      assert StoreFor(trace[j.value], t);
      forall m | j.value < m < k ensures !StoreFor(trace[m], t) { assert trace[..k][m] == trace[m]; }
      assert !AnsweredSince(trace, t, j.value, k);
    }
  }

  // ---- two limits ----

  /** Whom a cache holding nothing but `key` gives up. */
  function OnlyVictim(key: string, max: nat): Option<string> {
    if max == 1 then Some(key) else None
  }

  /** The ttl runs from the store, not from the answer: of two misses filled concurrently the older answer
      can be stored last, and is then served although the newer one was already cached. */
  lemma OlderAnswerCanWin(older: TreeHandle, newer: TreeHandle, t: Target, ttl: Time, max: nat)
    requires Sane(t) && ttl > 0 && max > 0 && older != newer
    ensures
      var trace := [Look(t, 0, 0), Look(t, 0, 0), Answer(t, older), Answer(t, newer),
                    Store(t, newer, 0, None), Store(t, older, 0, OnlyVictim(Key(t), max))];
      IsRun(trace, ttl, max) && Looked(Run(trace, ttl, max).c, Key(t), 0, 0).1 == Some(older) &&
      Newest(trace, t) == Some(3) && trace[3].th == newer
  {
    hide Sane, Key, IsRun, Run;
    var none: seq<Event> := [];
    var looked := none + [Look(t, 0, 0)] + [Look(t, 0, 0)];
    Extend(none, Look(t, 0, 0), ttl, max);
    Extend(none + [Look(t, 0, 0)], Look(t, 0, 0), ttl, max);
    Extend(looked, Answer(t, older), ttl, max);
    Extend(looked + [Answer(t, older)], Answer(t, newer), ttl, max);
    var answered := looked + [Answer(t, older)] + [Answer(t, newer)];
    assert answered[2] == Answer(t, older) && answered[3] == Answer(t, newer);
    Extend(answered, Store(t, newer, 0, None), ttl, max);
    var once := answered + [Store(t, newer, 0, None)];
    assert once[2] == Answer(t, older);
    var last := Store(t, older, 0, OnlyVictim(Key(t), max));
    var stored := Run(once, ttl, max).c.entries;
    assert stored == map[Key(t) := Entry(newer, ttl, 0)];
    assert |stored| == 1 && stored.Keys == {Key(t)};
    Extend(once, last, ttl, max);
    var trace := once + [last];
    assert trace == [Look(t, 0, 0), Look(t, 0, 0), Answer(t, older), Answer(t, newer), Store(t, newer, 0, None), last];
    assert AnswerFor(trace[3], t) && !AnswerFor(trace[4], t) && !AnswerFor(trace[5], t);
  }

  lemma Extend(before: seq<Event>, ev: Event, ttl: Time, max: nat)
    requires before == [] || IsRun(before, ttl, max)
    ensures Possible(before, ev, ttl, max) ==> IsRun(before + [ev], ttl, max)
    ensures Run(before + [ev], ttl, max) == Step(Run(before, ttl, max), ev, ttl, max)
    ensures before == [] ==> Run(before, ttl, max) == World(EMPTY, 0)
  {
    hide Sane, Key;
    RunSnoc(before, ev, ttl, max);
    if Possible(before, ev, ttl, max) { IsRunSnoc(before, ev, ttl, max); }
  }

  lemma RunSnoc(before: seq<Event>, ev: Event, ttl: Time, max: nat)
    ensures Run(before + [ev], ttl, max) == Step(Run(before, ttl, max), ev, ttl, max)
  {
    assert (before + [ev])[..|before|] == before;
  }

  /** When the n-th of a series of back-to-back lifetimes starts. */
  function Tick(n: nat, ttl: Time): Time {
    if n == 0 then 0 else Tick(n - 1, ttl) + ttl
  }

  /** One preview, asked for again whenever its entry has just expired. */
  function Refills(t: Target, th: TreeHandle, ttl: Time, n: nat): seq<Event> {
    if n == 0 then []
    else
      var now := Tick(n, ttl);
      Refills(t, th, ttl, n - 1) + [Look(t, now, now)] + [Answer(t, th)] + [Store(t, th, now, None)]
  }

  /** lruOrder is only ever emptied by a store that finds the cache full: one preview that keeps expiring
      in a cache with room for two makes it as long as one likes. */
  lemma {:induction false} OrderGrows(t: Target, th: TreeHandle, ttl: Time, max: nat, n: nat)
    requires Sane(t) && ttl > 0 && max > 1
    ensures
      var trace := Refills(t, th, ttl, n);
      (n > 0 ==> IsRun(trace, ttl, max)) && |Run(trace, ttl, max).c.lruOrder| == n &&
      Run(trace, ttl, max).c.entries.Keys <= {Key(t)} && Run(trace, ttl, max).clock == Tick(n, ttl)
  {
    hide Sane, Key, IsRun;
    if n > 0 {
      hide Run;
      var front, now := Refills(t, th, ttl, n - 1), Tick(n, ttl);
      OrderGrows(t, th, ttl, max, n - 1);
      assert n == 1 ==> front == [];
      Extend(front, Look(t, now, now), ttl, max);
      var looked := front + [Look(t, now, now)];
      Extend(looked, Answer(t, th), ttl, max);
      var answered := looked + [Answer(t, th)];
      assert answered[|looked|] == Answer(t, th);
      var entries := Run(answered, ttl, max).c.entries;
      assert entries.Keys <= {Key(t)};
      SubsetCard(entries.Keys, {Key(t)});
      Extend(answered, Store(t, th, now, None), ttl, max);
    }
  }

  ghost predicate AllWithin(bound: nat, ttl: Time, max: nat) {
    forall trace :: IsRun(trace, ttl, max) ==> |Run(trace, ttl, max).c.lruOrder| <= bound
  }

  /** With room for one, every store after the first finds the cache full. */
  lemma {:induction false} OrderOfOne(trace: seq<Event>, ttl: Time)
    requires IsRun(trace, ttl, 1)
    ensures
      var c := Run(trace, ttl, 1).c;
      |c.lruOrder| <= 5 && (c.entries == map[] ==> c.lruOrder == [])
    decreases |trace|
  {
    hide Sane, Key;
    if trace != [] {
      RunFront(trace, ttl, 1);
      OrderOfOne(trace[..|trace| - 1], ttl);
      var before, last := Run(trace[..|trace| - 1], ttl, 1).c, trace[|trace| - 1];
      var c := Run(trace, ttl, 1).c;
      assert |before.entries| < 1 ==> before.entries == map[];
      match last
      case Answer(_, _) =>
      case Look(t, now, again) => assert c.entries.Keys == before.entries.Keys;
      case Store(t, _, _, _) => assert Key(t) in c.entries;
    }
  }

  const SOME_PREVIEW := Target("site", "draft", true)

  lemma Unbounded(ttl: Time, max: nat, bound: nat)
    requires ttl > 0 && max > 1
    ensures !AllWithin(bound, ttl, max)
  {
    hide Run, IsRun, Sane, Handles.ValidateHandleLen;
    assert Sane(SOME_PREVIEW) by { SomePreviewIsSane(); }
    var th := TreeHandle("", "", 0);
    OrderGrows(SOME_PREVIEW, th, ttl, max, bound + 1);
    var trace := Refills(SOME_PREVIEW, th, ttl, bound + 1);
    assert IsRun(trace, ttl, max) && |Run(trace, ttl, max).c.lruOrder| > bound;
  }

  lemma SomePreviewIsSane()
    ensures Sane(SOME_PREVIEW)
  {
    assert Handles.WellFormed(SOME_PREVIEW.handle);
    Handles.AcceptedHandles(SOME_PREVIEW.handle, Handles.RESOLVER_MIN_LEN);
  }

  /** Exactly when the order list is bounded over all runs: when the cache has room for one entry only. */
  lemma OrderBoundedIff(ttl: Time, max: nat)
    requires ttl > 0 && max > 0
    ensures (exists bound: nat :: AllWithin(bound, ttl, max)) <==> max == 1
  {
    hide Run, IsRun;
    if max == 1 {
      forall trace | IsRun(trace, ttl, max) ensures |Run(trace, ttl, max).c.lruOrder| <= 5 { OrderOfOne(trace, ttl); }
      assert AllWithin(5, ttl, max);
    } else {
      forall bound: nat ensures !AllWithin(bound, ttl, max) { Unbounded(ttl, max, bound); }
    }
  }

  lemma IsRunSnoc(before: seq<Event>, ev: Event, ttl: Time, max: nat)
    requires IsRun(before, ttl, max) && Possible(before, ev, ttl, max)
    ensures IsRun(before + [ev], ttl, max)
  {
    var trace := before + [ev];
    forall k | 0 <= k < |trace| ensures Possible(trace[..k], trace[k], ttl, max) {
      assert trace[..k] == before[..k];
      assert before[..|before|] == before;
    }
  }

  // ---- the code ----

  /** What an undisturbed request to the cache does: serve the fresh entry, or pass the wrapped provider's
      word on and keep a tree for the next time. */
  ghost predicate Served(c: Cache, c': Cache, t: Target, inner: Outcome<TreeHandle, string>,
                         now: Time, again: Time, later: Time,
                         r: Outcome<TreeHandle, string>, victim: Option<string>, ttl: Time, max: nat)
  {
    var (touched, hit) := Looked(c, Key(t), now, again);
    if hit.Some? then r == Ok(hit.value) && c' == touched
    else if inner.Err? then r == inner && c' == c
    else r == inner && IsVictim(c, max, victim) && c' == Filled(c, Key(t), inner.value, later, victim, ttl, max)
  }

  class CachingTreeProvider {
    const ttl: Time
    const max: int
    var entries: map<string, Entry>
    var lruOrder: seq<string>

    ghost function C(): Cache
      reads this
    {
      Cache(entries, lruOrder)
    }

    /** Keys hold a NUL, so "" can stand for "no victim yet". */
    ghost predicate Valid()
      reads this
    {
      "" !in entries && (max > 0 ==> |entries| <= max)
    }

    constructor (ttl: Time, max: int)
      ensures Valid() && C() == EMPTY && this.ttl == ttl && this.max == max
    {
      this.ttl, this.max, entries, lruOrder := ttl, max, map[], [];
    }

    method Lookup(key: string, now: Time, again: Time) returns (r: Option<TreeHandle>)
      requires Valid()
      modifies this`entries
      ensures Valid() && (C(), r) == Looked(old(C()), key, now, again)
    {
      r := None;
      if key in entries && now < entries[key].expires {
        var e := entries[key];
        entries := entries[key := e.(lastUsed := again)];
        assert entries.Keys == old(entries.Keys);
        r := Some(e.th);
      }
    }

    /** The range loop of evictIfNeededLocked: an entry that no other was used before. */
    method LeastRecent() returns (victimKey: string)
      requires Valid() && entries != map[]
      ensures victimKey in entries
      ensures forall k :: k in entries ==> entries[victimKey].lastUsed <= entries[k].lastUsed
    {
      victimKey := "";
      var victimTime := 0;
      var todo := entries.Keys;
      while todo != {}
        invariant todo <= entries.Keys
        invariant victimKey == "" ==> todo == entries.Keys
        invariant victimKey != "" ==> victimKey in entries && victimTime == entries[victimKey].lastUsed
        invariant forall k :: k in entries && k !in todo ==> victimTime <= entries[k].lastUsed
        decreases |todo|
      {
        var k :| k in todo;
        if victimKey == "" || entries[k].lastUsed < victimTime {
          victimKey, victimTime := k, entries[k].lastUsed;
        }
        todo := todo - {k};
      }
      assert entries.Keys != {};
    }

    method EvictIfNeeded() returns (ghost victim: Option<string>)
      requires Valid() && max > 0
      modifies this
      ensures IsVictim(old(C()), max, victim)
      ensures entries == Without(old(entries), victim)
      ensures lruOrder == if |old(entries)| >= max && |old(lruOrder)| > 4 * max then [] else old(lruOrder)
    {
      if |entries| < max {
        return None;
      }
      var victimKey := LeastRecent();
      victim := Some(victimKey);
      entries := entries - {victimKey};
      if |lruOrder| > 4 * max {
        lruOrder := [];
      }
    }

    method Fill(key: string, th: TreeHandle, now: Time) returns (ghost victim: Option<string>)
      requires Valid() && max > 0 && key != ""
      modifies this
      ensures Valid() && IsVictim(old(C()), max, victim)
      ensures C() == Filled(old(C()), key, th, now, victim, ttl, max)
    {
      victim := EvictIfNeeded();
      entries := entries[key := Entry(th, now + ttl, now)];
      lruOrder := lruOrder + [key];
      FilledSize(old(C()), key, th, now, victim, ttl, max);
    }

    /** One request with nothing in between. `inner` is what the wrapped provider would say: published
        targets, errors and a disabled cache pass it through and leave the entries as they were. */
    method Tree(t: Target, inner: Outcome<TreeHandle, string>, now: Time, again: Time, later: Time)
      returns (r: Outcome<TreeHandle, string>, ghost victim: Option<string>)
      requires Valid()
      modifies this
      ensures Valid()
      ensures !t.isPreview || ttl <= 0 || max <= 0 ==> r == inner && C() == old(C())
      ensures t.isPreview && ttl > 0 && max > 0 ==>
        Served(old(C()), C(), t, inner, now, again, later, r, victim, ttl, max)
    {
      victim := None;
      if !t.isPreview || ttl <= 0 || max <= 0 {
        return inner, None;
      }
      var hit := Lookup(Key(t), now, again);
      if hit.Some? {
        return Ok(hit.value), None;
      }
      if inner.Err? {
        return inner, None;
      }
      victim := Fill(Key(t), inner.value, later);
      r := inner;
    }
  }
}
