/**
 The login lockout: consecutive failures per source, exponential backoff, idle eviction.
 Times and delays are nanosecond counts; the clock never goes back.
 backend/internal/auth/lockout.go, backend/internal/auth/handlers.go
 */
module Lockout {
  import opened Prelude

  datatype Params = Params(threshold: nat, base: int, max: int, ttl: int)

  const SECOND: int := 1_000_000_000

  /** The package defaults: 5 failures, 1s doubling up to 15m, entries kept 30m. */
  const DEFAULTS := Params(5, SECOND, 900 * SECOND, 1800 * SECOND)

  predicate Proper(p: Params) {
    p.threshold >= 1 && 0 < p.base <= p.max && p.ttl > 0
  }

  /** lockedUntil is absent until a lockout has been armed (the zero time). */
  datatype Entry = Entry(failures: nat, lockedUntil: Option<int>, lastSeen: int)

  type Entries = map<string, Entry>

  datatype State = State(entries: Entries, lastSweep: int)

  // ---- the backoff ----

  function Pow2(n: nat): (r: int)
    ensures r >= 1
  {
    if n == 0 then 1 else 2 * Pow2(n - 1)
  }

  /** The lockout armed by the `failures`-th consecutive failure: base * 2^(failures - threshold), at most max. */
  function Delay(p: Params, failures: nat): int {
    if failures < p.threshold then 0 else Min(p.max, p.base * Pow2(failures - p.threshold))
  }

  lemma Twice(base: int, x: int)
    ensures base * (2 * x) == 2 * (base * x)
  {}

  lemma {:induction false} DoubleMore(base: int, i: nat, j: nat)
    requires base > 0 && i <= j
    ensures 0 < base * Pow2(i) <= base * Pow2(j)
    decreases j - i
  {
    if i < j {
      var less, more := base * Pow2(j - 1), base * Pow2(j);
      DoubleMore(base, i, j - 1);
      assert more == 2 * less by { Twice(base, Pow2(j - 1)); }
      assert less >= base * Pow2(i) > 0;
    }
  }

  /** With the defaults: nothing up to the fourth failure, a second for the fifth, doubled each time, and a
      quarter of an hour from the fifteenth on. */
  lemma DefaultDelays(failures: nat)
    ensures Proper(DEFAULTS)
    ensures Delay(DEFAULTS, failures) ==
      if failures < 5 then 0 else if failures < 15 then Pow2(failures - 5) * SECOND else 900 * SECOND
    ensures Pow2(9) == 512
  {
    assert Pow2(3) == 8 && Pow2(6) == 64 && Pow2(9) == 512 && Pow2(10) == 1024;
    if failures >= 15 {
      DoubleMore(SECOND, 10, failures - 5);
    } else if failures >= 5 {
      DoubleMore(SECOND, failures - 5, 9);
    }
  }

  /** The doubling loop of recordFailure: it ends with the closed form, and never goes past 2 * max. */
  method ComputeDelay(p: Params, failures: nat) returns (delay: int)
    requires Proper(p) && failures >= p.threshold
    ensures delay == Delay(p, failures)
  {
    var exp := failures - p.threshold;
    delay := p.base;
    var i := 0;
    while i < exp && delay < p.max
      invariant 0 <= i <= exp
      invariant delay == p.base * Pow2(i)
      invariant 0 < delay < 2 * p.max
    {
      assert p.base * Pow2(i + 1) == 2 * (p.base * Pow2(i));
      delay := delay * 2;
      i := i + 1;
    }
    DoubleMore(p.base, i, exp);
    if delay > p.max {
      delay := p.max;
    }
  }

  // ---- the tracker as a state machine ----

  predicate LockedAt(e: Option<Entry>, now: int) {
    e.Some? && e.value.lockedUntil.Some? && now < e.value.lockedUntil.value
  }

  /** Entries idle past the ttl go, unless they are still locked. */
  function Swept(p: Params, st: State, now: int): State {
    if now - st.lastSweep < p.ttl then st
    else
      State(map k | k in st.entries && (now - st.entries[k].lastSeen < p.ttl || LockedAt(Some(st.entries[k]), now))
              :: st.entries[k], now)
  }

  datatype Event =
    | Check(key: string, now: int)
    | Fail(key: string, now: int)
    | Success(key: string, now: int)

  /** `locked`, on the entries: the time left, 0 if not locked. A look counts as activity. */
  function CheckEntry(es: Entries, key: string, now: int): (Entries, int) {
    if key !in es then (es, 0)
    else
      var e := es[key];
      (es[key := e.(lastSeen := now)], if LockedAt(Some(e), now) then e.lockedUntil.value - now else 0)
  }

  /** `recordFailure`, on the entries: one failure more, and the lockout it arms. */
  function FailEntry(p: Params, es: Entries, key: string, now: int): (Entries, int) {
    var e := if key in es then es[key] else Entry(0, None, now);
    var d := Delay(p, e.failures + 1);
    var until := if e.failures + 1 < p.threshold then e.lockedUntil else Some(now + d);
    (es[key := Entry(e.failures + 1, until, now)], d)
  }

  /** What an event does to the entries, with no sweeping at all. */
  function Forever(p: Params, es: Entries, ev: Event): (Entries, int) {
    if ev.key == "" then (es, 0)
    else match ev
      case Check(k, now) => CheckEntry(es, k, now)
      case Fail(k, now) => FailEntry(p, es, k, now)
      case Success(k, now) => (es - {k}, 0)
  }

  /** The same with the throttled sweep in front of every clock reading. */
  function Step(p: Params, st: State, ev: Event): (State, int) {
    if ev.key == "" then (st, 0)
    else
      var st' := if ev.Success? then st else Swept(p, st, ev.now);
      var (es, reply) := Forever(p, st'.entries, ev);
      (State(es, st'.lastSweep), reply)
  }

  function Replies(p: Params, st: State, events: seq<Event>): (r: seq<int>)
    ensures |r| == |events|
    decreases |events|
  {
    if events == [] then []
    else
      var (st', reply) := Step(p, st, events[0]);
      [reply] + Replies(p, st', events[1..])
  }

  predicate InOrder(t: int, events: seq<Event>)
    decreases |events|
  {
    events == [] || (t <= events[0].now && InOrder(events[0].now, events[1..]))
  }

  // ---- sweeping ----

  /** A sweep changes no lockout answer, now or at any later time. */
  lemma SweepInvisible(p: Params, st: State, now: int, key: string, t: int)
    requires now <= t
    ensures LockedAt(Lookup(Swept(p, st, now).entries, key), t) == LockedAt(Lookup(st.entries, key), t)
  {}

  /** An entry only ever goes after a full ttl of silence, and then unlocked. */
  lemma EvictionNeedsSilence(p: Params, st: State, now: int, key: string)
    requires key in st.entries && key !in Swept(p, st, now).entries
    ensures now - st.entries[key].lastSeen >= p.ttl && !LockedAt(Some(st.entries[key]), now)
  {}

  /** At every time from `t` on, both states give every source the same lockout answer. */
  ghost predicate SameLocks(st: State, st': State, t: int) {
    forall key :: TimeLeft(Lookup(st.entries, key), t) == TimeLeft(Lookup(st'.entries, key), t)
  }

  function TimeLeft(e: Option<Entry>, now: int): int {
    if LockedAt(e, now) then e.value.lockedUntil.value - now else 0
  }

  lemma SweepSameLocks(p: Params, st: State, st': State, now: int, t: int)
    requires SameLocks(st, st', now) && now <= t
    ensures SameLocks(Swept(p, st, t), Swept(p, st', t), t)
  {
    forall key
      ensures TimeLeft(Lookup(Swept(p, st, t).entries, key), t) == TimeLeft(Lookup(Swept(p, st', t).entries, key), t)
    {
      assert TimeLeft(Lookup(st.entries, key), now) == TimeLeft(Lookup(st'.entries, key), now);
      SweepInvisible(p, st, t, key, t);
      SweepInvisible(p, st', t, key, t);
    }
  }

  lemma CheckSameLocks(st: State, st': State, key: string, now: int)
    requires SameLocks(st, st', now)
    ensures CheckEntry(st.entries, key, now).1 == CheckEntry(st'.entries, key, now).1
    ensures
      var es, es' := CheckEntry(st.entries, key, now).0, CheckEntry(st'.entries, key, now).0;
      SameLocks(st.(entries := es), st'.(entries := es'), now)
  {
    forall k
      ensures TimeLeft(Lookup(CheckEntry(st.entries, key, now).0, k), now) == TimeLeft(Lookup(st.entries, k), now)
      ensures TimeLeft(Lookup(CheckEntry(st'.entries, key, now).0, k), now) == TimeLeft(Lookup(st'.entries, k), now)
      ensures TimeLeft(Lookup(st.entries, k), now) == TimeLeft(Lookup(st'.entries, k), now)
    {}
    assert CheckEntry(st.entries, key, now).1 == TimeLeft(Lookup(st.entries, key), now);
    assert CheckEntry(st'.entries, key, now).1 == TimeLeft(Lookup(st'.entries, key), now);
  }

  lemma SuccessSameLocks(st: State, st': State, key: string, t: int, now: int)
    requires SameLocks(st, st', t) && t <= now
    ensures SameLocks(st.(entries := st.entries - {key}), st'.(entries := st'.entries - {key}), now)
  {
    forall k ensures TimeLeft(Lookup(st.entries - {key}, k), now) == TimeLeft(Lookup(st'.entries - {key}, k), now) {
      assert TimeLeft(Lookup(st.entries, k), t) == TimeLeft(Lookup(st'.entries, k), t);
    }
  }

  lemma SameLocksLater(st: State, st': State, t: int, now: int)
    requires SameLocks(st, st', t) && t <= now
    ensures SameLocks(st, st', now)
  {
    forall k ensures TimeLeft(Lookup(st.entries, k), now) == TimeLeft(Lookup(st'.entries, k), now) {
      assert TimeLeft(Lookup(st.entries, k), t) == TimeLeft(Lookup(st'.entries, k), t);
    }
  }

  lemma StepSameLocks(p: Params, st: State, st': State, t: int, ev: Event)
    requires SameLocks(st, st', t) && t <= ev.now && !ev.Fail?
    ensures Step(p, st, ev).1 == Step(p, st', ev).1
    ensures SameLocks(Step(p, st, ev).0, Step(p, st', ev).0, ev.now)
  {
    hide SameLocks, Swept, CheckEntry;
    if ev.key == "" {
      SameLocksLater(st, st', t, ev.now);
    } else if ev.Check? {
      SweepSameLocks(p, st, st', t, ev.now);
      CheckSameLocks(Swept(p, st, ev.now), Swept(p, st', ev.now), ev.key, ev.now);
    } else {
      SuccessSameLocks(st, st', ev.key, t, ev.now);
    }
  }

  lemma {:induction false} SameLocksSameReplies(p: Params, st: State, st': State, t: int, events: seq<Event>)
    requires SameLocks(st, st', t) && InOrder(t, events)
    requires forall i :: 0 <= i < |events| ==> !events[i].Fail?
    ensures Replies(p, st, events) == Replies(p, st', events)
    decreases |events|
  {
    if events != [] {
      StepSameLocks(p, st, st', t, events[0]);
      SameLocksSameReplies(p, Step(p, st, events[0]).0, Step(p, st', events[0]).0, events[0].now, events[1..]);
    }
  }

  /** A sweep changes no answer until somebody fails again, whatever else is asked meanwhile. */
  lemma SweepInvisibleInRuns(p: Params, st: State, now: int, events: seq<Event>)
    requires InOrder(now, events) && forall i :: 0 <= i < |events| ==> !events[i].Fail?
    ensures Replies(p, Swept(p, st, now), events) == Replies(p, st, events)
  {
    forall key ensures TimeLeft(Lookup(Swept(p, st, now).entries, key), now) == TimeLeft(Lookup(st.entries, key), now) {
      SweepInvisible(p, st, now, key, now);
    }
    SameLocksSameReplies(p, Swept(p, st, now), st, now, events);
  }

  // ---- one source's failures over a run ----

  /** The source never succeeds, and is not evicted between two of its attempts; `known` says that the
      tracker has an entry for it, or had one. */
  predicate Remembered(p: Params, st: State, key: string, events: seq<Event>, known: bool)
    decreases |events|
  {
    if events == [] then true
    else
      var ev := events[0];
      var st' := Step(p, st, ev).0;
      if ev.key != key then Remembered(p, st', key, events[1..], known)
      else
        !ev.Success? && (known ==> key in Swept(p, st, ev.now).entries) &&
        Remembered(p, st', key, events[1..], known || ev.Fail?)
  }

  /** The source never succeeds, and is never silent for a whole ttl between two of its attempts. */
  predicate Persistent(p: Params, key: string, events: seq<Event>, last: Option<int>)
    decreases |events|
  {
    if events == [] then true
    else
      var ev := events[0];
      if ev.key != key then Persistent(p, key, events[1..], last)
      else
        !ev.Success? && (last.Some? ==> ev.now - last.value < p.ttl) && Persistent(p, key, events[1..], Some(ev.now))
  }

  /** What is known of the last attempt: its entry says so, unless a sweep has dropped it after a ttl. */
  ghost predicate Dates(p: Params, st: State, key: string, last: Option<int>, t: int, known: bool) {
    (key in st.entries ==> known && last == Some(st.entries[key].lastSeen)) &&
    (known && key !in st.entries ==> last.Some? && t - last.value >= p.ttl)
  }

  lemma StepDates(p: Params, st: State, key: string, last: Option<int>, t: int, known: bool, ev: Event)
    requires key != "" && Dates(p, st, key, last, t, known) && t <= ev.now
    requires ev.key == key ==> !ev.Success? && (last.Some? ==> ev.now - last.value < p.ttl)
    ensures ev.key != key ==> Dates(p, Step(p, st, ev).0, key, last, ev.now, known)
    ensures ev.key == key ==>
      (known ==> key in Swept(p, st, ev.now).entries) &&
      Dates(p, Step(p, st, ev).0, key, Some(ev.now), ev.now, known || ev.Fail?)
  {}

  /** No source is evicted that keeps trying at least once in a ttl. */
  lemma {:induction false} PersistentIsRemembered(p: Params, st: State, key: string, events: seq<Event>,
                                                  last: Option<int>, t: int, known: bool)
    requires key != "" && InOrder(t, events) && Persistent(p, key, events, last) && Dates(p, st, key, last, t, known)
    ensures Remembered(p, st, key, events, known)
    decreases |events|
  {
    hide Step, Dates, Swept;
    if events != [] {
      var ev := events[0];
      StepDates(p, st, key, last, t, known, ev);
      var own := ev.key == key;
      PersistentIsRemembered(p, Step(p, st, ev).0, key, events[1..], if own then Some(ev.now) else last, ev.now,
                             known || (own && ev.Fail?));
    }
  }

  /** Attempts run one at a time: each failure follows a look that found the source unlocked. */
  predicate OneAtATime(key: string, events: seq<Event>, replies: seq<int>, admitted: bool)
    requires |replies| == |events|
    decreases |events|
  {
    if events == [] then true
    else
      var ev, rest, rest' := events[0], events[1..], replies[1..];
      if ev.key != key then OneAtATime(key, rest, rest', admitted)
      else if ev.Check? then OneAtATime(key, rest, rest', replies[0] == 0)
      else admitted && OneAtATime(key, rest, rest', false)
  }

  /** When the source failed, in order. */
  function FailTimes(key: string, events: seq<Event>): seq<int>
    decreases |events|
  {
    if events == [] then []
    else (if events[0] == Fail(key, events[0].now) then [events[0].now] else []) + FailTimes(key, events[1..])
  }

  /** Delay(f+1) + ... + Delay(f+n): what n failures after the f-th arm between them. */
  function Backoff(p: Params, f: nat, n: nat): int
    decreases n
  {
    if n == 0 then 0 else Delay(p, f + 1) + Backoff(p, f + 1, n - 1)
  }

  /** The lockouts the source's failures were answered with, added up. */
  function Armed(key: string, events: seq<Event>, replies: seq<int>): int
    requires |replies| == |events|
    decreases |events|
  {
    if events == [] then 0
    else (if events[0] == Fail(key, events[0].now) then replies[0] else 0) + Armed(key, events[1..], replies[1..])
  }

  /** At time `t` the tracker has counted `f` failures of `key`, or has forgotten it altogether. */
  ghost predicate Tracks(st: State, key: string, t: int, admitted: bool, f: nat, known: bool) {
    if key in st.entries then
      known && st.entries[key].failures == f && (admitted ==> !LockedAt(Some(st.entries[key]), t))
    else known || f == 0
  }

  /** From `t` on, but not before the lockout ends. */
  function UntilOf(st: State, key: string, t: int): int {
    if key in st.entries && LockedAt(Some(st.entries[key]), t) then st.entries[key].lockedUntil.value else t
  }

  lemma SweepTracks(p: Params, st: State, key: string, t: int, admitted: bool, f: nat, known: bool, now: int)
    requires Tracks(st, key, t, admitted, f, known) && t <= now
    ensures Tracks(Swept(p, st, now), key, now, admitted, f, known)
    ensures UntilOf(Swept(p, st, now), key, now) >= UntilOf(st, key, t)
  {}

  /** Another source's event. */
  lemma OtherTracks(p: Params, st: State, key: string, t: int, admitted: bool, f: nat, known: bool, ev: Event)
    requires Tracks(st, key, t, admitted, f, known) && t <= ev.now && ev.key != key
    ensures Tracks(Step(p, st, ev).0, key, ev.now, admitted, f, known)
    ensures UntilOf(Step(p, st, ev).0, key, ev.now) >= UntilOf(st, key, t)
  {
    SweepTracks(p, st, key, t, admitted, f, known, ev.now);
  }

  /** A look by the source itself. */
  lemma CheckTracks(p: Params, st: State, key: string, t: int, admitted: bool, f: nat, known: bool, now: int)
    requires key != "" && Tracks(st, key, t, admitted, f, known) && t <= now
    requires known ==> key in Swept(p, st, now).entries
    ensures
      var (st', reply) := Step(p, st, Check(key, now));
      Tracks(st', key, now, reply == 0, f, known) && UntilOf(st', key, now) >= UntilOf(st, key, t)
  {
    SweepTracks(p, st, key, t, admitted, f, known, now);
  }

  /** An admitted failure: the tracker remembers all f failures before it, so it arms Delay(f + 1). */
  lemma FailTracks(p: Params, st: State, key: string, t: int, f: nat, known: bool, now: int)
    requires Proper(p) && key != "" && Tracks(st, key, t, true, f, known) && t <= now
    requires known ==> key in Swept(p, st, now).entries
    ensures UntilOf(st, key, t) == t
    ensures
      var (st', reply) := Step(p, st, Fail(key, now));
      reply == Delay(p, f + 1) && Tracks(st', key, now, false, f + 1, true) && UntilOf(st', key, now) >= now + reply
  {
    SweepTracks(p, st, key, t, true, f, known, now);
  }

  /** Attempts one at a time, from any point of a run on. */
  lemma {:induction false} SpanFrom(p: Params, st: State, events: seq<Event>, key: string, t: int,
                                    admitted: bool, f: nat, known: bool)
    requires Proper(p) && key != "" && InOrder(t, events) && Remembered(p, st, key, events, known)
    requires OneAtATime(key, events, Replies(p, st, events), admitted)
    requires Tracks(st, key, t, admitted, f, known)
    ensures
      var times := FailTimes(key, events);
      Armed(key, events, Replies(p, st, events)) == Backoff(p, f, |times|) &&
      (|times| > 0 ==>
        times[|times| - 1] >= UntilOf(st, key, t) + Backoff(p, f, |times| - 1) &&
        times[|times| - 1] - times[0] >= Backoff(p, f, |times| - 1))
    decreases |events|
  {
    hide Step, Delay, Tracks, UntilOf, Swept;
    if events != [] {
      var ev := events[0];
      var (st', reply) := Step(p, st, ev);
      assert Replies(p, st, events)[1..] == Replies(p, st', events[1..]);
      if ev.key != key {
        OtherTracks(p, st, key, t, admitted, f, known, ev);
        SpanFrom(p, st', events[1..], key, ev.now, admitted, f, known);
      } else if ev.Check? {
        CheckTracks(p, st, key, t, admitted, f, known, ev.now);
        SpanFrom(p, st', events[1..], key, ev.now, reply == 0, f, known);
      } else {
        FailTracks(p, st, key, t, f, known, ev.now);
        SpanFrom(p, st', events[1..], key, ev.now, false, f + 1, true);
        assert FailTimes(key, events) == [ev.now] + FailTimes(key, events[1..]);
      }
    }
  }

  /** How many consecutive failures the tracker holds against a source. */
  function FailuresOf(st: State, key: string): nat {
    if key in st.entries then st.entries[key].failures else 0
  }

  /** From any state of the tracker, in any traffic: while a source attempts one at a time, without a success
      and without being evicted between two attempts, its next n failures arm exactly the next n delays of the
      backoff, and end no earlier than the running lockout plus the first n - 1 of them. */
  lemma FailuresTakeTime(p: Params, st: State, events: seq<Event>, key: string, t: int)
    requires Proper(p) && key != "" && InOrder(t, events) && Remembered(p, st, key, events, key in st.entries)
    requires OneAtATime(key, events, Replies(p, st, events), false)
    ensures
      var times, f := FailTimes(key, events), FailuresOf(st, key);
      Armed(key, events, Replies(p, st, events)) == Backoff(p, f, |times|) &&
      (|times| > 0 ==>
        times[|times| - 1] >= UntilOf(st, key, t) + Backoff(p, f, |times| - 1) &&
        times[|times| - 1] - times[0] >= Backoff(p, f, |times| - 1))
  {
    SpanFrom(p, st, events, key, t, false, FailuresOf(st, key), key in st.entries);
  }

  // ---- success, and the locked time ----

  /** A success forgets its source and nobody else. */
  lemma SuccessForgets(p: Params, st: State, key: string, now: int, t: int, other: string)
    requires key != ""
    ensures
      var st' := Step(p, st, Success(key, now)).0;
      key !in st'.entries && FailuresOf(st', key) == 0 && TimeLeft(Lookup(st'.entries, key), t) == 0 &&
      (other != key ==> Lookup(st'.entries, other) == Lookup(st.entries, other))
  {}

  lemma {:induction false} FreeFailures(p: Params, f: nat, n: nat)
    requires f + n < p.threshold
    ensures Backoff(p, f, n) == 0
    decreases n
  {
    if n > 0 { FreeFailures(p, f + 1, n - 1); }
  }

  /** After a success the source starts over, in any traffic: while it attempts one at a time and is not
      evicted between two attempts, its next n failures arm the first n delays of the backoff -- none at all
      below the threshold. */
  lemma SuccessStartsOver(p: Params, st: State, events: seq<Event>, key: string, now: int)
    requires Proper(p) && key != "" && InOrder(now, events)
    requires
      var st' := Step(p, st, Success(key, now)).0;
      Remembered(p, st', key, events, false) && OneAtATime(key, events, Replies(p, st', events), false)
    ensures
      var n, replies := |FailTimes(key, events)|, Replies(p, Step(p, st, Success(key, now)).0, events);
      Armed(key, events, replies) == Backoff(p, 0, n) && (n < p.threshold ==> Armed(key, events, replies) == 0)
  {
    SuccessForgets(p, st, key, now, now, "");
    var st' := Step(p, st, Success(key, now)).0;
    FailuresTakeTime(p, st', events, key, now);
    var n := |FailTimes(key, events)|;
    if n < p.threshold { FreeFailures(p, 0, n); }
  }

  /** A failure that was answered with a delay locks its source for exactly that long: a look says how much of
      it is left. */
  lemma LockedForDelay(p: Params, st: State, key: string, now: int, t: int)
    requires Proper(p) && key != "" && now <= t
    ensures
      var (st', delay) := Step(p, st, Fail(key, now));
      delay > 0 ==> Step(p, st', Check(key, t)).1 == if t < now + delay then now + delay - t else 0
  {
    var (st', delay) := Step(p, st, Fail(key, now));
    SweepInvisible(p, st', t, key, t);
  }

  /** Nobody is locked out before the threshold, and a request without a source never is. */
  lemma BelowThresholdIsFree(p: Params, st: State, key: string, now: int)
    ensures key != "" && FailuresOf(st, key) + 1 < p.threshold ==> Step(p, st, Fail(key, now)).1 == 0
    ensures Step(p, st, Fail("", now)) == (st, 0) && Step(p, st, Check("", now)) == (st, 0)
  {}

  /** A sweep that is due leaves exactly the entries that were seen within a ttl or are still locked. */
  lemma SweepDropsIdle(p: Params, st: State, now: int, key: string)
    requires now - st.lastSweep >= p.ttl
    ensures key in Swept(p, st, now).entries <==>
      key in st.entries && (now - st.entries[key].lastSeen < p.ttl || TimeLeft(Lookup(st.entries, key), now) > 0)
    ensures Swept(p, st, now).lastSweep == now
  {}

  class LoginLockout {
    const p: Params
    var entries: Entries
    var lastSweep: int

    ghost function St(): State
      reads this
    {
      State(entries, lastSweep)
    }

    constructor (p: Params, now: int)
      ensures this.p == p && St() == State(map[], now)
    {
      this.p := p;
      entries, lastSweep := map[], now;
    }

    method MaybeSweep(now: int)
      modifies this
      ensures St() == Swept(p, old(St()), now)
    {
      if now - lastSweep < p.ttl {
        return;
      }
      var todo := entries.Keys;
      ghost var before := entries;
      while todo != {}
        invariant todo <= before.Keys
        invariant forall k :: k in entries <==>
          k in before && (k in todo || now - before[k].lastSeen < p.ttl || LockedAt(Some(before[k]), now))
        invariant forall k :: k in entries ==> entries[k] == before[k]
        decreases todo
      {
        var k :| k in todo;
        todo := todo - {k};
        var e := entries[k];
        if now - e.lastSeen >= p.ttl && !(e.lockedUntil.Some? && now < e.lockedUntil.value) {
          entries := entries - {k};
        }
      }
      lastSweep := now;
    }

    method Locked(key: string, now: int) returns (isLocked: bool, retryAfter: int)
      modifies this
      ensures (St(), retryAfter) == Step(p, old(St()), Check(key, now))
      ensures isLocked <==> retryAfter > 0
    {
      if key == "" {
        return false, 0;
      }
      MaybeSweep(now);
      if key !in entries {
        return false, 0;
      }
      var e := entries[key];
      entries := entries[key := e.(lastSeen := now)];
      if e.lockedUntil.Some? && now < e.lockedUntil.value {
        return true, e.lockedUntil.value - now;
      }
      return false, 0;
    }

    method RecordFailure(key: string, now: int) returns (delay: int)
      requires Proper(p)
      modifies this
      ensures (St(), delay) == Step(p, old(St()), Fail(key, now))
    {
      if key == "" {
        return 0;
      }
      MaybeSweep(now);
      ghost var swept := entries;
      if key !in entries {
        entries := entries[key := Entry(0, None, now)];
      }
      var e := entries[key];
      e := e.(failures := e.failures + 1);
      e := e.(lastSeen := now);
      entries := entries[key := e];
      if e.failures < p.threshold {
        assert entries == swept[key := e];
        return 0;
      }
      delay := ComputeDelay(p, e.failures);
      e := e.(lockedUntil := Some(now + delay));
      entries := entries[key := e];
      assert entries == swept[key := e];
    }

    method RecordSuccess(key: string, now: int)
      modifies this
      ensures St() == Step(p, old(St()), Success(key, now)).0
      ensures key != "" ==> entries == old(entries) - {key} && lastSweep == old(lastSweep)
      ensures key == "" ==> entries == old(entries) && lastSweep == old(lastSweep)
    {
      if key == "" {
        return;
      }
      entries := entries - {key};
    }
  }
}
