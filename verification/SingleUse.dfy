/**
 The server-side single-use guard: a map from key to expiry with a throttled sweep and
 a hard cap, against the plain history of what was ever accepted.
 backend/internal/auth/singleuse.go
 */
module SingleUse {
  import opened Prelude

  datatype Params = Params(maxEntries: nat, sweepInterval: int)

  datatype State = State(entries: map<string, int>, lastSweep: int)

  datatype Call = Call(key: string, ttl: int, now: int)

  /** evictExpiredLocked */
  function Unexpired(entries: map<string, int>, now: int): map<string, int> {
    map k | k in entries && now < entries[k] :: entries[k]
  }

  function Swept(p: Params, st: State, now: int): State {
    if now - st.lastSweep < p.sweepInterval then st else State(Unexpired(st.entries, now), now)
  }

  /** Consume: a live key is a replay; a full store is emptied of expired entries before it refuses. */
  function ConsumeStep(p: Params, st: State, c: Call): (State, bool) {
    var st1 := Swept(p, st, c.now);
    if c.key in st1.entries && c.now < st1.entries[c.key] then (st1, false)
    else
      var es := if |st1.entries| >= p.maxEntries then Unexpired(st1.entries, c.now) else st1.entries;
      if |es| >= p.maxEntries then (State(es, st1.lastSweep), false)
      else (State(es[c.key := c.now + c.ttl], st1.lastSweep), true)
  }

  function Verdicts(p: Params, st: State, calls: seq<Call>): (r: seq<bool>)
    ensures |r| == |calls|
    decreases |calls|
  {
    if calls == [] then []
    else
      var (st', ok) := ConsumeStep(p, st, calls[0]);
      [ok] + Verdicts(p, st', calls[1..])
  }

  predicate InOrder(t: int, calls: seq<Call>)
    decreases |calls|
  {
    calls == [] || (t <= calls[0].now && InOrder(calls[0].now, calls[1..]))
  }

  // ---- the guard as it is meant: nothing but the history of accepted calls ----

  datatype Use = Use(key: string, expiry: int)

  function Live(uses: seq<Use>, now: int): set<string> {
    set u | u in uses && now < u.expiry :: u.key
  }

  function Accepts(p: Params, uses: seq<Use>, c: Call): bool {
    c.key !in Live(uses, c.now) && |Live(uses, c.now)| < p.maxEntries
  }

  function Remember(p: Params, uses: seq<Use>, c: Call): seq<Use> {
    if Accepts(p, uses, c) then uses + [Use(c.key, c.now + c.ttl)] else uses
  }

  function Ideal(p: Params, uses: seq<Use>, calls: seq<Call>): (r: seq<bool>)
    ensures |r| == |calls|
    decreases |calls|
  {
    if calls == [] then [] else [Accepts(p, uses, calls[0])] + Ideal(p, Remember(p, uses, calls[0]), calls[1..])
  }

  // ---- the store never answers otherwise ----

  /** From `now` on, the entries that still count are exactly the uses that still count. */
  ghost predicate Represents(p: Params, entries: map<string, int>, uses: seq<Use>, now: int) {
    |entries| <= p.maxEntries &&
    (forall k :: k in entries && now < entries[k] ==> Use(k, entries[k]) in uses) &&
    (forall u :: u in uses && now < u.expiry ==> u.key in entries && entries[u.key] == u.expiry)
  }

  lemma FewerKeys(a: map<string, int>, b: map<string, int>)
    requires a.Keys <= b.Keys
    ensures |a| <= |b|
  {
    SubsetCard(a.Keys, b.Keys);
  }

  lemma EvictRepresents(p: Params, entries: map<string, int>, uses: seq<Use>, now: int)
    requires Represents(p, entries, uses, now)
    ensures Represents(p, Unexpired(entries, now), uses, now)
    ensures Unexpired(entries, now).Keys == Live(uses, now)
  {
    FewerKeys(Unexpired(entries, now), entries);
    forall k ensures k in Unexpired(entries, now) <==> k in Live(uses, now) {
      if k in Unexpired(entries, now) { assert Use(k, entries[k]) in uses; }
    }
  }

  lemma RepresentsLater(p: Params, entries: map<string, int>, uses: seq<Use>, s: int, t: int)
    requires Represents(p, entries, uses, s) && s <= t
    ensures Represents(p, entries, uses, t)
  {}

  /** The verdict depends only on which entries are unexpired. */
  lemma VerdictAgrees(p: Params, st: State, uses: seq<Use>, c: Call)
    requires Unexpired(st.entries, c.now).Keys == Live(uses, c.now)
    requires Unexpired(Swept(p, st, c.now).entries, c.now).Keys == Live(uses, c.now)
    ensures ConsumeStep(p, st, c).1 == Accepts(p, uses, c)
  {
    hide Live;
    var st1 := Swept(p, st, c.now);
    var kept := Unexpired(st1.entries, c.now);
    assert c.key in kept <==> c.key in Live(uses, c.now);
    assert |kept| == |kept.Keys|;
    FewerKeys(kept, st1.entries);
  }

  /** One call: same verdict as the history gives, and the cap is kept. */
  lemma StepAgrees(p: Params, st: State, uses: seq<Use>, c: Call)
    requires Represents(p, st.entries, uses, c.now)
    ensures ConsumeStep(p, st, c).1 == Accepts(p, uses, c)
    ensures Represents(p, ConsumeStep(p, st, c).0.entries, Remember(p, uses, c), c.now)
  {
    hide Represents, Live, Unexpired;
    EvictRepresents(p, st.entries, uses, c.now);
    var st1 := Swept(p, st, c.now);
    EvictRepresents(p, st1.entries, uses, c.now);
    VerdictAgrees(p, st, uses, c);
    if ConsumeStep(p, st, c).1 {
      var es := if |st1.entries| >= p.maxEntries then Unexpired(st1.entries, c.now) else st1.entries;
      AddKey(es, c.key, c.now + c.ttl);
      AcceptRepresents(p, es, uses, c);
    }
  }

  lemma AddKey(es: map<string, int>, k: string, v: int)
    ensures |es[k := v]| <= |es| + 1
  {
    assert es[k := v].Keys == es.Keys + {k};
  }

  lemma AcceptRepresents(p: Params, es: map<string, int>, uses: seq<Use>, c: Call)
    requires Represents(p, es, uses, c.now) && |es[c.key := c.now + c.ttl]| <= p.maxEntries
    requires c.key !in Live(uses, c.now)
    ensures Represents(p, es[c.key := c.now + c.ttl], uses + [Use(c.key, c.now + c.ttl)], c.now)
  {
    forall u | u in uses && c.now < u.expiry ensures u.key != c.key {
      assert u.key in Live(uses, c.now);
    }
  }

  lemma {:induction false} StoreIsIdeal(p: Params, st: State, uses: seq<Use>, calls: seq<Call>, t: int)
    requires Represents(p, st.entries, uses, t) && InOrder(t, calls)
    ensures Verdicts(p, st, calls) == Ideal(p, uses, calls)
    decreases |calls|
  {
    if calls != [] {
      RepresentsLater(p, st.entries, uses, t, calls[0].now);
      StepAgrees(p, st, uses, calls[0]);
      StoreIsIdeal(p, ConsumeStep(p, st, calls[0]).0, Remember(p, uses, calls[0]), calls[1..], calls[0].now);
    }
  }

  /** Over any run from an empty store, a verdict is true exactly when the key has no accepted use that
      is still live and fewer than maxEntries accepted uses are: sweeping and eviction never show. */
  lemma ConsumeExact(p: Params, t: int, calls: seq<Call>)
    requires InOrder(t, calls)
    ensures Verdicts(p, State(map[], t), calls) == Ideal(p, [], calls)
  {
    StoreIsIdeal(p, State(map[], t), [], calls, t);
  }

  // ---- single use ----

  lemma LiveHas(uses: seq<Use>, u: Use, now: int)
    requires u in uses && now < u.expiry
    ensures u.key in Live(uses, now)
  {}

  lemma {:induction false} UsedUntilExpiry(p: Params, uses: seq<Use>, calls: seq<Call>, u: Use, j: nat)
    requires u in uses && j < |calls| && Ideal(p, uses, calls)[j] && calls[j].key == u.key
    ensures calls[j].now >= u.expiry
    decreases |calls|
  {
    var now := calls[0].now;
    if j == 0 {
      if now < u.expiry { LiveHas(uses, u, now); }
    } else {
      UsedUntilExpiry(p, Remember(p, uses, calls[0]), calls[1..], u, j - 1);
    }
  }

  lemma {:induction false} TwoUses(p: Params, uses: seq<Use>, calls: seq<Call>, i: nat, j: nat)
    requires i < j < |calls| && calls[i].key == calls[j].key
    requires Ideal(p, uses, calls)[i] && Ideal(p, uses, calls)[j]
    ensures calls[j].now >= calls[i].now + calls[i].ttl
    decreases |calls|
  {
    var uses' := Remember(p, uses, calls[0]);
    if i == 0 {
      UsedUntilExpiry(p, uses', calls[1..], Use(calls[0].key, calls[0].now + calls[0].ttl), j - 1);
    } else {
      TwoUses(p, uses', calls[1..], i - 1, j - 1);
    }
  }

  /** If a key is accepted twice in a run, the second time is at least the first ttl after the first. */
  lemma SingleUseOverRuns(p: Params, t: int, calls: seq<Call>, i: nat, j: nat)
    requires InOrder(t, calls) && i < j < |calls| && calls[i].key == calls[j].key
    requires Verdicts(p, State(map[], t), calls)[i] && Verdicts(p, State(map[], t), calls)[j]
    ensures calls[j].now >= calls[i].now + calls[i].ttl
  {
    ConsumeExact(p, t, calls);
    TwoUses(p, [], calls, i, j);
  }

  // ---- each verdict, read off the calls and verdicts before it ----

  /** The keys accepted before the j-th call and not yet past their own ttl at that call. */
  function LiveKeys(calls: seq<Call>, verdicts: seq<bool>, j: nat, now: int): set<string>
    requires j <= |calls| == |verdicts|
  {
    set i | 0 <= i < j && verdicts[i] && now < calls[i].now + calls[i].ttl :: calls[i].key
  }

  /** The uses that the first j calls leave behind. */
  function UsesAfter(p: Params, calls: seq<Call>, j: nat): seq<Use>
    requires j <= |calls|
  {
    if j == 0 then [] else Remember(p, UsesAfter(p, calls, j - 1), calls[j - 1])
  }

  lemma {:induction false} IdealAt(p: Params, calls: seq<Call>, from: nat, j: nat)
    requires from <= j < |calls|
    ensures Ideal(p, UsesAfter(p, calls, from), calls[from..])[j - from] == Accepts(p, UsesAfter(p, calls, j), calls[j])
    decreases j - from
  {
    hide Accepts, Remember;
    if from < j {
      assert calls[from..][1..] == calls[from + 1..];
      IdealAt(p, calls, from + 1, j);
    }
  }

  lemma {:induction false} UsesAre(p: Params, calls: seq<Call>, verdicts: seq<bool>, j: nat, u: Use)
    requires j <= |calls| == |verdicts|
    requires forall i :: 0 <= i < j ==> verdicts[i] == Accepts(p, UsesAfter(p, calls, i), calls[i])
    ensures u in UsesAfter(p, calls, j) <==> exists i :: 0 <= i < j && verdicts[i] && u == UseOf(calls[i])
    decreases j
  {
    hide Accepts, UseOf;
    if j > 0 {
      UsesAre(p, calls, verdicts, j - 1, u);
      OneMoreUse(p, calls, j - 1);
    }
  }

  function UseOf(c: Call): Use {
    Use(c.key, c.now + c.ttl)
  }

  lemma OneMoreUse(p: Params, calls: seq<Call>, j: nat)
    requires j < |calls|
    ensures
      var before, c := UsesAfter(p, calls, j), calls[j];
      UsesAfter(p, calls, j + 1) == if Accepts(p, before, c) then before + [UseOf(c)] else before
  {
    hide Accepts;
  }

  lemma LiveKeysAre(p: Params, calls: seq<Call>, verdicts: seq<bool>, j: nat, now: int)
    requires j <= |calls| == |verdicts|
    requires forall i :: 0 <= i < j ==> verdicts[i] == Accepts(p, UsesAfter(p, calls, i), calls[i])
    ensures Live(UsesAfter(p, calls, j), now) == LiveKeys(calls, verdicts, j, now)
  {
    hide Accepts;
    var uses := UsesAfter(p, calls, j);
    forall k ensures k in Live(uses, now) <==> k in LiveKeys(calls, verdicts, j, now) {
      if k in Live(uses, now) {
        var u :| u in uses && now < u.expiry && u.key == k;
        UsesAre(p, calls, verdicts, j, u);
      }
      if k in LiveKeys(calls, verdicts, j, now) {
        var i :| 0 <= i < j && verdicts[i] && now < calls[i].now + calls[i].ttl && calls[i].key == k;
        UsesAre(p, calls, verdicts, j, UseOf(calls[i]));
      }
    }
  }

  /** Every verdict of a run, exactly: a call is refused if and only if its key was accepted less than that
      acceptance's ttl ago, or maxEntries keys were. */
  lemma VerdictsExactly(p: Params, t: int, calls: seq<Call>, j: nat)
    requires InOrder(t, calls) && j < |calls|
    ensures
      var verdicts := Verdicts(p, State(map[], t), calls);
      var live := LiveKeys(calls, verdicts, j, calls[j].now);
      !verdicts[j] <==> calls[j].key in live || |live| >= p.maxEntries
  {
    ConsumeExact(p, t, calls);
    var verdicts := Verdicts(p, State(map[], t), calls);
    assert calls[0..] == calls;
    forall i | 0 <= i < |calls| ensures verdicts[i] == Accepts(p, UsesAfter(p, calls, i), calls[i]) {
      IdealAt(p, calls, 0, i);
    }
    LiveKeysAre(p, calls, verdicts, j, calls[j].now);
  }

  /** A call that comes a sweep interval after the last sweep leaves no expired entry behind. */
  lemma SweepsExpired(p: Params, st: State, c: Call, key: string)
    requires c.now - st.lastSweep >= p.sweepInterval && c.ttl > 0
    ensures
      var st' := ConsumeStep(p, st, c).0;
      key in st'.entries ==> c.now < st'.entries[key]
  {}

  // ---- the size of the map ----

  function After(p: Params, st: State, calls: seq<Call>): State
    decreases |calls|
  {
    if calls == [] then st else After(p, ConsumeStep(p, st, calls[0]).0, calls[1..])
  }

  lemma {:induction false} NeverOverCap(p: Params, st: State, calls: seq<Call>)
    requires |st.entries| <= p.maxEntries
    ensures |After(p, st, calls).entries| <= p.maxEntries
    decreases |calls|
  {
    if calls != [] {
      StepWithinCap(p, st, calls[0]);
      NeverOverCap(p, ConsumeStep(p, st, calls[0]).0, calls[1..]);
    }
  }

  lemma StepWithinCap(p: Params, st: State, c: Call)
    requires |st.entries| <= p.maxEntries
    ensures |ConsumeStep(p, st, c).0.entries| <= p.maxEntries
  {
    var st1 := Swept(p, st, c.now);
    FewerKeys(st1.entries, st.entries);
    FewerKeys(Unexpired(st1.entries, c.now), st1.entries);
    AddKey(if |st1.entries| >= p.maxEntries then Unexpired(st1.entries, c.now) else st1.entries, c.key, c.now + c.ttl);
  }

  class MemSingleUseStore {
    const p: Params
    var entries: map<string, int>
    var lastSweep: int

    ghost function St(): State
      reads this
    {
      State(entries, lastSweep)
    }

    constructor (p: Params, now: int)
      ensures this.p == p && St() == State(map[], now)
    {
      this.p := p;
      entries, lastSweep := map[], now;
    }

    method EvictExpired(now: int)
      modifies this`entries
      ensures entries == Unexpired(old(entries), now)
    {
      var todo := entries.Keys;
      ghost var before := entries;
      while todo != {}
        invariant todo <= before.Keys
        invariant forall k :: k in entries <==> k in before && (k in todo || now < before[k])
        invariant forall k :: k in entries ==> entries[k] == before[k]
        decreases todo
      {
        var k :| k in todo;
        todo := todo - {k};
        if !(now < entries[k]) {
          entries := entries - {k};
        }
      }
    }

    method Consume(key: string, ttl: int, now: int) returns (firstUse: bool)
      modifies this
      ensures (St(), firstUse) == ConsumeStep(p, old(St()), Call(key, ttl, now))
    {
      if !(now - lastSweep < p.sweepInterval) {
        EvictExpired(now);
        lastSweep := now;
      }
      if key in entries && now < entries[key] {
        return false;
      }
      if |entries| >= p.maxEntries {
        EvictExpired(now);
        if |entries| >= p.maxEntries {
          return false;
        }
      }
      entries := entries[key := now + ttl];
      return true;
    }
  }
}
