/**
 The keyed token-bucket limiter with idle eviction. Time is in seconds, as reals;
 the clock handed to successive calls never goes back.
 backend/internal/ratelimit/ratelimit.go
 */
module RateLimit {
  const DEFAULT_TTL: real := 600.0

  datatype Params = Params(rps: real, burst: nat, ttl: real)

  /** rate.Limiter: how many tokens there were, and when. */
  datatype Bucket = Bucket(tokens: real, last: real)

  datatype Entry = Entry(bucket: Bucket, lastSeen: real)

  datatype State = State(buckets: map<string, Entry>, lastSweep: real)

  datatype Call = Call(key: string, now: real)

  predicate Proper(p: Params) {
    p.rps > 0.0 && p.burst >= 1 && p.ttl > 0.0
  }

  /** Idling for one ttl refills any bucket. */
  predicate Roomy(p: Params) {
    p.rps * p.ttl >= p.burst as real
  }

  // ---- one bucket ----

  function Fresh(p: Params, now: real): Bucket {
    Bucket(p.burst as real, now)
  }

  /** The tokens that flow in during `elapsed` seconds. */
  function Refill(rps: real, elapsed: real): real {
    rps * elapsed
  }

  /** The tokens in the bucket at `now`: refilled at rps, capped at burst. */
  function Level(p: Params, b: Bucket, now: real): real {
    var tokens := b.tokens + Refill(p.rps, if now < b.last then 0.0 else now - b.last);
    if tokens > p.burst as real then p.burst as real else tokens
  }

  /** AllowN(now, 1): a refused call takes nothing. */
  function TakeOne(p: Params, b: Bucket, now: real): (Bucket, bool) {
    if Level(p, b, now) >= 1.0 then (Bucket(Level(p, b, now) - 1.0, now), true) else (b, false)
  }

  // ---- the limiter, and the limiter that never evicts ----

  function Evicted(p: Params, buckets: map<string, Entry>, now: real): map<string, Entry> {
    map k | k in buckets && now - buckets[k].lastSeen < p.ttl :: buckets[k]
  }

  function Admit(p: Params, st: State, c: Call): (State, bool) {
    var sweep := c.now - st.lastSweep >= p.ttl;
    var kept := if sweep then Evicted(p, st.buckets, c.now) else st.buckets;
    var b := if c.key in kept then kept[c.key].bucket else Fresh(p, c.now);
    var (b', ok) := TakeOne(p, b, c.now);
    (State(kept[c.key := Entry(b', c.now)], if sweep then c.now else st.lastSweep), ok)
  }

  type Buckets = map<string, Bucket>

  function BucketOf(p: Params, bs: Buckets, key: string, now: real): Bucket {
    if key in bs then bs[key] else Fresh(p, now)
  }

  function AllowForever(p: Params, bs: Buckets, c: Call): (Buckets, bool) {
    var (b, ok) := TakeOne(p, BucketOf(p, bs, c.key, c.now), c.now);
    (bs[c.key := b], ok)
  }

  function Answers(p: Params, st: State, calls: seq<Call>): (r: seq<bool>)
    ensures |r| == |calls|
    decreases |calls|
  {
    if calls == [] then []
    else
      var (st', ok) := Admit(p, st, calls[0]);
      [ok] + Answers(p, st', calls[1..])
  }

  function AnswersForever(p: Params, bs: Buckets, calls: seq<Call>): (r: seq<bool>)
    ensures |r| == |calls|
    decreases |calls|
  {
    if calls == [] then []
    else
      var (bs', ok) := AllowForever(p, bs, calls[0]);
      [ok] + AnswersForever(p, bs', calls[1..])
  }

  /** The clock readings of a run, none of them before `t`. */
  predicate InOrder(t: real, calls: seq<Call>)
    decreases |calls|
  {
    calls == [] || (calls[0].now >= t && InOrder(calls[0].now, calls[1..]))
  }

  function Start(t: real): State {
    State(map[], t)
  }

  // ---- facts about one bucket ----

  predicate Healthy(b: Bucket, now: real) {
    b.tokens >= 0.0 && b.last <= now
  }

  lemma RefillGrows(rps: real, x: real, y: real)
    requires rps > 0.0 && x <= y
    ensures Refill(rps, x) <= Refill(rps, y) && Refill(rps, 0.0) == 0.0
  {}

  lemma RefillSplits(rps: real, t: real, m: real, hi: real)
    ensures Refill(rps, hi - t) == Refill(rps, hi - m) + Refill(rps, m - t)
  {}

  /** Between two clock readings the level rises by at most what flows in, and never falls. */
  lemma LevelRises(p: Params, b: Bucket, s: real, t: real)
    requires Proper(p) && Healthy(b, s) && s <= t
    ensures 0.0 <= Level(p, b, s) <= Level(p, b, t) <= p.burst as real
    ensures Level(p, b, t) <= Level(p, b, s) + Refill(p.rps, t - s)
  {
    hide Refill;
    RefillGrows(p.rps, 0.0, s - b.last);
    RefillGrows(p.rps, 0.0, t - s);
    RefillSplits(p.rps, b.last, s, t);
  }

  lemma TakenLevel(p: Params, b: Bucket, now: real)
    requires Proper(p) && Healthy(b, now)
    ensures
      var (b', ok) := TakeOne(p, b, now);
      Healthy(b', now) && Level(p, b', now) == Level(p, b, now) - (if ok then 1.0 else 0.0)
  {
    hide Refill;
    RefillGrows(p.rps, 0.0, 0.0);
    LevelRises(p, b, now, now);
  }

  // ---- eviction is unobservable when the bucket is roomy ----

  /** Live entries hold the very bucket the other limiter has; a bucket that is gone was full anyway. */
  ghost predicate Mirrors(p: Params, st: State, bs: Buckets, now: real) {
    (forall k :: k in bs ==> Healthy(bs[k], now)) &&
    (forall k :: k in st.buckets ==>
      k in bs && st.buckets[k].bucket == bs[k] && bs[k].last <= st.buckets[k].lastSeen <= now) &&
    (forall k :: k in bs && k !in st.buckets ==> Level(p, bs[k], now) == p.burst as real)
  }

  lemma MirrorsLater(p: Params, st: State, bs: Buckets, s: real, t: real)
    requires Proper(p) && Mirrors(p, st, bs, s) && s <= t
    ensures Mirrors(p, st, bs, t)
  {
    forall k | k in bs && k !in st.buckets ensures Level(p, bs[k], t) == p.burst as real {
      LevelRises(p, bs[k], s, t);
    }
  }

  lemma IdleIsFull(p: Params, b: Bucket, lastSeen: real, now: real)
    requires Proper(p) && Roomy(p) && Healthy(b, lastSeen) && now - lastSeen >= p.ttl
    ensures Level(p, b, now) == p.burst as real
  {
    RefillGrows(p.rps, p.ttl, now - b.last);
  }

  lemma SweepMirrors(p: Params, st: State, bs: Buckets, now: real)
    requires Proper(p) && Roomy(p) && Mirrors(p, st, bs, now)
    ensures Mirrors(p, State(Evicted(p, st.buckets, now), now), bs, now)
  {
    forall k | k in bs && k !in Evicted(p, st.buckets, now) ensures Level(p, bs[k], now) == p.burst as real {
      if k in st.buckets { IdleIsFull(p, bs[k], st.buckets[k].lastSeen, now); }
    }
  }

  lemma CallMirrors(p: Params, st: State, bs: Buckets, c: Call)
    requires Proper(p) && Roomy(p) && Mirrors(p, st, bs, c.now)
    ensures Admit(p, st, c).1 == AllowForever(p, bs, c).1
    ensures Mirrors(p, Admit(p, st, c).0, AllowForever(p, bs, c).0, c.now)
  {
    SweepMirrors(p, st, bs, c.now);
    TakenLevel(p, BucketOf(p, bs, c.key, c.now), c.now);
  }

  lemma {:induction false} SameAnswers(p: Params, st: State, bs: Buckets, calls: seq<Call>, t: real)
    requires Proper(p) && Roomy(p) && Mirrors(p, st, bs, t) && InOrder(t, calls)
    ensures Answers(p, st, calls) == AnswersForever(p, bs, calls)
    decreases |calls|
  {
    if calls != [] {
      MirrorsLater(p, st, bs, t, calls[0].now);
      CallMirrors(p, st, bs, calls[0]);
      SameAnswers(p, Admit(p, st, calls[0]).0, AllowForever(p, bs, calls[0]).0, calls[1..], calls[0].now);
    }
  }

  // ---- and observable when it is not ----

  /** The same call, `n` times over. */
  function Repeat(c: Call, n: nat): (r: seq<Call>)
    ensures |r| == n && forall i :: 0 <= i < n ==> r[i] == c
  {
    seq(n, _ => c)
  }

  ghost predicate AllTrue(s: seq<bool>) {
    forall i :: 0 <= i < |s| ==> s[i]
  }

  /** The limiter after a run. */
  function After(p: Params, st: State, calls: seq<Call>): State
    decreases |calls|
  {
    if calls == [] then st else After(p, Admit(p, st, calls[0]).0, calls[1..])
  }

  function AfterForever(p: Params, bs: Buckets, calls: seq<Call>): Buckets
    decreases |calls|
  {
    if calls == [] then bs else AfterForever(p, AllowForever(p, bs, calls[0]).0, calls[1..])
  }

  lemma {:induction false} AnswersConcat(p: Params, st: State, bs: Buckets, a: seq<Call>, b: seq<Call>)
    ensures Answers(p, st, a + b) == Answers(p, st, a) + Answers(p, After(p, st, a), b)
    ensures AnswersForever(p, bs, a + b) == AnswersForever(p, bs, a) + AnswersForever(p, AfterForever(p, bs, a), b)
    decreases |a|
  {
    if a == [] {
      assert a + b == b;
    } else {
      assert (a + b)[1..] == a[1..] + b;
      AnswersConcat(p, Admit(p, st, a[0]).0, AllowForever(p, bs, a[0]).0, a[1..], b);
    }
  }

  lemma AllTrueCons(x: bool, s: seq<bool>)
    ensures AllTrue([x] + s) <==> x && AllTrue(s)
  {
    if AllTrue([x] + s) {
      assert ([x] + s)[0];
      forall i | 0 <= i < |s| ensures s[i] { assert ([x] + s)[i + 1]; }
    }
  }

  /** Asked `n` times at one instant, a bucket says yes every time exactly if it holds `n` tokens. */
  lemma {:induction false} DrainForever(p: Params, bs: Buckets, c: Call, n: nat)
    requires Proper(p) && Healthy(BucketOf(p, bs, c.key, c.now), c.now)
    ensures
      var level := Level(p, BucketOf(p, bs, c.key, c.now), c.now);
      var drained := BucketOf(p, AfterForever(p, bs, Repeat(c, n)), c.key, c.now);
      (AllTrue(AnswersForever(p, bs, Repeat(c, n))) <==> level >= n as real) &&
      Healthy(drained, c.now) && (level >= n as real ==> Level(p, drained, c.now) == level - n as real)
    decreases n
  {
    TakenLevel(p, BucketOf(p, bs, c.key, c.now), c.now);
    LevelRises(p, BucketOf(p, bs, c.key, c.now), c.now, c.now);
    if n > 0 {
      var (bs', ok) := AllowForever(p, bs, c);
      assert Repeat(c, n)[1..] == Repeat(c, n - 1);
      DrainForever(p, bs', c, n - 1);
      AllTrueCons(ok, AnswersForever(p, bs', Repeat(c, n - 1)));
    }
  }

  function BucketIn(p: Params, st: State, key: string, now: real): Bucket {
    if key in st.buckets then st.buckets[key].bucket else Fresh(p, now)
  }

  /** The same for the evicting limiter while no sweep is due. */
  lemma {:induction false} Drain(p: Params, st: State, c: Call, n: nat)
    requires Proper(p) && c.now - st.lastSweep < p.ttl
    requires Healthy(BucketIn(p, st, c.key, c.now), c.now)
    requires Level(p, BucketIn(p, st, c.key, c.now), c.now) >= n as real
    ensures AllTrue(Answers(p, st, Repeat(c, n)))
    ensures
      var st' := After(p, st, Repeat(c, n));
      st'.lastSweep == st.lastSweep && (n > 0 ==> c.key in st'.buckets && st'.buckets[c.key].lastSeen == c.now)
    decreases n
  {
    TakenLevel(p, BucketIn(p, st, c.key, c.now), c.now);
    if n > 0 {
      var (st', ok) := Admit(p, st, c);
      assert Repeat(c, n)[1..] == Repeat(c, n - 1);
      Drain(p, st', c, n - 1);
      AllTrueCons(ok, Answers(p, st', Repeat(c, n - 1)));
    }
  }

  /** A key that drained its bucket and stayed away for one ttl finds a full one again. */
  lemma DrainAfterSweep(p: Params, st: State, c: Call)
    requires Proper(p) && c.now - st.lastSweep >= p.ttl
    requires c.key in st.buckets && c.now - st.buckets[c.key].lastSeen >= p.ttl
    ensures AllTrue(Answers(p, st, Repeat(c, p.burst)))
  {
    var (st', ok) := Admit(p, st, c);
    TakenLevel(p, Fresh(p, c.now), c.now);
    assert Repeat(c, p.burst)[1..] == Repeat(c, p.burst - 1);
    Drain(p, st', c, p.burst - 1);
    AllTrueCons(ok, Answers(p, st', Repeat(c, p.burst - 1)));
  }

  lemma RepeatInOrder(c: Call, n: nat, t: real, rest: seq<Call>)
    requires c.now >= t && InOrder(c.now, rest)
    ensures InOrder(t, Repeat(c, n) + rest)
    decreases n
  {
    if n == 0 {
      assert Repeat(c, 0) + rest == rest;
    } else {
      assert (Repeat(c, n) + rest)[1..] == Repeat(c, n - 1) + rest;
      RepeatInOrder(c, n - 1, c.now, rest);
    }
  }

  /** Drain the bucket, wait one ttl, drain it again. */
  function TwoBursts(p: Params, key: string): seq<Call> {
    Repeat(Call(key, 0.0), p.burst) + Repeat(Call(key, p.ttl), p.burst)
  }

  lemma TwoBurstsInOrder(p: Params, key: string)
    requires Proper(p)
    ensures InOrder(0.0, TwoBursts(p, key))
  {
    var a, b := Call(key, 0.0), Call(key, p.ttl);
    RepeatInOrder(b, p.burst, 0.0, []);
    assert Repeat(b, p.burst) + [] == Repeat(b, p.burst);
    RepeatInOrder(b, p.burst, p.ttl, []);
    RepeatInOrder(a, p.burst, 0.0, Repeat(b, p.burst));
  }

  lemma NotRoomyShows(p: Params, key: string)
    requires Proper(p) && !Roomy(p)
    ensures Answers(p, Start(0.0), TwoBursts(p, key)) != AnswersForever(p, map[], TwoBursts(p, key))
  {
    hide Answers, AnswersForever, After, AfterForever, Repeat;
    var a, b := Call(key, 0.0), Call(key, p.ttl);
    var st, bs := After(p, Start(0.0), Repeat(a, p.burst)), AfterForever(p, map[], Repeat(a, p.burst));
    AnswersConcat(p, Start(0.0), map[], Repeat(a, p.burst), Repeat(b, p.burst));
    Drain(p, Start(0.0), a, p.burst);
    DrainAfterSweep(p, st, b);
    DrainForever(p, map[], a, p.burst);
    SecondBurstFails(p, bs, a, b);
    var x, y := Answers(p, st, Repeat(b, p.burst)), AnswersForever(p, bs, Repeat(b, p.burst));
    var all, all' := Answers(p, Start(0.0), TwoBursts(p, key)), AnswersForever(p, map[], TwoBursts(p, key));
    assert all[p.burst..] == x && all'[p.burst..] == y;
  }

  lemma SecondBurstFails(p: Params, bs: Buckets, a: Call, b: Call)
    requires Proper(p) && !Roomy(p) && a.key == b.key && a.now == 0.0 && b.now == p.ttl
    requires Healthy(BucketOf(p, bs, a.key, a.now), a.now) && Level(p, BucketOf(p, bs, a.key, a.now), a.now) == 0.0
    ensures !AllTrue(AnswersForever(p, bs, Repeat(b, p.burst)))
  {
    assert b.key in bs;
    LevelRises(p, bs[b.key], a.now, b.now);
    DrainForever(p, bs, b, p.burst);
  }

  /** Idle eviction changes no answer in any run. */
  ghost predicate EvictionUnobservable(p: Params) {
    forall t, calls :: InOrder(t, calls) ==> Answers(p, Start(t), calls) == AnswersForever(p, map[], calls)
  }

  /** The exact condition: one ttl is long enough to refill a bucket. */
  lemma EvictionUnobservableIff(p: Params)
    requires Proper(p)
    ensures EvictionUnobservable(p) <==> Roomy(p)
  {
    if Roomy(p) {
      forall t, calls | InOrder(t, calls) ensures Answers(p, Start(t), calls) == AnswersForever(p, map[], calls) {
        SameAnswers(p, Start(t), map[], calls, t);
      }
    } else {
      TwoBurstsInOrder(p, "");
      NotRoomyShows(p, "");
    }
  }

  // ---- how many requests get through ----

  /** The requests of `key` let through between `lo` and `hi`. */
  function Allowed(calls: seq<Call>, answers: seq<bool>, key: string, lo: real, hi: real): nat
    requires |answers| == |calls|
    decreases |calls|
  {
    if calls == [] then 0
    else
      (if answers[0] && calls[0].key == key && lo <= calls[0].now <= hi then 1 else 0)
      + Allowed(calls[1..], answers[1..], key, lo, hi)
  }

  ghost predicate AllHealthy(bs: Buckets, now: real) {
    forall k :: k in bs ==> Healthy(bs[k], now)
  }

  lemma CallHealthy(p: Params, bs: Buckets, c: Call, t: real)
    requires Proper(p) && AllHealthy(bs, t) && t <= c.now
    ensures AllHealthy(AllowForever(p, bs, c).0, c.now)
  {
    TakenLevel(p, BucketOf(p, bs, c.key, c.now), c.now);
  }

  function Counts(c: Call, ok: bool, key: string, lo: real, hi: real): nat {
    if ok && c.key == key && lo <= c.now <= hi then 1 else 0
  }

  lemma AllowedStep(p: Params, bs: Buckets, calls: seq<Call>, key: string, lo: real, hi: real)
    requires calls != []
    ensures
      var (bs', ok) := AllowForever(p, bs, calls[0]);
      Allowed(calls, AnswersForever(p, bs, calls), key, lo, hi)
        == Counts(calls[0], ok, key, lo, hi) + Allowed(calls[1..], AnswersForever(p, bs', calls[1..]), key, lo, hi)
  {
    var (bs', ok) := AllowForever(p, bs, calls[0]);
    assert AnswersForever(p, bs, calls)[1..] == AnswersForever(p, bs', calls[1..]);
  }

  function LevelOf(p: Params, bs: Buckets, key: string, t: real): real {
    Level(p, BucketOf(p, bs, key, t), t)
  }

  lemma LevelBounds(p: Params, bs: Buckets, key: string, t: real)
    requires Proper(p) && AllHealthy(bs, t)
    ensures 0.0 <= LevelOf(p, bs, key, t) <= p.burst as real
  {
    LevelRises(p, BucketOf(p, bs, key, t), t, t);
  }

  /** One call takes from the level of `key` what it is answered, and time adds at most rps * elapsed. */
  lemma CallLevel(p: Params, bs: Buckets, c: Call, key: string, t: real)
    requires Proper(p) && AllHealthy(bs, t) && t <= c.now
    ensures
      var (bs', ok) := AllowForever(p, bs, c);
      LevelOf(p, bs', key, c.now) + (if ok && c.key == key then 1.0 else 0.0)
        <= LevelOf(p, bs, key, t) + Refill(p.rps, c.now - t)
  {
    hide Refill;
    RefillGrows(p.rps, 0.0, c.now - t);
    if key in bs { LevelRises(p, bs[key], t, c.now); }
    if c.key == key { TakenLevel(p, BucketOf(p, bs, key, c.now), c.now); }
  }

  /** From inside the window: no more than what the bucket holds now and what flows in until the end. */
  lemma {:induction false} AllowedFromNow(p: Params, bs: Buckets, calls: seq<Call>, key: string,
                                          lo: real, t: real, hi: real)
    requires Proper(p) && AllHealthy(bs, t) && InOrder(t, calls) && lo <= t <= hi
    ensures Allowed(calls, AnswersForever(p, bs, calls), key, lo, hi) as real
         <= LevelOf(p, bs, key, t) + Refill(p.rps, hi - t)
    decreases |calls|
  {
    hide LevelOf, AllHealthy, AllowForever, Refill;
    LevelBounds(p, bs, key, t);
    RefillGrows(p.rps, 0.0, hi - t);
    if calls != [] {
      var c := calls[0];
      var (bs', ok) := AllowForever(p, bs, c);
      AllowedStep(p, bs, calls, key, lo, hi);
      CallHealthy(p, bs, c, t);
      if c.now <= hi {
        AllowedFromNow(p, bs', calls[1..], key, lo, c.now, hi);
        CallLevel(p, bs, c, key, t);
        RefillSplits(p.rps, t, c.now, hi);
      } else {
        NoneAfter(p, bs', calls[1..], key, lo, hi, c.now);
      }
    }
  }

  lemma {:induction false} NoneAfter(p: Params, bs: Buckets, calls: seq<Call>, key: string, lo: real, hi: real, t: real)
    requires InOrder(t, calls) && hi < t
    ensures Allowed(calls, AnswersForever(p, bs, calls), key, lo, hi) == 0
    decreases |calls|
  {
    if calls != [] {
      AllowedStep(p, bs, calls, key, lo, hi);
      NoneAfter(p, AllowForever(p, bs, calls[0]).0, calls[1..], key, lo, hi, calls[0].now);
    }
  }

  lemma {:induction false} AllowedInWindow(p: Params, bs: Buckets, calls: seq<Call>, key: string,
                                           t: real, lo: real, w: real)
    requires Proper(p) && AllHealthy(bs, t) && InOrder(t, calls) && t <= lo && w >= 0.0
    ensures Allowed(calls, AnswersForever(p, bs, calls), key, lo, lo + w) as real <= p.burst as real + Refill(p.rps, w)
    decreases |calls|
  {
    hide LevelOf, AllHealthy, AllowForever, Refill;
    RefillGrows(p.rps, 0.0, w);
    if calls != [] {
      var c := calls[0];
      if c.now < lo {
        AllowedStep(p, bs, calls, key, lo, lo + w);
        CallHealthy(p, bs, c, t);
        AllowedInWindow(p, AllowForever(p, bs, c).0, calls[1..], key, c.now, lo, w);
      } else {
        HealthyLater(bs, t, lo);
        LevelBounds(p, bs, key, lo);
        AllowedFromNow(p, bs, calls, key, lo, lo, lo + w);
        assert lo + w - lo == w;
      }
    }
  }

  lemma HealthyLater(bs: Buckets, s: real, t: real)
    requires AllHealthy(bs, s) && s <= t
    ensures AllHealthy(bs, t)
  {}

  /** A roomy limiter, evicting as it does, lets at most burst + rps * w requests of a key through in any
      window of length w, over any run. */
  lemma WindowBound(p: Params, t: real, calls: seq<Call>, key: string, lo: real, w: real)
    requires Proper(p) && Roomy(p) && InOrder(t, calls) && t <= lo && w >= 0.0
    ensures Allowed(calls, Answers(p, Start(t), calls), key, lo, lo + w) as real <= p.burst as real + p.rps * w
  {
    hide Answers, AnswersForever, Allowed, InOrder, Roomy;
    SameAnswers(p, Start(t), map[], calls, t);
    AllowedInWindow(p, map[], calls, key, t, lo, w);
  }

  // ---- and which are refused ----

  lemma {:induction false} AllowedSnoc(calls: seq<Call>, answers: seq<bool>, c: Call, ok: bool, key: string,
                                       lo: real, hi: real)
    requires |answers| == |calls|
    ensures Allowed(calls + [c], answers + [ok], key, lo, hi) ==
      Allowed(calls, answers, key, lo, hi) + Counts(c, ok, key, lo, hi)
    decreases |calls|
  {
    if calls != [] {
      assert (calls + [c])[1..] == calls[1..] + [c] && (answers + [ok])[1..] == answers[1..] + [ok];
      AllowedSnoc(calls[1..], answers[1..], c, ok, key, lo, hi);
    }
  }

  lemma {:induction false} NoneBefore(calls: seq<Call>, answers: seq<bool>, key: string, lo: real, hi: real)
    requires |answers| == |calls| && forall i :: 0 <= i < |calls| ==> calls[i].now < lo
    ensures Allowed(calls, answers, key, lo, hi) == 0
    decreases |calls|
  {
    if calls != [] { NoneBefore(calls[1..], answers[1..], key, lo, hi); }
  }

  lemma {:induction false} OrderSnoc(t: real, calls: seq<Call>, c: Call)
    requires InOrder(t, calls + [c])
    ensures InOrder(t, calls) && t <= c.now && forall i :: 0 <= i < |calls| ==> calls[i].now <= c.now
    decreases |calls|
  {
    if calls != [] {
      assert (calls + [c])[0] == calls[0] && (calls + [c])[1..] == calls[1..] + [c];
      OrderSnoc(calls[0].now, calls[1..], c);
    }
  }

  lemma {:induction false} HealthyAfter(p: Params, bs: Buckets, calls: seq<Call>, t: real, now: real)
    requires Proper(p) && AllHealthy(bs, t) && InOrder(t, calls) && t <= now
    requires forall i :: 0 <= i < |calls| ==> calls[i].now <= now
    ensures AllHealthy(AfterForever(p, bs, calls), now)
    decreases |calls|
  {
    if calls == [] {
      HealthyLater(bs, t, now);
    } else {
      CallHealthy(p, bs, calls[0], t);
      HealthyAfter(p, AllowForever(p, bs, calls[0]).0, calls[1..], calls[0].now, now);
    }
  }

  /** Time refills a bucket up to the brim. */
  lemma LevelLater(p: Params, bs: Buckets, key: string, s: real, t: real)
    requires Proper(p) && AllHealthy(bs, s) && s <= t
    ensures
      var level := LevelOf(p, bs, key, s) + Refill(p.rps, t - s);
      LevelOf(p, bs, key, t) == if level > p.burst as real then p.burst as real else level
  {
    hide Refill;
    RefillGrows(p.rps, 0.0, t - s);
    if key in bs {
      RefillSplits(p.rps, bs[key].last, s, t);
      RefillGrows(p.rps, 0.0, s - bs[key].last);
    }
  }

  /** The level after a run is what one window leaves: the burst and what flowed in since its start, less the
      calls let through since then. */
  lemma {:induction false} LevelIsLeftOver(p: Params, t: real, calls: seq<Call>, key: string, now: real, hi: real)
    returns (lo: real)
    requires Proper(p) && InOrder(t, calls) && t <= now <= hi
    requires forall i :: 0 <= i < |calls| ==> calls[i].now <= now
    ensures t <= lo <= now
    ensures LevelOf(p, AfterForever(p, map[], calls), key, now) ==
      p.burst as real + Refill(p.rps, now - lo) - Allowed(calls, AnswersForever(p, map[], calls), key, lo, hi) as real
    decreases |calls|
  {
    hide Refill, LevelOf, AllHealthy, Allowed, AllowForever, AfterForever, AnswersForever, InOrder;
    RefillGrows(p.rps, 0.0, 0.0);
    if calls == [] {
      lo := now;
      LevelAtFirst(p, key, now, hi);
    } else {
      var front, c := calls[..|calls| - 1], calls[|calls| - 1];
      assert calls == front + [c];
      OrderSnoc(t, front, c);
      lo := LevelIsLeftOver(p, t, front, key, c.now, hi);
      LastCall(p, t, front, c, key, lo, hi);
      HealthyAfter(p, map[], calls, t, c.now) by { NoBuckets(t); }
      var bs := AfterForever(p, map[], calls);
      LevelLater(p, bs, key, c.now, now);
      RefillSplits(p.rps, lo, c.now, now);
      if LevelOf(p, bs, key, c.now) + Refill(p.rps, now - c.now) > p.burst as real {
        LevelBounds(p, bs, key, c.now);
        assert c.now < now;
        lo := now;
        NoneBefore(calls, AnswersForever(p, map[], calls), key, now, hi);
      }
    }
  }

  lemma NoBuckets(t: real)
    ensures AllHealthy(map[], t)
  {}

  lemma LevelAtFirst(p: Params, key: string, now: real, hi: real)
    ensures LevelOf(p, AfterForever(p, map[], []), key, now) == p.burst as real
    ensures Allowed([], AnswersForever(p, map[], []), key, now, hi) == 0
  {
    RefillIs(p.rps, 0.0);
  }

  lemma RefillIs(rps: real, elapsed: real)
    ensures Refill(rps, elapsed) == rps * elapsed
  {}

  /** One call more takes from the level of its key what it adds to the count. */
  lemma LastCall(p: Params, t: real, front: seq<Call>, c: Call, key: string, lo: real, hi: real)
    requires Proper(p) && InOrder(t, front) && t <= c.now && lo <= c.now <= hi
    requires forall i :: 0 <= i < |front| ==> front[i].now <= c.now
    ensures
      var before, after := AfterForever(p, map[], front), AfterForever(p, map[], front + [c]);
      LevelOf(p, before, key, c.now) - LevelOf(p, after, key, c.now) ==
      (Allowed(front + [c], AnswersForever(p, map[], front + [c]), key, lo, hi)
       - Allowed(front, AnswersForever(p, map[], front), key, lo, hi)) as real
  {
    hide Refill, Allowed, Level;
    var bs := AfterForever(p, map[], front);
    AfterConcat(p, map[], front, [c]);
    AnswersConcat(p, Start(t), map[], front, [c]);
    var ok := AllowForever(p, bs, c).1;
    assert AnswersForever(p, bs, [c]) == [ok];
    AllowedSnoc(front, AnswersForever(p, map[], front), c, ok, key, lo, hi);
    HealthyAfter(p, map[], front, t, c.now);
    TakenLevel(p, BucketOf(p, bs, c.key, c.now), c.now);
  }

  lemma {:induction false} AfterConcat(p: Params, bs: Buckets, a: seq<Call>, b: seq<Call>)
    ensures AfterForever(p, bs, a + b) == AfterForever(p, AfterForever(p, bs, a), b)
    decreases |a|
  {
    if a == [] {
      assert a + b == b;
    } else {
      assert (a + b)[1..] == a[1..] + b;
      AfterConcat(p, AllowForever(p, bs, a[0]).0, a[1..], b);
    }
  }

  /** Letting this call through as well would put too many into the window that starts at `lo`. */
  predicate Overfull(p: Params, calls: seq<Call>, answers: seq<bool>, c: Call, lo: real)
    requires |answers| == |calls|
  {
    Allowed(calls, answers, c.key, lo, c.now) as real + 1.0 > p.burst as real + p.rps * (c.now - lo)
  }

  /** A roomy limiter refuses a call exactly if letting it through would break the bound on some window. */
  lemma RefusedExactly(p: Params, t: real, calls: seq<Call>, c: Call)
    requires Proper(p) && Roomy(p) && InOrder(t, calls + [c])
    ensures
      var before, all := Answers(p, Start(t), calls), Answers(p, Start(t), calls + [c]);
      all[..|calls|] == before &&
      (!all[|calls|] <==> exists lo :: t <= lo <= c.now && Overfull(p, calls, before, c, lo))
  {
    hide Answers, InOrder, Roomy, Overfull;
    var ok := SplitLast(p, t, calls, c);
    if ok {
      forall lo | t <= lo <= c.now ensures !Overfull(p, calls, Answers(p, Start(t), calls), c, lo) {
        GrantedFits(p, t, calls, c, lo);
      }
    } else {
      var lo := RefusedOverflows(p, t, calls, c);
    }
  }

  lemma SplitLast(p: Params, t: real, calls: seq<Call>, c: Call) returns (ok: bool)
    requires Proper(p) && Roomy(p) && InOrder(t, calls + [c])
    ensures Answers(p, Start(t), calls + [c]) == Answers(p, Start(t), calls) + [ok]
    ensures ok <==> LevelOf(p, AfterForever(p, map[], calls), c.key, c.now) >= 1.0
    ensures Answers(p, Start(t), calls) == AnswersForever(p, map[], calls)
  {
    hide Answers, AnswersForever, InOrder, Roomy, LevelOf;
    OrderSnoc(t, calls, c);
    SameAnswers(p, Start(t), map[], calls, t);
    SameAnswers(p, Start(t), map[], calls + [c], t);
    AnswersConcat(p, Start(t), map[], calls, [c]);
    ok := LevelOf(p, AfterForever(p, map[], calls), c.key, c.now) >= 1.0;
    LastAnswer(p, AfterForever(p, map[], calls), c);
  }

  lemma RefusedOverflows(p: Params, t: real, calls: seq<Call>, c: Call) returns (lo: real)
    requires Proper(p) && Roomy(p) && InOrder(t, calls + [c])
    requires Answers(p, Start(t), calls + [c]) == Answers(p, Start(t), calls) + [false]
    ensures t <= lo <= c.now && Overfull(p, calls, Answers(p, Start(t), calls), c, lo)
  {
    hide Answers, AnswersForever, Allowed, InOrder, Roomy, LevelOf, Refill;
    var ok := SplitLast(p, t, calls, c);
    var before := Answers(p, Start(t), calls);
    assert (before + [ok])[|before|] == ok && (before + [false])[|before|] == false;
    OrderSnoc(t, calls, c);
    lo := LevelIsLeftOver(p, t, calls, c.key, c.now, c.now);
    RefillIs(p.rps, c.now - lo);
    assert Overfull(p, calls, AnswersForever(p, map[], calls), c, lo);
  }

  lemma GrantedFits(p: Params, t: real, calls: seq<Call>, c: Call, lo: real)
    requires Proper(p) && Roomy(p) && InOrder(t, calls + [c]) && t <= lo <= c.now
    requires Answers(p, Start(t), calls + [c]) == Answers(p, Start(t), calls) + [true]
    ensures !Overfull(p, calls, Answers(p, Start(t), calls), c, lo)
  {
    hide Answers, Allowed, InOrder, Roomy;
    var before, w, flow := Answers(p, Start(t), calls), c.now - lo, p.rps * (c.now - lo);
    var n := Allowed(calls + [c], before + [true], c.key, lo, c.now);
    assert n as real <= p.burst as real + flow by {
      WindowBound(p, t, calls + [c], c.key, lo, w);
      assert lo + w == c.now;
    }
    AllowedSnoc(calls, before, c, true, c.key, lo, c.now);
    assert n == Allowed(calls, before, c.key, lo, c.now) + 1;
  }

  lemma LastAnswer(p: Params, bs: Buckets, c: Call)
    ensures AnswersForever(p, bs, [c]) == [LevelOf(p, bs, c.key, c.now) >= 1.0]
  {}

  ghost predicate WindowBounded(p: Params) {
    forall t, calls, key, lo, hi | InOrder(t, calls) && t <= lo <= hi ::
      Allowed(calls, Answers(p, Start(t), calls), key, lo, hi) as real <= p.burst as real + Refill(p.rps, hi - lo)
  }

  lemma {:induction false} AllAllowed(calls: seq<Call>, answers: seq<bool>, key: string, lo: real, hi: real)
    requires |answers| == |calls| && AllTrue(answers)
    requires forall i :: 0 <= i < |calls| ==> calls[i].key == key && lo <= calls[i].now <= hi
    ensures Allowed(calls, answers, key, lo, hi) == |calls|
    decreases |calls|
  {
    if calls != [] { AllAllowed(calls[1..], answers[1..], key, lo, hi); }
  }

  lemma AllTrueConcat(a: seq<bool>, b: seq<bool>)
    requires AllTrue(a) && AllTrue(b)
    ensures AllTrue(a + b)
  {}

  /** Both bursts get through: the second finds a fresh bucket. */
  lemma BothBursts(p: Params, key: string)
    requires Proper(p)
    ensures AllTrue(Answers(p, Start(0.0), TwoBursts(p, key)))
  {
    hide Answers, After, Repeat, AllTrue;
    var a, b := Call(key, 0.0), Call(key, p.ttl);
    var st := After(p, Start(0.0), Repeat(a, p.burst));
    AnswersConcat(p, Start(0.0), map[], Repeat(a, p.burst), Repeat(b, p.burst));
    Drain(p, Start(0.0), a, p.burst);
    DrainAfterSweep(p, st, b);
    AllTrueConcat(Answers(p, Start(0.0), Repeat(a, p.burst)), Answers(p, st, Repeat(b, p.burst)));
  }

  /** The exact condition again: the window bound holds over all runs if and only if one ttl refills a bucket. */
  lemma WindowBoundIff(p: Params)
    requires Proper(p)
    ensures WindowBounded(p) <==> Roomy(p)
  {
    hide Answers, Allowed, InOrder, AllTrue, Repeat;
    if Roomy(p) {
      forall t, calls, key, lo, hi | InOrder(t, calls) && t <= lo <= hi
        ensures
          Allowed(calls, Answers(p, Start(t), calls), key, lo, hi) as real <= p.burst as real + Refill(p.rps, hi - lo)
      {
        WindowBound(p, t, calls, key, lo, hi - lo);
        assert lo + (hi - lo) == hi;
      }
    } else {
      var calls := TwoBursts(p, "");
      TwoBurstsInOrder(p, "");
      BothBursts(p, "");
      AllAllowed(calls, Answers(p, Start(0.0), calls), "", 0.0, p.ttl);
      assert |calls| == 2 * p.burst;
      assert p.ttl - 0.0 == p.ttl;
    }
  }

  // ---- the defaults ----

  /** max(1, ceil(rps)) */
  function DefaultBurst(rps: real): nat
    requires rps > 0.0
  {
    var up := if rps.Floor as real < rps then rps.Floor + 1 else rps.Floor;
    if up < 1 then 1 else up
  }

  /** The least whole number that is at least one and at least the rate. */
  lemma DefaultBurstIs(rps: real)
    requires rps > 0.0
    ensures
      var b := DefaultBurst(rps);
      b >= 1 && b as real >= rps && (b > 1 ==> (b - 1) as real < rps)
  {}

  /** The defaults of New make eviction unobservable from one request in ten minutes upwards. */
  lemma DefaultsRoomy(rps: real)
    requires rps > 0.0
    ensures EvictionUnobservable(Params(rps, DefaultBurst(rps), DEFAULT_TTL)) <==> rps >= 1.0 / 600.0
    ensures rps >= 1.0 ==> EvictionUnobservable(Params(rps, DefaultBurst(rps), DEFAULT_TTL))
  {
    EvictionUnobservableIff(Params(rps, DefaultBurst(rps), DEFAULT_TTL));
  }

  class Limiter {
    const params: Params
    const disabled: bool
    var buckets: map<string, Entry>
    var lastSweep: real

    ghost function St(): State
      reads this
    {
      State(buckets, lastSweep)
    }

    /** New: defaults for a burst or ttl that is not positive; a rate that is not positive switches limiting off. */
    constructor (rps: real, burst: int, ttl: real, now: real)
      ensures St() == Start(now) && (disabled <==> rps <= 0.0)
      ensures params.rps == rps && params.ttl == if ttl <= 0.0 then DEFAULT_TTL else ttl
      ensures burst > 0 ==> params.burst == burst
      ensures burst <= 0 && !disabled ==> params.burst == DefaultBurst(rps)
      ensures !disabled ==> Proper(params)
    {
      var b := burst;
      if b <= 0 {
        b := rps.Floor; // int(rps) on the rates that matter: the limiter is off below zero
        if b as real < rps {
          b := b + 1;
        }
        if b < 1 {
          b := 1;
        }
      }
      params := Params(rps, b, if ttl <= 0.0 then DEFAULT_TTL else ttl);
      disabled := rps <= 0.0;
      buckets := map[];
      lastSweep := now;
    }

    /** evictLocked */
    method Evict(now: real)
      modifies this`buckets
      ensures buckets == Evicted(params, old(buckets), now)
    {
      var todo := buckets.Keys;
      ghost var before := buckets;
      while todo != {}
        invariant todo <= before.Keys
        invariant forall k :: k in buckets <==> k in before && (k in todo || now - before[k].lastSeen < params.ttl)
        invariant forall k :: k in buckets ==> buckets[k] == before[k]
        decreases todo
      {
        var k :| k in todo;
        todo := todo - {k};
        if now - buckets[k].lastSeen >= params.ttl {
          buckets := buckets - {k};
        }
      }
    }

    /** Allow: sweep at most once per ttl, then one token from the key's bucket. */
    method Allow(key: string, now: real) returns (ok: bool)
      modifies this
      ensures disabled ==> ok && St() == old(St())
      ensures !disabled ==> (St(), ok) == Admit(params, old(St()), Call(key, now))
    {
      if disabled {
        return true;
      }
      if now - lastSweep >= params.ttl {
        Evict(now);
        lastSweep := now;
      }
      ghost var kept := buckets;
      if key !in buckets {
        buckets := buckets[key := Entry(Fresh(params, now), now)];
      }
      var e := buckets[key];
      var taken := TakeOne(params, e.bucket, now);
      buckets := buckets[key := Entry(taken.0, now)];
      assert buckets == kept[key := Entry(taken.0, now)];
      return taken.1;
    }
  }
}
