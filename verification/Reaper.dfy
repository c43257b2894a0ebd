/**
 The soft-delete reaper as a protocol over database rows, repositories on disk and
 bundles, with an error or a crash possible at every step.
 backend/internal/ops/ops.go
 */
module Reaper {
  import opened Prelude

  type SiteId = nat

  /** What is left of a site's directory: its .git, and the rest (the served worktrees). */
  datatype Dir = Dir(git: bool, rest: bool)

  const GONE := Dir(false, false)
  const TORN := Dir(false, true)

  /** Rows carry the deletion time, None for a live site. `created` is every site that ever had a repository. */
  datatype World = World(
    rows: map<SiteId, Option<int>>,
    dirs: map<SiteId, Dir>,
    attempted: set<SiteId>, // `git bundle` was run for these
    bundled: set<SiteId>,   // ... and succeeded
    created: set<SiteId>)

  function DirOf(w: World, id: SiteId): Dir {
    if id in w.dirs then w.dirs[id] else GONE
  }

  predicate PastGrace(w: World, id: SiteId, cutoff: int) {
    id in w.rows && w.rows[id].Some? && w.rows[id].value < cutoff
  }

  // ---- what can happen at each step ----

  datatype Out = Fine | Fails | Crashes

  /** How one site fares: the outcome of every step that may be reached. A failed or interrupted removal
      leaves part of the directory; a failed or interrupted purge may or may not have taken effect. */
  datatype Fate = Fate(
    cancelled: bool, stat: Out, mkdir: Out, bundle: Out, remove: Out, left: Dir, purge: Out, purged: bool)

  const SMOOTH := Fate(false, Fine, Fine, Fine, Fine, GONE, Fine, true)

  datatype Verdict = Reaped | Skipped | Failed | Crashed

  function Purge(w: World, id: SiteId, f: Fate): World {
    if f.purge == Fine || f.purged then w.(rows := w.rows - {id}) else w
  }

  /** A removal never brings anything back. */
  function Remains(d: Dir, f: Fate): Dir {
    if f.remove == Fine then GONE else Dir(d.git && f.left.git, d.rest && f.left.rest)
  }

  /** reapOne: stat, bundle, remove, purge, stopping where a step does not succeed -- except that a bundle
      that fails is only logged. */
  function ReapSite(w: World, id: SiteId, backupDir: bool, f: Fate): (World, Verdict) {
    if f.stat != Fine then (w, if f.stat == Fails then Failed else Crashed)
    else if !DirOf(w, id).git then
      (Purge(w, id, f), if f.purge == Fine then Skipped else if f.purge == Fails then Failed else Crashed)
    else if !backupDir then (w, Failed)
    else if f.mkdir != Fine then (w, if f.mkdir == Fails then Failed else Crashed)
    else
      var bundled := if f.bundle == Fine then w.bundled + {id} else w.bundled;
      var w1 := w.(attempted := w.attempted + {id}, bundled := bundled);
      if f.bundle == Crashes then (w1, Crashed)
      else
        var w2 := w1.(dirs := w1.dirs[id := Remains(w1.dirs[id], f)]);
        if f.remove != Fine then (w2, if f.remove == Fails then Failed else Crashed)
        else (Purge(w2, id, f), if f.purge == Fine then Reaped else if f.purge == Fails then Failed else Crashed)
  }

  datatype Tally = Tally(reaped: nat, skipped: nat, errors: nat)

  function Count(t: Tally, v: Verdict): Tally {
    match v
    case Reaped => t.(reaped := t.reaped + 1)
    case Skipped => t.(skipped := t.skipped + 1)
    case Failed => t.(errors := t.errors + 1)
    case Crashed => t
  }

  /** One pass over the listed sites; `whole` says that it neither crashed nor was cancelled. */
  datatype Pass = Pass(w: World, tally: Tally, whole: bool)

  function ReapList(w: World, sites: seq<SiteId>, fates: seq<Fate>, backupDir: bool, t: Tally): Pass
    requires |fates| == |sites|
    decreases |sites|
  {
    if sites == [] then Pass(w, t, true)
    else if fates[0].cancelled then Pass(w, t, false)
    else
      var (w', v) := ReapSite(w, sites[0], backupDir, fates[0]);
      if v.Crashed? then Pass(w', t, false)
      else ReapList(w', sites[1..], fates[1..], backupDir, Count(t, v))
  }

  /** ListSitesPastGrace: the rows deleted before the cutoff, oldest first. */
  ghost predicate IsListing(w: World, cutoff: int, sites: seq<SiteId>) {
    Distinct(sites) && (forall id :: id in sites <==> PastGrace(w, id, cutoff)) &&
    forall i, j | 0 <= i < j < |sites| && PastGrace(w, sites[i], cutoff) && PastGrace(w, sites[j], cutoff) ::
      w.rows[sites[i]].value <= w.rows[sites[j]].value
  }

  // ---- safety ----

  /** Going from w to w' has harmed nothing it should not have. */
  ghost predicate Safe(w: World, w': World, cutoff: int) {
    w'.created == w.created && w.attempted <= w'.attempted && w.bundled <= w'.bundled &&
    (forall id :: id in w'.rows ==> id in w.rows && w'.rows[id] == w.rows[id]) &&
    (forall id :: id in w.rows && id !in w'.rows ==> PastGrace(w, id, cutoff) && !DirOf(w', id).git) &&
    (forall id :: !PastGrace(w, id, cutoff) ==> DirOf(w', id) == DirOf(w, id)) &&
    (forall id :: DirOf(w', id).git ==> DirOf(w, id).git) &&
    (forall id :: DirOf(w, id).git && !DirOf(w', id).git ==> id in w'.attempted)
  }

  lemma SafeReflexive(w: World, cutoff: int)
    ensures Safe(w, w, cutoff)
  {}

  lemma SafeTransitive(a: World, b: World, c: World, cutoff: int)
    requires Safe(a, b, cutoff) && Safe(b, c, cutoff)
    ensures Safe(a, c, cutoff)
  {
    forall id ensures PastGrace(b, id, cutoff) ==> PastGrace(a, id, cutoff) {}
    forall id | !PastGrace(a, id, cutoff) ensures DirOf(c, id) == DirOf(a, id) {
      assert !PastGrace(b, id, cutoff);
      assert DirOf(b, id) == DirOf(a, id);
    }
    forall id | id in a.rows && id !in c.rows ensures PastGrace(a, id, cutoff) && !DirOf(c, id).git {
      if id in b.rows { assert PastGrace(b, id, cutoff); }
      else { assert !DirOf(b, id).git; }
    }
  }

  lemma SiteSafe(w: World, id: SiteId, backupDir: bool, f: Fate, cutoff: int)
    requires PastGrace(w, id, cutoff)
    ensures Safe(w, ReapSite(w, id, backupDir, f).0, cutoff)
  {
    var w' := ReapSite(w, id, backupDir, f).0;
    assert forall x :: x != id ==> DirOf(w', x) == DirOf(w, x) && (x in w'.rows <==> x in w.rows);
  }

  /** Wherever a pass stops -- error, crash or cancellation, at any step of any site -- it has been safe. */
  lemma {:induction false} PassSafe(w0: World, w: World, sites: seq<SiteId>, fates: seq<Fate>, backupDir: bool,
                                    t: Tally, cutoff: int)
    requires |fates| == |sites| && Safe(w0, w, cutoff)
    requires forall id :: id in sites ==> PastGrace(w0, id, cutoff)
    ensures Safe(w0, ReapList(w, sites, fates, backupDir, t).w, cutoff)
    decreases |sites|
  {
    if sites != [] && !fates[0].cancelled {
      var id := sites[0];
      var (w', v) := ReapSite(w, id, backupDir, fates[0]);
      assert id in sites && PastGrace(w0, id, cutoff);
      if id in w.rows {
        SiteSafe(w, id, backupDir, fates[0], cutoff);
      } else {
        GoneSiteSafe(w0, w, id, backupDir, fates[0], cutoff);
      }
      SafeTransitive(w0, w, w', cutoff);
      PassSafe(w0, w', sites[1..], fates[1..], backupDir, Count(t, v), cutoff);
    }
  }

  /** A listed row that is gone by the time it is reached has no repository left either. */
  lemma GoneSiteSafe(w0: World, w: World, id: SiteId, backupDir: bool, f: Fate, cutoff: int)
    requires Safe(w0, w, cutoff) && PastGrace(w0, id, cutoff) && id !in w.rows
    ensures Safe(w, ReapSite(w, id, backupDir, f).0, cutoff)
  {
    assert !DirOf(w, id).git;
    assert w.rows - {id} == w.rows;
  }

  // ---- whole runs: sites come, are deleted, and passes run ----

  datatype Event =
    | Create(id: SiteId)
    | SoftDelete(id: SiteId, when: int)
    | Reap(cutoff: int, sites: seq<SiteId>, fates: seq<Fate>, backupDir: bool)

  /** Creation takes a fresh id; a pass works on a listing of the rows it finds. */
  ghost predicate Possible(w: World, ev: Event) {
    match ev
    case Create(id) => id !in w.rows && id !in w.created && id !in w.dirs
    case SoftDelete(id, when) => id in w.rows && w.rows[id].None?
    case Reap(cutoff, sites, fates, _) => |fates| == |sites| && IsListing(w, cutoff, sites)
  }

  function Happen(w: World, ev: Event): World
    requires ev.Reap? ==> |ev.fates| == |ev.sites|
  {
    match ev
    case Create(id) =>
      w.(rows := w.rows[id := None], dirs := w.dirs[id := Dir(true, true)], created := w.created + {id})
    case SoftDelete(id, when) => w.(rows := w.rows[id := Some(when)])
    case Reap(_, sites, fates, backupDir) => ReapList(w, sites, fates, backupDir, Tally(0, 0, 0)).w
  }

  /** No repository without a row, and no repository lost without an attempt to bundle it first. */
  ghost predicate Sound(w: World) {
    (forall id :: DirOf(w, id).git ==> id in w.rows && id in w.created) &&
    (forall id :: id in w.created && !DirOf(w, id).git ==> id in w.attempted)
  }

  lemma StepSound(w: World, ev: Event)
    requires Sound(w) && Possible(w, ev)
    ensures Sound(Happen(w, ev))
    ensures forall id :: id in w.rows && w.rows[id].None? && !ev.SoftDelete? ==>
      id in Happen(w, ev).rows && Happen(w, ev).rows[id].None? && DirOf(Happen(w, ev), id) == DirOf(w, id)
  {
    if ev.Reap? {
      SafeReflexive(w, ev.cutoff);
      PassSafe(w, w, ev.sites, ev.fates, ev.backupDir, Tally(0, 0, 0), ev.cutoff);
      var w' := Happen(w, ev);
      forall id | DirOf(w', id).git ensures id in w'.rows && id in w'.created {
        assert DirOf(w, id).git;
      }
      forall id | id in w'.created && !DirOf(w', id).git ensures id in w'.attempted {
        assert DirOf(w, id).git || id in w.attempted;
      }
    }
  }

  ghost predicate Possibly(w: World, events: seq<Event>)
    decreases |events|
  {
    events == [] || (Possible(w, events[0]) && Possibly(Happen(w, events[0]), events[1..]))
  }

  ghost function RunAll(w: World, events: seq<Event>): World
    requires Possibly(w, events)
    decreases |events|
  {
    if events == [] then w else RunAll(Happen(w, events[0]), events[1..])
  }

  /** In every reachable state, whatever crashed before: each repository still has its row, and each
      repository that is gone was first offered to `git bundle`. */
  lemma {:induction false} AlwaysSound(w: World, events: seq<Event>)
    requires Sound(w) && Possibly(w, events)
    ensures Sound(RunAll(w, events))
    decreases |events|
  {
    if events != [] {
      StepSound(w, events[0]);
      AlwaysSound(Happen(w, events[0]), events[1..]);
    }
  }

  // ---- the accounts add up, and the work gets done ----

  /** A pass that is not cut short accounts for every listed site exactly once. */
  lemma {:induction false} AccountsAddUp(w: World, sites: seq<SiteId>, fates: seq<Fate>, backupDir: bool, t: Tally)
    requires |fates| == |sites| && ReapList(w, sites, fates, backupDir, t).whole
    ensures
      var t' := ReapList(w, sites, fates, backupDir, t).tally;
      t'.reaped + t'.skipped + t'.errors == t.reaped + t.skipped + t.errors + |sites|
    decreases |sites|
  {
    if sites != [] {
      var (w', v) := ReapSite(w, sites[0], backupDir, fates[0]);
      AccountsAddUp(w', sites[1..], fates[1..], backupDir, Count(t, v));
    }
  }

  /** When a site counts as reaped: it had a repository, which was bundled or at least tried, removed, and its
      row purged without an error. As skipped: it had none, and its row was purged without an error. */
  lemma VerdictExactly(w: World, id: SiteId, backupDir: bool, f: Fate)
    ensures
      var (w', v) := ReapSite(w, id, backupDir, f);
      (v.Reaped? <==>
        f.stat == Fine && DirOf(w, id).git && backupDir && f.mkdir == Fine && f.bundle != Crashes &&
        f.remove == Fine && f.purge == Fine) &&
      (v.Skipped? <==> f.stat == Fine && !DirOf(w, id).git && f.purge == Fine) &&
      (v.Reaped? || v.Skipped? ==> id !in w'.rows && !DirOf(w', id).git) &&
      (v.Reaped? ==> id in w'.attempted && DirOf(w', id) == GONE) &&
      (v.Skipped? ==> w' == w.(rows := w.rows - {id}))
  {}

  /** What each site of a pass came to, as far as the pass got. */
  function Verdicts(w: World, sites: seq<SiteId>, fates: seq<Fate>, backupDir: bool): seq<Verdict>
    requires |fates| == |sites|
    decreases |sites|
  {
    if sites == [] || fates[0].cancelled then []
    else
      var (w', v) := ReapSite(w, sites[0], backupDir, fates[0]);
      [v] + if v.Crashed? then [] else Verdicts(w', sites[1..], fates[1..], backupDir)
  }

  function HowMany(vs: seq<Verdict>, v: Verdict): nat {
    if vs == [] then 0 else (if vs[0] == v then 1 else 0) + HowMany(vs[1..], v)
  }

  /** Each counter of a pass, cut short or not, is the number of sites with that outcome. */
  lemma {:induction false} CountersExactly(w: World, sites: seq<SiteId>, fates: seq<Fate>, backupDir: bool, t: Tally)
    requires |fates| == |sites|
    ensures
      var t', vs := ReapList(w, sites, fates, backupDir, t).tally, Verdicts(w, sites, fates, backupDir);
      t'.reaped == t.reaped + HowMany(vs, Reaped) && t'.skipped == t.skipped + HowMany(vs, Skipped) &&
      t'.errors == t.errors + HowMany(vs, Failed)
    decreases |sites|
  {
    hide ReapSite;
    if sites != [] && !fates[0].cancelled {
      var (w', v) := ReapSite(w, sites[0], backupDir, fates[0]);
      var vs := Verdicts(w, sites, fates, backupDir);
      if v.Crashed? {
        assert vs == [v];
      } else {
        assert vs[0] == v && vs[1..] == Verdicts(w', sites[1..], fates[1..], backupDir);
        CountersExactly(w', sites[1..], fates[1..], backupDir, Count(t, v));
      }
    }
  }

  function Smooth(n: nat): (r: seq<Fate>)
    ensures |r| == n
  {
    seq(n, _ => SMOOTH)
  }

  /** An undisturbed pass purges every listed row and removes every listed repository, from any state. */
  lemma {:induction false} SmoothPass(w: World, sites: seq<SiteId>, t: Tally)
    ensures
      var pass := ReapList(w, sites, Smooth(|sites|), true, t);
      pass.whole && pass.tally.errors == t.errors &&
      (forall id :: id in pass.w.rows <==> id in w.rows && id !in sites) &&
      (forall id :: id in pass.w.rows ==> pass.w.rows[id] == w.rows[id]) &&
      (forall id :: id in sites ==> !DirOf(pass.w, id).git) &&
      (forall id :: !DirOf(w, id).git ==> !DirOf(pass.w, id).git)
    decreases |sites|
  {
    if sites != [] {
      var (w', v) := ReapSite(w, sites[0], true, SMOOTH);
      assert Smooth(|sites|)[1..] == Smooth(|sites| - 1);
      SmoothPass(w', sites[1..], Count(t, v));
      assert sites == [sites[0]] + sites[1..];
    }
  }

  /** From any crash state a later undisturbed pass finishes the job, and the one after it has nothing to do. */
  lemma Converges(w: World, cutoff: int, sites: seq<SiteId>, again: seq<SiteId>, fates: seq<Fate>)
    requires IsListing(w, cutoff, sites)
    requires IsListing(ReapList(w, sites, Smooth(|sites|), true, Tally(0, 0, 0)).w, cutoff, again) && |fates| == |again|
    ensures
      var w' := ReapList(w, sites, Smooth(|sites|), true, Tally(0, 0, 0)).w;
      (forall id :: PastGrace(w, id, cutoff) ==> id !in w'.rows && !DirOf(w', id).git) &&
      (forall id :: id in w.rows && !PastGrace(w, id, cutoff) ==> id in w'.rows) &&
      again == [] && ReapList(w', again, fates, true, Tally(0, 0, 0)) == Pass(w', Tally(0, 0, 0), true)
  {
    SmoothPass(w, sites, Tally(0, 0, 0));
    var w' := ReapList(w, sites, Smooth(|sites|), true, Tally(0, 0, 0)).w;
    forall id ensures !PastGrace(w', id, cutoff) {
      assert id in sites <==> PastGrace(w, id, cutoff);
    }
    assert Elements(again) == {};
    NoElements(again);
  }

  // ---- two limits of the protocol ----

  /** A row is purged with part of its directory left behind exactly when its .git had already gone and
      something else had not: only .git is looked for. */
  lemma LeftoversExactly(w: World, id: SiteId, backupDir: bool, f: Fate)
    requires id in w.rows && id !in ReapSite(w, id, backupDir, f).0.rows
    ensures DirOf(ReapSite(w, id, backupDir, f).0, id) != GONE <==> DirOf(w, id) == TORN
  {}

  /** That state is one failed removal away. */
  lemma LeftoversReachable(w: World, id: SiteId)
    requires id in w.rows && DirOf(w, id) == Dir(true, true)
    ensures
      var torn := SMOOTH.(remove := Fails, left := Dir(false, true));
      var (w1, v1) := ReapSite(w, id, true, torn);
      var (w2, v2) := ReapSite(w1, id, true, SMOOTH);
      v1.Failed? && id in w1.rows && v2.Skipped? && id !in w2.rows && DirOf(w2, id) == Dir(false, true)
  {}

  /** A reaped site's history is in a bundle exactly when this bundle, or an earlier one, succeeded:
      a failed bundle does not stop the removal. */
  lemma RecoverableExactly(w: World, id: SiteId, f: Fate)
    requires ReapSite(w, id, true, f).1.Reaped?
    ensures id in ReapSite(w, id, true, f).0.bundled <==> id in w.bundled || f.bundle == Fine
    ensures id in ReapSite(w, id, true, f).0.attempted
  {}

  // ---- both limits over whole runs ----

  const EMPTY_WORLD := World(map[], map[], {}, {}, {})

  /** `git bundle` is reached for the site, and succeeds. */
  predicate BundleSucceeds(w: World, id: SiteId, backupDir: bool, f: Fate) {
    f.stat == Fine && DirOf(w, id).git && backupDir && f.mkdir == Fine && f.bundle == Fine
  }

  predicate PassBundles(w: World, sites: seq<SiteId>, fates: seq<Fate>, backupDir: bool, id: SiteId)
    requires |fates| == |sites|
    decreases |sites|
  {
    if sites == [] || fates[0].cancelled then false
    else
      var (w', v) := ReapSite(w, sites[0], backupDir, fates[0]);
      (sites[0] == id && BundleSucceeds(w, id, backupDir, fates[0])) ||
      (!v.Crashed? && PassBundles(w', sites[1..], fates[1..], backupDir, id))
  }

  ghost predicate RunBundles(w: World, events: seq<Event>, id: SiteId)
    requires Possibly(w, events)
    decreases |events|
  {
    if events == [] then false
    else
      (events[0].Reap? && PassBundles(w, events[0].sites, events[0].fates, events[0].backupDir, id)) ||
      RunBundles(Happen(w, events[0]), events[1..], id)
  }

  lemma {:induction false} PassBundled(w: World, sites: seq<SiteId>, fates: seq<Fate>, backupDir: bool,
                                       t: Tally, id: SiteId)
    requires |fates| == |sites|
    ensures id in ReapList(w, sites, fates, backupDir, t).w.bundled <==>
      id in w.bundled || PassBundles(w, sites, fates, backupDir, id)
    decreases |sites|
  {
    if sites != [] && !fates[0].cancelled {
      var (w', v) := ReapSite(w, sites[0], backupDir, fates[0]);
      if !v.Crashed? { PassBundled(w', sites[1..], fates[1..], backupDir, Count(t, v), id); }
    }
  }

  lemma {:induction false} RunBundled(w: World, events: seq<Event>, id: SiteId)
    requires Possibly(w, events)
    ensures id in RunAll(w, events).bundled <==> id in w.bundled || RunBundles(w, events, id)
    decreases |events|
  {
    if events != [] {
      var ev := events[0];
      if ev.Reap? { PassBundled(w, ev.sites, ev.fates, ev.backupDir, Tally(0, 0, 0), id); }
      RunBundled(Happen(w, ev), events[1..], id);
    }
  }

  /** In every reachable state: a site whose repository is gone was offered to `git bundle`, and its history
      is in a bundle exactly when one of those attempts succeeded. */
  lemma RecoverableInRuns(events: seq<Event>, id: SiteId)
    requires Possibly(EMPTY_WORLD, events)
    ensures
      var w := RunAll(EMPTY_WORLD, events);
      id in w.created && !DirOf(w, id).git ==>
        id in w.attempted && (id in w.bundled <==> RunBundles(EMPTY_WORLD, events, id))
  {
    AlwaysSound(EMPTY_WORLD, events);
    RunBundled(EMPTY_WORLD, events, id);
  }

  /** A run that loses a history: one bundle fails, everything else goes well. */
  lemma LossReachable(id: SiteId)
    ensures
      var events := [Create(id), SoftDelete(id, 0), Reap(1, [id], [SMOOTH.(bundle := Fails)], true)];
      Possibly(EMPTY_WORLD, events) &&
      var w := RunAll(EMPTY_WORLD, events);
      id in w.created && id !in w.rows && DirOf(w, id) == GONE && id !in w.bundled
  {
    ReapedAlone(id, SMOOTH.(bundle := Fails));
  }

  lemma ReapOneSite(w: World, id: SiteId, f: Fate, t: Tally)
    requires !f.cancelled
    ensures ReapList(w, [id], [f], true, t).w == ReapSite(w, id, true, f).0
  {
    hide ReapSite;
    var w' := ReapSite(w, id, true, f).0;
    assert [id][1..] == [] && [f][1..] == [];
    assert forall t' :: ReapList(w', [], [], true, t').w == w';
  }

  /** One site, created, deleted and reaped once. */
  lemma ReapedAlone(id: SiteId, f: Fate)
    requires !f.cancelled
    ensures
      var deleted := World(map[id := Some(0)], map[id := Dir(true, true)], {}, {}, {id});
      var events := [Create(id), SoftDelete(id, 0), Reap(1, [id], [f], true)];
      Possibly(EMPTY_WORLD, events) && RunAll(EMPTY_WORLD, events) == ReapSite(deleted, id, true, f).0
  {
    hide ReapSite;
    var created := World(map[id := None], map[id := Dir(true, true)], {}, {}, {id});
    var deleted := World(map[id := Some(0)], map[id := Dir(true, true)], {}, {}, {id});
    var a, b, c := Create(id), SoftDelete(id, 0), Reap(1, [id], [f], true);
    assert Happen(EMPTY_WORLD, a) == created && Happen(created, b) == deleted;
    ReapOneSite(deleted, id, f, Tally(0, 0, 0));
    assert Happen(deleted, c) == ReapSite(deleted, id, true, f).0;
    assert IsListing(deleted, 1, [id]);
    assert [a, b, c][1..] == [b, c] && [b, c][1..] == [c] && [c][1..] == [];
    assert Possibly(deleted, [c]) && RunAll(deleted, [c]) == Happen(deleted, c);
    assert Possibly(created, [b, c]) && RunAll(created, [b, c]) == RunAll(deleted, [c]);
  }

  /** The site's removal is reached, takes the .git, and leaves something else. */
  predicate TornBy(w: World, id: SiteId, backupDir: bool, f: Fate) {
    f.stat == Fine && DirOf(w, id) == Dir(true, true) && backupDir && f.mkdir == Fine && f.bundle != Crashes &&
    f.remove != Fine && !f.left.git && f.left.rest
  }

  predicate PassTears(w: World, sites: seq<SiteId>, fates: seq<Fate>, backupDir: bool, id: SiteId)
    requires |fates| == |sites|
    decreases |sites|
  {
    if sites == [] || fates[0].cancelled then false
    else
      var (w', v) := ReapSite(w, sites[0], backupDir, fates[0]);
      (sites[0] == id && TornBy(w, id, backupDir, fates[0])) ||
      (!v.Crashed? && PassTears(w', sites[1..], fates[1..], backupDir, id))
  }

  ghost predicate RunTears(w: World, events: seq<Event>, id: SiteId)
    requires Possibly(w, events)
    decreases |events|
  {
    if events == [] then false
    else
      (events[0].Reap? && PassTears(w, events[0].sites, events[0].fates, events[0].backupDir, id)) ||
      RunTears(Happen(w, events[0]), events[1..], id)
  }

  lemma SiteTorn(w: World, x: SiteId, backupDir: bool, f: Fate, id: SiteId)
    ensures
      DirOf(ReapSite(w, x, backupDir, f).0, id) == TORN <==>
        DirOf(w, id) == TORN || (x == id && TornBy(w, id, backupDir, f))
  {}

  lemma {:induction false} PassTorn(w: World, sites: seq<SiteId>, fates: seq<Fate>, backupDir: bool,
                                    t: Tally, id: SiteId)
    requires |fates| == |sites|
    ensures
      DirOf(ReapList(w, sites, fates, backupDir, t).w, id) == TORN <==>
        DirOf(w, id) == TORN || PassTears(w, sites, fates, backupDir, id)
    decreases |sites|
  {
    hide ReapSite, TornBy;
    if sites != [] && !fates[0].cancelled {
      var (w', v) := ReapSite(w, sites[0], backupDir, fates[0]);
      SiteTorn(w, sites[0], backupDir, fates[0], id);
      if v.Crashed? {
        assert ReapList(w, sites, fates, backupDir, t).w == w';
      } else {
        PassTorn(w', sites[1..], fates[1..], backupDir, Count(t, v), id);
      }
    }
  }

  lemma {:induction false} RunTorn(w: World, events: seq<Event>, id: SiteId)
    requires Possibly(w, events)
    ensures DirOf(RunAll(w, events), id) == TORN <==> DirOf(w, id) == TORN || RunTears(w, events, id)
    decreases |events|
  {
    if events != [] {
      var ev := events[0];
      if ev.Reap? { PassTorn(w, ev.sites, ev.fates, ev.backupDir, Tally(0, 0, 0), id); }
      RunTorn(Happen(w, ev), events[1..], id);
    }
  }

  /** Which runs leave something on disk for a site that has no row: exactly those in which, at some point,
      the removal of its directory was reached, took the .git and left something else. */
  lemma LeftoversInRuns(events: seq<Event>, id: SiteId)
    requires Possibly(EMPTY_WORLD, events)
    ensures
      var w := RunAll(EMPTY_WORLD, events);
      id !in w.rows ==> (DirOf(w, id) != GONE <==> RunTears(EMPTY_WORLD, events, id))
  {
    AlwaysSound(EMPTY_WORLD, events);
    RunTorn(EMPTY_WORLD, events, id);
  }

  class Ops {
    var rows: map<SiteId, Option<int>>
    var dirs: map<SiteId, Dir>
    ghost var attempted: set<SiteId>
    ghost var bundled: set<SiteId>
    ghost var created: set<SiteId>
    const backupDir: bool

    ghost function W(): World
      reads this
    {
      World(rows, dirs, attempted, bundled, created)
    }

    constructor (ghost w: World, rows: map<SiteId, Option<int>>, dirs: map<SiteId, Dir>, backupDir: bool)
      requires w.rows == rows && w.dirs == dirs
      ensures W() == w && this.backupDir == backupDir
    {
      this.rows, this.dirs, this.backupDir := rows, dirs, backupDir;
      attempted, bundled, created := w.attempted, w.bundled, w.created;
    }

    /** HardDeleteSite, as it may turn out. */
    method HardDelete(id: SiteId, f: Fate)
      modifies this`rows
      ensures W() == Purge(old(W()), id, f)
    {
      if f.purge == Fine || f.purged {
        rows := rows - {id};
      }
    }

    /** bundle: an unconfigured or uncreatable backup directory is an error, a failing `git bundle` is not. */
    method Bundle(id: SiteId, f: Fate) returns (out: Out)
      modifies this`attempted, this`bundled
      ensures !backupDir ==> out == Fails && W() == old(W())
      ensures backupDir && f.mkdir != Fine ==> out == f.mkdir && W() == old(W())
      ensures backupDir && f.mkdir == Fine ==>
        out == (if f.bundle == Crashes then Crashes else Fine) &&
        W() == old(W()).(attempted := old(attempted) + {id},
                         bundled := if f.bundle == Fine then old(bundled) + {id} else old(bundled))
    {
      if !backupDir {
        return Fails;
      }
      if f.mkdir != Fine {
        return f.mkdir;
      }
      attempted := attempted + {id};
      if f.bundle == Crashes {
        return Crashes;
      }
      if f.bundle == Fine {
        bundled := bundled + {id};
      }
      return Fine;
    }

    method ReapOne(id: SiteId, f: Fate) returns (v: Verdict)
      modifies this
      ensures (W(), v) == ReapSite(old(W()), id, backupDir, f)
    {
      if f.stat != Fine {
        return if f.stat == Fails then Failed else Crashed;
      }
      var found := id in dirs && dirs[id].git;
      if !found {
        HardDelete(id, f);
        return if f.purge == Fine then Skipped else if f.purge == Fails then Failed else Crashed;
      }
      var out := Bundle(id, f);
      if out != Fine {
        return if out == Fails then Failed else Crashed;
      }
      dirs := dirs[id := Remains(dirs[id], f)];
      if f.remove != Fine {
        return if f.remove == Fails then Failed else Crashed;
      }
      HardDelete(id, f);
      return if f.purge == Fine then Reaped else if f.purge == Fails then Failed else Crashed;
    }

    /** Reap, on the listing the store gave. */
    method Reap(sites: seq<SiteId>, fates: seq<Fate>) returns (t: Tally, whole: bool)
      requires |fates| == |sites|
      modifies this
      ensures Pass(W(), t, whole) == ReapList(old(W()), sites, fates, backupDir, Tally(0, 0, 0))
    {
      t := Tally(0, 0, 0);
      for i := 0 to |sites|
        invariant ReapList(W(), sites[i..], fates[i..], backupDir, t)
               == ReapList(old(W()), sites, fates, backupDir, Tally(0, 0, 0))
      {
        assert sites[i..][1..] == sites[i + 1..] && fates[i..][1..] == fates[i + 1..];
        if fates[i].cancelled {
          return t, false;
        }
        var v := ReapOne(sites[i], fates[i]);
        if v.Crashed? {
          return t, false;
        }
        t := Count(t, v);
      }
      return t, true;
    }
  }
}
