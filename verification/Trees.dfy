/**
 Tree snapshots (path -> content) and the comparisons made on them:
 conflict detection, the union merge, equality and the diff.
 backend/internal/site/fake_helpers.go
 */
module Trees {
  import opened Prelude
  import opened Text

  type Content = seq<bv8>
  type Tree = map<string, Content>

  // ---- what the helpers are supposed to mean ----

  ghost predicate Changed(base: Tree, t: Tree, p: string) {
    Lookup(base, p) != Lookup(t, p)
  }

  /** Both sides changed `p` since the base and did not end up the same. */
  ghost predicate Clash(pub: Tree, src: Tree, base: Tree, p: string) {
    Changed(base, pub, p) && Changed(base, src, p) && Lookup(pub, p) != Lookup(src, p)
  }

  ghost function ClashesIn(ps: set<string>, pub: Tree, src: Tree, base: Tree): set<string> {
    set p | p in ps && Clash(pub, src, base, p)
  }

  ghost function Clashes(pub: Tree, src: Tree, base: Tree): set<string> {
    ClashesIn(pub.Keys + src.Keys, pub, src, base)
  }

  /** No clashing path is missed by looking only at the paths of the two sides. */
  lemma ClashesComplete(pub: Tree, src: Tree, base: Tree, p: string)
    ensures p in Clashes(pub, src, base) <==> Clash(pub, src, base, p)
  {
    if p !in pub && p !in src {
      assert Lookup(pub, p) == Lookup(src, p) == None;
    }
  }

  /** What a three-way merge leaves at `p`: the side that changed it wins. */
  ghost function MergedAt(pub: Tree, src: Tree, base: Tree, p: string): Option<Content> {
    if Changed(base, src, p) then Lookup(src, p) else Lookup(pub, p)
  }

  ghost function ThreeWay(pub: Tree, src: Tree, base: Tree): Tree {
    map p | p in pub.Keys + src.Keys && MergedAt(pub, src, base, p).Some? :: MergedAt(pub, src, base, p).value
  }

  lemma ThreeWayAt(pub: Tree, src: Tree, base: Tree, p: string)
    ensures Lookup(ThreeWay(pub, src, base), p) == MergedAt(pub, src, base, p)
  {
    if p !in pub && p !in src {
      assert Lookup(pub, p) == Lookup(src, p) == None;
    }
  }

  lemma SameTree(a: Tree, b: Tree)
    requires forall p :: Lookup(a, p) == Lookup(b, p)
    ensures a == b
  {
    forall p | p in a.Keys ensures p in b.Keys && a[p] == b[p] { assert Lookup(a, p) == Lookup(b, p); }
    forall p | p in b.Keys ensures p in a.Keys { assert Lookup(a, p) == Lookup(b, p); }
    assert a.Keys == b.Keys;
  }

  /** Without clashes a three-way merge does not care which side is called which. */
  lemma ThreeWaySymmetric(pub: Tree, src: Tree, base: Tree)
    requires Clashes(pub, src, base) == {}
    ensures ThreeWay(pub, src, base) == ThreeWay(src, pub, base)
  {
    forall p ensures Lookup(ThreeWay(pub, src, base), p) == Lookup(ThreeWay(src, pub, base), p) {
      ThreeWayAt(pub, src, base, p);
      ThreeWayAt(src, pub, base, p);
      ClashesComplete(pub, src, base, p);
    }
    SameTree(ThreeWay(pub, src, base), ThreeWay(src, pub, base));
  }

  /** The source deleted `p`, and published still has it: the union brings it back. */
  ghost predicate Resurrects(pub: Tree, src: Tree, base: Tree, p: string) {
    p in base && p !in src && p in pub
  }

  /** The source left `p` alone and published changed or deleted it: the union undoes that. */
  ghost predicate Reverts(pub: Tree, src: Tree, base: Tree, p: string) {
    p in base && p in src && src[p] == base[p] && Lookup(pub, p) != Lookup(base, p)
  }

  lemma UnionAt(pub: Tree, src: Tree, base: Tree, p: string)
    requires Clashes(pub, src, base) == {}
    ensures Lookup(pub + src, p) == MergedAt(pub, src, base, p)
       <==> !Resurrects(pub, src, base, p) && !Reverts(pub, src, base, p)
  {
    ClashesComplete(pub, src, base, p);
  }

  /** The exact boundary of "publish merges cleanly": the union is the three-way merge
      if and only if it neither resurrects nor reverts a path. */
  lemma UnionIsThreeWay(pub: Tree, src: Tree, base: Tree)
    requires Clashes(pub, src, base) == {}
    ensures pub + src == ThreeWay(pub, src, base)
       <==> (forall p :: !Resurrects(pub, src, base, p) && !Reverts(pub, src, base, p))
  {
    forall p
      ensures Lookup(pub + src, p) == Lookup(ThreeWay(pub, src, base), p)
         <==> !Resurrects(pub, src, base, p) && !Reverts(pub, src, base, p)
    {
      UnionAt(pub, src, base, p);
      ThreeWayAt(pub, src, base, p);
    }
    if forall p :: !Resurrects(pub, src, base, p) && !Reverts(pub, src, base, p) {
      SameTree(pub + src, ThreeWay(pub, src, base));
    }
  }

  // ---- the helpers themselves ----

  /** One `consider(path)` of conflictingPaths. */
  method Consider(pub: Tree, src: Tree, base: Tree, path: string, conflicts: seq<string>, seen: set<string>)
    returns (conflicts': seq<string>, seen': set<string>)
    requires Distinct(conflicts) && Elements(conflicts) == ClashesIn(seen, pub, src, base)
    requires path in pub || path in src
    ensures seen' == seen + {path}
    ensures Distinct(conflicts') && Elements(conflicts') == ClashesIn(seen', pub, src, base)
  {
    if path in seen {
      assert seen + {path} == seen;
      return conflicts, seen;
    }
    seen' := seen + {path};
    conflicts' := conflicts;
    var baseHad, pubHad, srcHad := path in base, path in pub, path in src;
    var pubChanged := pubHad != baseHad || (pubHad && baseHad && pub[path] != base[path]);
    var srcChanged := srcHad != baseHad || (srcHad && baseHad && src[path] != base[path]);
    assert path !in conflicts by { assert path !in Elements(conflicts); }
    if pubChanged && srcChanged && !(pubHad && srcHad && pub[path] == src[path]) {
      conflicts' := conflicts + [path];
      assert Elements(conflicts') == Elements(conflicts) + {path};
      assert ClashesIn(seen', pub, src, base) == ClashesIn(seen, pub, src, base) + {path};
    } else {
      assert ClashesIn(seen', pub, src, base) == ClashesIn(seen, pub, src, base);
    }
  }

  /** conflictingPaths: exactly the clashing paths, sorted, once each, whatever order the maps are walked in. */
  method ConflictingPaths(pub: Tree, src: Tree, base: Tree) returns (conflicts: seq<string>)
    ensures conflicts == Sorted(Clashes(pub, src, base))
  {
    conflicts := [];
    var seen: set<string> := {};
    var todo := pub.Keys;
    while todo != {}
      invariant todo <= pub.Keys && seen == pub.Keys - todo
      invariant Distinct(conflicts) && Elements(conflicts) == ClashesIn(seen, pub, src, base)
    {
      var p :| p in todo;
      conflicts, seen := Consider(pub, src, base, p, conflicts, seen);
      todo := todo - {p};
    }
    todo := src.Keys;
    while todo != {}
      invariant todo <= src.Keys && seen == pub.Keys + (src.Keys - todo)
      invariant Distinct(conflicts) && Elements(conflicts) == ClashesIn(seen, pub, src, base)
    {
      var p :| p in todo;
      conflicts, seen := Consider(pub, src, base, p, conflicts, seen);
      todo := todo - {p};
    }
    assert seen == pub.Keys + src.Keys;
    conflicts := SortStrings(conflicts);
    SortedIs(conflicts, Clashes(pub, src, base));
  }

  /** mergeTrees: the source wins wherever it has the path. */
  method MergeTrees(pub: Tree, src: Tree) returns (out: Tree)
    ensures forall p :: Lookup(out, p) == if p in src then Some(src[p]) else Lookup(pub, p)
    ensures out == pub + src
  {
    out := pub;
    var todo := src.Keys;
    while todo != {}
      invariant todo <= src.Keys
      invariant forall p :: Lookup(out, p) == if p in src && p !in todo then Some(src[p]) else Lookup(pub, p)
    {
      var k :| k in todo;
      out := out[k := src[k]];
      todo := todo - {k};
    }
    SameTree(out, pub + src);
  }

  /** treesEqual: comparing sizes and walking one side is enough. */
  method TreesEqual(a: Tree, b: Tree) returns (r: bool)
    ensures r <==> a == b
  {
    if |a| != |b| {
      return false;
    }
    var todo := a.Keys;
    while todo != {}
      invariant todo <= a.Keys
      invariant forall k :: k in a && k !in todo ==> k in b && a[k] == b[k]
    {
      var k :| k in todo;
      if k !in b || a[k] != b[k] {
        return false;
      }
      todo := todo - {k};
    }
    assert a.Keys <= b.Keys;
    SubsetCard(a.Keys, b.Keys);
    return true;
  }

  datatype Status = Added | Modified | Deleted

  datatype FileDiff = FileDiff(path: string, status: Status)

  function PathOf(d: FileDiff): string { d.path }

  ghost predicate InScope(filter: string, p: string) {
    filter == "" || p == filter
  }

  /** The paths in scope where two trees differ. */
  ghost function DiffSet(from: Tree, to: Tree, filter: string): set<string> {
    set p | p in from.Keys + to.Keys && Changed(from, to, p) && InScope(filter, p)
  }

  ghost function StatusOf(from: Tree, to: Tree, p: string): Status {
    if p !in from then Added else if p !in to then Deleted else Modified
  }

  /** A diff lists exactly the differing paths, ascending, each with its status. */
  ghost predicate IsDiff(files: seq<FileDiff>, from: Tree, to: Tree, filter: string) {
    KeysOf(files, PathOf) == Sorted(DiffSet(from, to, filter)) &&
    forall i :: 0 <= i < |files| ==> files[i].status == StatusOf(from, to, files[i].path)
  }

  /** The part of a diff that has been collected when `done` has been looked at. */
  ghost predicate Collected(files: seq<FileDiff>, from: Tree, to: Tree, filter: string, done: set<string>) {
    Distinct(KeysOf(files, PathOf)) &&
    (forall d :: d in files ==> d.status == StatusOf(from, to, d.path)) &&
    forall p :: p in KeysOf(files, PathOf) <==> p in done && p in DiffSet(from, to, filter)
  }

  lemma CollectOne(files: seq<FileDiff>, from: Tree, to: Tree, filter: string, done: set<string>, d: FileDiff)
    requires Collected(files, from, to, filter, done)
    requires d.path !in done && d.path in DiffSet(from, to, filter) && d.status == StatusOf(from, to, d.path)
    ensures Collected(files + [d], from, to, filter, done + {d.path})
  {
    assert KeysOf(files + [d], PathOf) == KeysOf(files, PathOf) + [d.path];
  }

  /** diffTrees: two walks in any order and one sort. */
  method DiffTrees(from: Tree, to: Tree, filter: string) returns (files: seq<FileDiff>)
    ensures IsDiff(files, from, to, filter)
  {
    files := [];
    ghost var done: set<string> := {};
    var todo := to.Keys;
    while todo != {}
      invariant todo <= to.Keys && done == to.Keys - todo
      invariant Collected(files, from, to, filter, done)
    {
      var p :| p in todo;
      todo := todo - {p};
      if filter == "" || p == filter {
        if p !in from {
          CollectOne(files, from, to, filter, done, FileDiff(p, Added));
          files := files + [FileDiff(p, Added)];
        } else if from[p] != to[p] {
          CollectOne(files, from, to, filter, done, FileDiff(p, Modified));
          files := files + [FileDiff(p, Modified)];
        }
      }
      done := done + {p};
    }
    todo := from.Keys;
    while todo != {}
      invariant todo <= from.Keys && done == to.Keys + (from.Keys - todo)
      invariant Collected(files, from, to, filter, done)
    {
      var p :| p in todo;
      todo := todo - {p};
      if (filter == "" || p == filter) && p !in to {
        CollectOne(files, from, to, filter, done, FileDiff(p, Deleted));
        files := files + [FileDiff(p, Deleted)];
      }
      done := done + {p};
    }
    FinishDiff(files, from, to, filter, done);
    files := SortBy(files, PathOf);
  }

  lemma FinishDiff(files: seq<FileDiff>, from: Tree, to: Tree, filter: string, done: set<string>)
    requires Collected(files, from, to, filter, done) && done == to.Keys + from.Keys
    ensures IsDiff(SortBy(files, PathOf), from, to, filter)
  {
    var sorted := SortBy(files, PathOf);
    var ks := KeysOf(sorted, PathOf);
    forall p ensures p in ks <==> p in DiffSet(from, to, filter) {
      if p in ks {
        var i :| 0 <= i < |ks| && ks[i] == p;
        assert sorted[i] in files;
        var j :| 0 <= j < |files| && files[j] == sorted[i];
        assert KeysOf(files, PathOf)[j] == p;
      }
      if p in DiffSet(from, to, filter) {
        assert p in KeysOf(files, PathOf);
        var j :| 0 <= j < |files| && KeysOf(files, PathOf)[j] == p;
        assert files[j] in sorted;
        var i :| 0 <= i < |sorted| && sorted[i] == files[j];
        assert ks[i] == p;
      }
    }
    assert Elements(ks) == DiffSet(from, to, filter);
    SortedIs(ks, DiffSet(from, to, filter));
  }

  /** An unfiltered diff is empty exactly when the trees are equal. */
  lemma DiffEmpty(files: seq<FileDiff>, from: Tree, to: Tree)
    requires IsDiff(files, from, to, "")
    ensures files == [] <==> from == to
  {
    NoElements(KeysOf(files, PathOf));
    if from == to {
      assert DiffSet(from, to, "") == {};
    } else if files == [] {
      assert DiffSet(from, to, "") == {};
      forall p ensures Lookup(from, p) == Lookup(to, p) {
        assert p !in DiffSet(from, to, "");
      }
      SameTree(from, to);
    }
  }

  function Flip(s: Status): Status {
    match s
    case Added => Deleted
    case Deleted => Added
    case Modified => Modified
  }

  /** Diffing the other way round lists the same paths with added and deleted exchanged. */
  lemma DiffFlips(there: seq<FileDiff>, back: seq<FileDiff>, from: Tree, to: Tree, filter: string)
    requires IsDiff(there, from, to, filter) && IsDiff(back, to, from, filter)
    ensures |there| == |back|
    ensures forall i :: 0 <= i < |there| ==> back[i] == FileDiff(there[i].path, Flip(there[i].status))
  {
    assert DiffSet(from, to, filter) == DiffSet(to, from, filter);
    var ks, ks' := KeysOf(there, PathOf), KeysOf(back, PathOf);
    assert ks == ks';
    forall i | 0 <= i < |there| ensures back[i] == FileDiff(there[i].path, Flip(there[i].status)) {
      assert ks[i] == there[i].path && ks'[i] == back[i].path;
      assert ks[i] in Elements(Sorted(DiffSet(from, to, filter)));
    }
  }
}
