/** The string operations the program takes from Go's standard library. */
module Text {
  import opened Prelude

  // ---- case and blanks ----

  function LowerChar(c: char): char {
    if 'A' <= c <= 'Z' then (c as int + 32) as char else c
  }

  /** strings.ToLower, on ASCII letters. */
  function ToLower(s: string): (r: string)
    ensures |r| == |s|
    ensures forall i :: 0 <= i < |s| ==> r[i] == LowerChar(s[i])
  {
    seq(|s|, i requires 0 <= i < |s| => LowerChar(s[i]))
  }

  predicate IsLower(s: string) {
    forall i :: 0 <= i < |s| ==> !('A' <= s[i] <= 'Z')
  }

  lemma LowerFixed(s: string)
    ensures IsLower(s) <==> ToLower(s) == s
    ensures IsLower(ToLower(s))
  {
    if !IsLower(s) {
      var i :| 0 <= i < |s| && 'A' <= s[i] <= 'Z';
      assert ToLower(s)[i] != s[i];
    }
  }

  // ---- searching ----

  /** strings.Index: where `sub` first starts in `s`. */
  function Index(s: string, sub: string): (r: Option<nat>)
    ensures r.Some? ==> OccursAt(s, sub, r.value)
    ensures r.Some? ==> forall i :: 0 <= i < r.value ==> !OccursAt(s, sub, i)
    ensures r.None? ==> forall i :: 0 <= i <= |s| ==> !OccursAt(s, sub, i)
  {
    IndexFrom(s, sub, 0)
  }

  predicate OccursAt(s: string, sub: string, i: int) {
    0 <= i && i + |sub| <= |s| && s[i..i + |sub|] == sub
  }

  function IndexFrom(s: string, sub: string, from: nat): (r: Option<nat>)
    requires from <= |s| + 1
    ensures r.Some? ==> from <= r.value && OccursAt(s, sub, r.value)
    ensures r.Some? ==> forall i :: from <= i < r.value ==> !OccursAt(s, sub, i)
    ensures r.None? ==> forall i :: from <= i <= |s| ==> !OccursAt(s, sub, i)
    decreases |s| + 1 - from
  {
    if from + |sub| > |s| then None
    else if OccursAt(s, sub, from) then Some(from)
    else IndexFrom(s, sub, from + 1)
  }

  predicate Contains(s: string, sub: string) {
    Index(s, sub).Some?
  }

  /** strings.IndexByte. */
  function IndexChar(s: string, c: char): (r: Option<nat>)
    ensures r.Some? ==> r.value < |s| && s[r.value] == c && c !in s[..r.value]
    ensures r.None? <==> c !in s
  {
    if s == [] then None
    else if s[0] == c then Some(0)
    else
      var rest := IndexChar(s[1..], c);
      assert s == [s[0]] + s[1..];
      match rest
      case None => None
      case Some(i) => assert s[..i + 1] == [s[0]] + s[1..][..i]; Some(i + 1)
  }

  /** strings.LastIndexByte. */
  function LastIndexChar(s: string, c: char): (r: Option<nat>)
    ensures r.Some? ==> r.value < |s| && s[r.value] == c && c !in s[r.value + 1..]
    ensures r.None? <==> c !in s
  {
    if s == [] then None
    else if s[|s| - 1] == c then Some(|s| - 1)
    else
      var front := s[..|s| - 1];
      assert s == front + [s[|s| - 1]];
      var r := LastIndexChar(front, c);
      assert r.Some? ==> s[r.value + 1..] == front[r.value + 1..] + [s[|s| - 1]];
      r
  }

  predicate HasSuffix(s: string, suffix: string) {
    |suffix| <= |s| && s[|s| - |suffix|..] == suffix
  }

  // ---- trimming ----

  function TrimLeft(s: string, blank: char -> bool): string {
    if s != [] && blank(s[0]) then TrimLeft(s[1..], blank) else s
  }

  function TrimRight(s: string, blank: char -> bool): string {
    if s != [] && blank(s[|s| - 1]) then TrimRight(s[..|s| - 1], blank) else s
  }

  function Trim(s: string, blank: char -> bool): string {
    TrimRight(TrimLeft(s, blank), blank)
  }

  /** The ASCII characters strings.TrimSpace drops. */
  predicate IsSpace(c: char) {
    c == ' ' || 9 as char <= c <= 13 as char
  }

  /** strings.TrimSpace, on ASCII blanks. */
  function TrimSpace(s: string): string {
    Trim(s, IsSpace)
  }

  /** A string that neither starts nor ends with a blank is left alone. */
  lemma TrimFixed(s: string, blank: char -> bool)
    requires s != [] ==> !blank(s[0]) && !blank(s[|s| - 1])
    ensures Trim(s, blank) == s
  {}

  lemma {:induction false} TrimmedEnds(s: string, blank: char -> bool)
    ensures
      var t := Trim(s, blank);
      t != "" ==> !blank(t[0]) && !blank(t[|t| - 1])
  {
    LeftEnd(s, blank);
    RightEnd(TrimLeft(s, blank), blank);
  }

  lemma LeftEnd(s: string, blank: char -> bool)
    ensures TrimLeft(s, blank) != "" ==> !blank(TrimLeft(s, blank)[0])
  {}

  lemma RightEnd(s: string, blank: char -> bool)
    ensures TrimRight(s, blank) <= s
    ensures TrimRight(s, blank) != "" ==> !blank(TrimRight(s, blank)[|TrimRight(s, blank)| - 1])
  {}

  lemma TrimTwice(s: string, blank: char -> bool)
    ensures Trim(Trim(s, blank), blank) == Trim(s, blank)
  {
    TrimmedEnds(s, blank);
    TrimFixed(Trim(s, blank), blank);
  }

  // ---- splitting and joining ----

  /** strings.Split on a one-character separator: never empty. */
  function Split(s: string, sep: char): (r: seq<string>)
    ensures |r| >= 1
    ensures forall i :: 0 <= i < |r| ==> sep !in r[i]
    decreases |s|
  {
    match IndexChar(s, sep)
    case None => [s]
    case Some(i) => [s[..i]] + Split(s[i + 1..], sep)
  }

  /** strings.Join. */
  function Join(parts: seq<string>, sep: char): string {
    if parts == [] then []
    else if |parts| == 1 then parts[0]
    else parts[0] + [sep] + Join(parts[1..], sep)
  }

  lemma {:induction false} JoinSplit(s: string, sep: char)
    ensures Join(Split(s, sep), sep) == s
    decreases |s|
  {
    match IndexChar(s, sep)
    case None =>
    case Some(i) =>
      JoinSplit(s[i + 1..], sep);
      assert Split(s, sep)[1..] == Split(s[i + 1..], sep);
      assert s == s[..i] + [sep] + s[i + 1..];
  }

  lemma {:induction false} SplitCons(a: string, rest: string, sep: char)
    requires sep !in a
    ensures Split(a + [sep] + rest, sep) == [a] + Split(rest, sep)
  {
    var s := a + [sep] + rest;
    assert s[|a|] == sep;
    var i := IndexChar(s, sep).value;
    assert forall k :: 0 <= k < i ==> s[..i][k] == s[k];
    assert forall k :: 0 <= k < |a| ==> s[k] == a[k] != sep;
    assert i == |a|;
    assert s[..i] == a && s[i + 1..] == rest;
  }

  lemma {:induction false} SplitJoin(parts: seq<string>, sep: char)
    requires |parts| >= 1
    requires forall i :: 0 <= i < |parts| ==> sep !in parts[i]
    ensures Split(Join(parts, sep), sep) == parts
  {
    if |parts| > 1 {
      SplitJoin(parts[1..], sep);
      SplitCons(parts[0], Join(parts[1..], sep), sep);
      assert parts == [parts[0]] + parts[1..];
    }
  }

  lemma SplitOne(s: string, sep: char)
    ensures |Split(s, sep)| == 1 <==> sep !in s
    ensures sep !in s ==> Split(s, sep) == [s]
  {}

  /** Splitting across a separator is splitting both sides. */
  lemma {:induction false} SplitAround(a: string, b: string, sep: char)
    ensures Split(a + [sep] + b, sep) == Split(a, sep) + Split(b, sep)
    decreases |a|
  {
    hide Split;
    match IndexChar(a, sep)
    case None =>
      SplitCons(a, b, sep);
      SplitOne(a, sep);
    case Some(i) =>
      var head, tail := a[..i], a[i + 1..];
      assert a == head + [sep] + tail;
      assert a + [sep] + b == head + [sep] + (tail + [sep] + b);
      SplitCons(head, tail + [sep] + b, sep);
      SplitCons(head, tail, sep);
      SplitAround(tail, b, sep);
      assert [head] + Split(tail, sep) + Split(b, sep) == [head] + (Split(tail, sep) + Split(b, sep));
  }

  /** The first separator is the one after a part that has none. */
  lemma {:induction false} FirstIndex(a: string, c: char, b: string)
    requires c !in a
    ensures IndexChar(a + [c] + b, c) == Some(|a|)
  {
    var s := a + [c] + b;
    if a != "" {
      assert s[1..] == a[1..] + [c] + b;
      FirstIndex(a[1..], c, b);
    }
  }

  /** The last separator is the one before a part that has none. */
  lemma {:induction false} LastIndexAppend(a: string, b: string, c: char)
    requires c !in b
    ensures LastIndexChar(a + [c] + b, c) == Some(|a|)
  {
    var s := a + [c] + b;
    if b != "" {
      assert s[..|s| - 1] == a + [c] + b[..|b| - 1];
      LastIndexAppend(a, b[..|b| - 1], c);
    }
  }

  // ---- the order sort.Strings uses ----

  /** Byte-wise "less than" on strings, Go's `<`. */
  predicate LexLess(a: string, b: string) {
    b != [] && (a == [] || a[0] < b[0] || (a[0] == b[0] && LexLess(a[1..], b[1..])))
  }

  lemma {:induction false} LexIrreflexive(a: string)
    ensures !LexLess(a, a)
  {
    if a != [] { LexIrreflexive(a[1..]); }
  }

  lemma {:induction false} LexTransitive(a: string, b: string, c: string)
    requires LexLess(a, b) && LexLess(b, c)
    ensures LexLess(a, c)
  {
    if a != [] && a[0] == b[0] && b[0] == c[0] { LexTransitive(a[1..], b[1..], c[1..]); }
  }

  lemma {:induction false} LexTotal(a: string, b: string)
    ensures a == b || LexLess(a, b) || LexLess(b, a)
  {
    if a != [] && b != [] && a[0] == b[0] {
      LexTotal(a[1..], b[1..]);
      if a[1..] == b[1..] { assert a == [a[0]] + a[1..]; assert b == [b[0]] + b[1..]; }
    }
  }

  /** Strictly increasing: sorted, and each string once. */
  ghost predicate Ascending(s: seq<string>) {
    forall i, j :: 0 <= i < j < |s| ==> LexLess(s[i], s[j])
  }

  /** There is only one way to list a set of strings in strictly increasing order. */
  lemma {:induction false} AscendingUnique(a: seq<string>, b: seq<string>)
    requires Ascending(a) && Ascending(b)
    requires Elements(a) == Elements(b)
    ensures a == b
  {
    if a == [] {
      NoElements(b);
    } else {
      assert a[0] in Elements(a);
      assert b != [];
      assert b[0] in Elements(b);
      HeadsAgree(a, b);
      assert a[1..] == b[1..] by {
        TailElements(a);
        TailElements(b);
        AscendingUnique(a[1..], b[1..]);
      }
      assert a == [a[0]] + a[1..] && b == [b[0]] + b[1..];
    }
  }

  lemma HeadsAgree(a: seq<string>, b: seq<string>)
    requires Ascending(a) && Ascending(b) && Elements(a) == Elements(b)
    requires a != [] && b != []
    ensures a[0] == b[0]
  {
    assert a[0] in Elements(a) && b[0] in Elements(b);
    var i :| 0 <= i < |b| && b[i] == a[0];
    var j :| 0 <= j < |a| && a[j] == b[0];
    if a[0] != b[0] {
      LexTransitive(a[0], b[0], a[0]);
      LexIrreflexive(a[0]);
    }
  }

  lemma TailElements(a: seq<string>)
    requires Ascending(a) && a != []
    ensures Elements(a[1..]) == Elements(a) - {a[0]}
  {
    assert a == [a[0]] + a[1..];
    if a[0] in a[1..] {
      var i :| 0 <= i < |a| - 1 && a[1..][i] == a[0];
      assert LexLess(a[0], a[i + 1]);
      LexIrreflexive(a[0]);
    }
  }

  // ---- sorting records by a string field ----

  function KeysOf<T>(s: seq<T>, key: T -> string): (r: seq<string>)
    ensures |r| == |s|
    ensures forall i :: 0 <= i < |s| ==> r[i] == key(s[i])
  {
    seq(|s|, i requires 0 <= i < |s| => key(s[i]))
  }

  /** sort.Slice on records with pairwise distinct keys, as insertion. */
  function SortBy<T(!new)>(s: seq<T>, key: T -> string): (r: seq<T>)
    requires Distinct(KeysOf(s, key))
    ensures Ascending(KeysOf(r, key))
    ensures forall x :: x in r <==> x in s
  {
    if s == [] then []
    else
      assert s == [s[0]] + s[1..];
      assert Distinct(KeysOf(s[1..], key)) by {
        assert KeysOf(s[1..], key) == KeysOf(s, key)[1..];
      }
      var rest := SortBy(s[1..], key);
      assert forall x :: x in rest ==> key(x) != key(s[0]) by {
        forall x | x in rest ensures key(x) != key(s[0]) {
          var i :| 0 <= i < |s| - 1 && s[1..][i] == x;
          assert KeysOf(s, key)[i + 1] == key(x);
          assert KeysOf(s, key)[0] == key(s[0]);
        }
      }
      Insert(s[0], rest, key)
  }

  function Insert<T(!new)>(x: T, s: seq<T>, key: T -> string): (r: seq<T>)
    requires Ascending(KeysOf(s, key))
    requires forall y :: y in s ==> key(y) != key(x)
    ensures Ascending(KeysOf(r, key))
    ensures forall y :: y in r <==> y in s || y == x
  {
    if s == [] then [x]
    else if LexLess(key(x), key(s[0])) then
      PrependAscending(x, s, key);
      [x] + s
    else
      LexTotal(key(x), key(s[0]));
      assert s == [s[0]] + s[1..];
      TailAscending(s, key);
      var rest := Insert(x, s[1..], key);
      HeadBelow(s[0], rest, key);
      [s[0]] + rest
  }

  lemma TailAscending<T(!new)>(s: seq<T>, key: T -> string)
    requires s != [] && Ascending(KeysOf(s, key))
    ensures Ascending(KeysOf(s[1..], key))
    ensures forall y :: y in s[1..] ==> LexLess(key(s[0]), key(y))
  {
    var ks := KeysOf(s, key);
    assert KeysOf(s[1..], key) == ks[1..];
    forall y | y in s[1..] ensures LexLess(key(s[0]), key(y)) {
      var i :| 0 <= i < |s| - 1 && s[1..][i] == y;
      assert LexLess(ks[0], ks[i + 1]);
    }
  }

  lemma HeadBelow<T(!new)>(x: T, s: seq<T>, key: T -> string)
    requires Ascending(KeysOf(s, key)) && forall y :: y in s ==> LexLess(key(x), key(y))
    ensures Ascending(KeysOf([x] + s, key))
  {
    assert KeysOf([x] + s, key) == [key(x)] + KeysOf(s, key);
  }

  lemma PrependAscending<T(!new)>(x: T, s: seq<T>, key: T -> string)
    requires Ascending(KeysOf(s, key)) && s != [] && LexLess(key(x), key(s[0]))
    ensures Ascending(KeysOf([x] + s, key))
  {
    var ks := KeysOf(s, key);
    assert KeysOf([x] + s, key) == [key(x)] + ks;
    forall j | 0 <= j < |s| ensures LexLess(key(x), ks[j]) {
      if j > 0 { LexTransitive(key(x), ks[0], ks[j]); }
    }
  }

  function Self(p: string): string { p }

  /** sort.Strings on a list without repetitions. */
  function SortStrings(s: seq<string>): (r: seq<string>)
    requires Distinct(s)
    ensures Ascending(r) && Elements(r) == Elements(s)
  {
    assert KeysOf(s, Self) == s;
    var r := SortBy(s, Self);
    assert KeysOf(r, Self) == r;
    r
  }

  /** The elements of a set of strings in the order sort.Strings leaves them in. */
  ghost function Sorted(ps: set<string>): (r: seq<string>)
    ensures Ascending(r) && Elements(r) == ps
  {
    SortedExists(ps);
    var r: seq<string> :| Ascending(r) && Elements(r) == ps;
    r
  }

  lemma {:induction false} SortedExists(ps: set<string>)
    ensures exists r: seq<string> :: Ascending(r) && Elements(r) == ps
  {
    if ps == {} {
      var none: seq<string> := [];
      assert Ascending(none) && Elements(none) == ps;
    } else {
      var p :| p in ps;
      SortedExists(ps - {p});
      var r: seq<string> :| Ascending(r) && Elements(r) == ps - {p};
      assert forall y :: y in r ==> y in Elements(r);
      assert KeysOf(r, Self) == r;
      var r' := Insert(p, r, Self);
      assert KeysOf(r', Self) == r';
      assert Elements(r') == ps;
    }
  }

  lemma SortedIs(r: seq<string>, ps: set<string>)
    requires Ascending(r) && Elements(r) == ps
    ensures r == Sorted(ps)
  {
    AscendingUnique(r, Sorted(ps));
  }
}
