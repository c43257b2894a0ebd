/**
 The handle and branch grammar and the "--" label separator.
 backend/internal/site/handle.go
 */
module Handles {
  import opened Prelude
  import opened Text

  const HANDLE_MIN_LEN: nat := 3
  const HANDLE_MAX_LEN: nat := 63
  const RESOLVER_MIN_LEN: nat := 1
  const DOUBLE_HYPHEN := "--"
  const PUBLISHED := "published"
  const DRAFT := "draft"

  const RESERVED_HANDLES: seq<string> :=
    ["draft", "preview", "published", "www", "api", "internal",
     "host", "admin", "app", "static", "assets", "mcp"]

  predicate AlphaNum(c: char) {
    'a' <= c <= 'z' || '0' <= c <= '9'
  }

  predicate LabelChar(c: char) {
    AlphaNum(c) || c == '-'
  }

  /** ^[a-z0-9]([a-z0-9-]{0,61}[a-z0-9])?$ */
  predicate MatchesLabel(s: string) {
    |s| >= 1 && AlphaNum(s[0]) &&
    (|s| == 1 ||
     (2 <= |s| <= 63 && AlphaNum(s[|s| - 1]) && forall i :: 1 <= i < |s| - 1 ==> LabelChar(s[i])))
  }

  predicate IsReserved(h: string) {
    ToLower(h) in RESERVED_HANDLES
  }

  /** Why a name was turned down. */
  datatype Problem = Empty | NotLower | TooShort | TooLong | HasSeparator | BadGrammar | Reserved

  /** validateHandleLen; None means valid. */
  function ValidateHandleLen(h: string, minLen: nat): Option<Problem> {
    if h == "" then Some(Empty)
    else if h != ToLower(h) then Some(NotLower)
    else if |h| < minLen then Some(TooShort)
    else if |h| > HANDLE_MAX_LEN then Some(TooLong)
    else if Contains(h, DOUBLE_HYPHEN) then Some(HasSeparator)
    else if !MatchesLabel(h) then Some(BadGrammar)
    else if IsReserved(h) then Some(Reserved)
    else None
  }

  /** The create-time and rename-time gate. */
  function ValidateHandle(h: string): Option<Problem> {
    ValidateHandleLen(h, HANDLE_MIN_LEN)
  }

  function ValidateHandleForResolver(h: string): Option<Problem> {
    ValidateHandleLen(h, RESOLVER_MIN_LEN)
  }

  function ValidateBranchName(name: string): Option<Problem> {
    if name == "" then Some(Empty)
    else if name != ToLower(name) then Some(NotLower)
    else if |name| > HANDLE_MAX_LEN then Some(TooLong)
    else if Contains(name, DOUBLE_HYPHEN) then Some(HasSeparator)
    else if !MatchesLabel(name) then Some(BadGrammar)
    else None
  }

  function PreviewSubdomain(handle: string, branch: string): string {
    if branch == PUBLISHED then handle else handle + DOUBLE_HYPHEN + branch
  }

  function SplitLabel(lbl: string): (string, string) {
    match Index(lbl, DOUBLE_HYPHEN)
    case Some(i) => (lbl[..i], lbl[i + 2..])
    case None => (lbl, PUBLISHED)
  }

  /** What every valid name looks like, read off character by character. */
  ghost predicate WellFormed(s: string) {
    1 <= |s| <= HANDLE_MAX_LEN &&
    s[0] != '-' && s[|s| - 1] != '-' &&
    (forall i :: 0 <= i < |s| ==> LabelChar(s[i])) &&
    forall i :: 0 <= i < |s| - 1 ==> !(s[i] == '-' && s[i + 1] == '-')
  }

  lemma HyphensAt(s: string, i: int)
    ensures OccursAt(s, DOUBLE_HYPHEN, i) <==> 0 <= i < |s| - 1 && s[i] == '-' && s[i + 1] == '-'
  {
    if 0 <= i < |s| - 1 { assert s[i..i + 2] == [s[i], s[i + 1]]; }
  }

  lemma LabelIsWellFormed(s: string)
    ensures MatchesLabel(s) && !Contains(s, DOUBLE_HYPHEN) <==> WellFormed(s)
  {
    var r := Index(s, DOUBLE_HYPHEN);
    if r.Some? {
      HyphensAt(s, r.value);
    } else {
      forall i | 0 <= i < |s| - 1 ensures !(s[i] == '-' && s[i + 1] == '-') {
        HyphensAt(s, i);
        assert !OccursAt(s, DOUBLE_HYPHEN, i);
      }
      assert WellFormed(s) ==> LabelChar(s[0]) && LabelChar(s[|s| - 1]);
    }
  }

  lemma WellFormedIsLower(s: string)
    requires WellFormed(s)
    ensures ToLower(s) == s
  {
    LowerFixed(s);
  }

  /** Exactly which handles are accepted: the error order does not matter. */
  lemma AcceptedHandles(h: string, minLen: nat)
    requires minLen >= 1
    ensures ValidateHandleLen(h, minLen).None?
       <==> WellFormed(h) && |h| >= minLen && h !in RESERVED_HANDLES
  {
    LabelIsWellFormed(h);
    if WellFormed(h) { WellFormedIsLower(h); }
  }

  lemma AcceptedBranches(b: string)
    ensures ValidateBranchName(b).None? <==> WellFormed(b)
  {
    LabelIsWellFormed(b);
    if WellFormed(b) { WellFormedIsLower(b); }
  }

  /** Where "--" first stands in `h--b` when `h` is a valid name. */
  lemma FirstSeparator(h: string, b: string)
    requires WellFormed(h)
    ensures Index(h + DOUBLE_HYPHEN + b, DOUBLE_HYPHEN) == Some(|h|)
  {
    var s := h + DOUBLE_HYPHEN + b;
    assert OccursAt(s, DOUBLE_HYPHEN, |h|) by { assert s[|h|..|h| + 2] == DOUBLE_HYPHEN; }
    forall i | 0 <= i < |h| ensures !OccursAt(s, DOUBLE_HYPHEN, i) {
      HyphensAt(s, i);
      assert s[i] == h[i] && (i + 1 < |h| ==> s[i + 1] == h[i + 1]);
    }
  }

  lemma NoSeparator(h: string)
    requires WellFormed(h)
    ensures Index(h, DOUBLE_HYPHEN) == None
  {
    LabelIsWellFormed(h);
  }

  /** Splitting a preview subdomain gives back the handle and the branch. */
  lemma SplitPreviewSubdomain(h: string, b: string)
    requires WellFormed(h) && WellFormed(b)
    ensures SplitLabel(PreviewSubdomain(h, b)) == (h, b)
  {
    if b == PUBLISHED {
      NoSeparator(h);
    } else {
      FirstSeparator(h, b);
      assert (h + DOUBLE_HYPHEN + b)[..|h|] == h;
      assert (h + DOUBLE_HYPHEN + b)[|h| + 2..] == b;
    }
  }
}
