/**
 Mapping a request's host to what is served: the control plane, or one branch of one site.
 backend/internal/resolve/resolver.go
 */
module Resolver {
  import opened Prelude
  import opened Text
  import opened Handles

  const HANDLE_RESOLVER_MIN_LEN: nat := 1
  const LABEL_MAX_LEN: nat := 63

  const RESERVED_HERE: set<string> :=
    {"draft", "preview", "published", "www", "api", "internal",
     "host", "admin", "app", "static", "assets", "mcp"}

  datatype Code = BadHandle | BadBranch | NotProjectHost | MisdirectedRequest | LabelTooLong | EmptyHost

  datatype ResolveError = ResolveError(status: nat, code: Code)

  datatype Target = Control | Project(handle: string, branch: string, isPreview: bool)

  /** `dynamic` says that a BaseDomainFunc is set; what it returns comes with the request. */
  datatype Config = Config(baseDomain: string, controlLabel: string, trustForwardedHost: bool, dynamic: bool)

  datatype Request = Request(forwardedHost: string, host: string, urlHost: string, domain: string)

  // ---- the built-in validators ----

  function CheckHandle(h: string): Outcome<(), ResolveError> {
    if h == "" then Err(ResolveError(400, BadHandle))
    else if h != ToLower(h) then Err(ResolveError(400, BadHandle))
    else if |h| < HANDLE_RESOLVER_MIN_LEN || |h| > LABEL_MAX_LEN then Err(ResolveError(400, BadHandle))
    else if Contains(h, DOUBLE_HYPHEN) then Err(ResolveError(400, BadHandle))
    else if !MatchesLabel(h) then Err(ResolveError(400, BadHandle))
    else if h in RESERVED_HERE then Err(ResolveError(404, NotProjectHost))
    else Ok(())
  }

  function CheckBranch(b: string): Outcome<(), ResolveError> {
    if b == "" then Err(ResolveError(400, BadBranch))
    else if b != ToLower(b) then Err(ResolveError(400, BadBranch))
    else if |b| > LABEL_MAX_LEN then Err(ResolveError(400, BadBranch))
    else if Contains(b, DOUBLE_HYPHEN) then Err(ResolveError(400, BadBranch))
    else if !MatchesLabel(b) then Err(ResolveError(400, BadBranch))
    else Ok(())
  }

  // ---- resolution ----

  function NewResolver(cfg: Config): Config {
    cfg.(baseDomain := ToLower(TrimSpace(cfg.baseDomain)), controlLabel := ToLower(TrimSpace(cfg.controlLabel)))
  }

  function FirstHostToken(v: string): string {
    match IndexChar(v, ',')
    case Some(i) => TrimSpace(v[..i])
    case None => TrimSpace(v)
  }

  function EffectiveHost(cfg: Config, r: Request): string {
    if cfg.trustForwardedHost && r.forwardedHost != "" then FirstHostToken(r.forwardedHost)
    else if r.host != "" then r.host
    else r.urlHost
  }

  function LowerStripPort(raw: string): string {
    var host := ToLower(TrimSpace(raw));
    if host == "" then ""
    else if host[0] == '[' then
      match IndexChar(host, ']')
      case Some(end) => host[..end + 1]
      case None => host
    else
      match LastIndexChar(host, ':')
      case Some(i) => host[..i]
      case None => host
  }

  function EffectiveBase(cfg: Config, r: Request): string {
    var base := ToLower(TrimSpace(r.domain));
    if !cfg.dynamic || base == "" then cfg.baseDomain else base
  }

  datatype HostClass = ForeignHost | ControlHost | ProjectHost(lbl: string)

  function ClassifyHost(cfg: Config, host: string, base: string): Outcome<HostClass, ResolveError> {
    var suffix := "." + base;
    if host == base then
      if cfg.controlLabel == "" then Ok(ControlHost) else Err(ResolveError(404, NotProjectHost))
    else if !HasSuffix(host, suffix) then Ok(ForeignHost)
    else
      var lbl := host[..|host| - |suffix|];
      if '.' in lbl then Err(ResolveError(404, NotProjectHost))
      else if cfg.controlLabel != "" && lbl == cfg.controlLabel then Ok(ControlHost)
      else Ok(ProjectHost(lbl))
  }

  /** The resolver's own splitLabel also says whether a "--" was there. */
  function SplitPreview(lbl: string): (string, string, bool) {
    match Index(lbl, DOUBLE_HYPHEN)
    case Some(i) => (lbl[..i], lbl[i + 2..], true)
    case None => (lbl, PUBLISHED, false)
  }

  function ResolveProjectLabel(lbl: string): Outcome<Target, ResolveError> {
    var (handle, branch, isPreview) := SplitPreview(lbl);
    var _ :- CheckHandle(handle);
    var _ :- Need(!isPreview || branch != PUBLISHED, ResolveError(400, BadBranch));
    var _ :- if isPreview then CheckBranch(branch) else Ok(());
    var _ :- Need(!isPreview || |handle| + 2 + |branch| <= LABEL_MAX_LEN, ResolveError(400, LabelTooLong));
    Ok(Project(handle, branch, isPreview))
  }

  function Resolve(cfg: Config, r: Request): Outcome<Target, ResolveError> {
    var host := LowerStripPort(EffectiveHost(cfg, r));
    var _ :- Need(host != "", ResolveError(400, EmptyHost));
    var kind :- ClassifyHost(cfg, host, EffectiveBase(cfg, r));
    match kind
    case ControlHost => Ok(Control)
    case ProjectHost(lbl) => ResolveProjectLabel(lbl)
    case ForeignHost => Err(ResolveError(421, MisdirectedRequest))
  }

  // ---- the two packages accept the same names ----

  lemma SameReserved(h: string)
    ensures h in RESERVED_HERE <==> h in RESERVED_HANDLES
  {}

  lemma SameNames(s: string)
    ensures CheckHandle(s).Ok? <==> ValidateHandleForResolver(s).None?
    ensures CheckBranch(s).Ok? <==> ValidateBranchName(s).None?
  {
    SameReserved(s);
  }

  /** A reserved word in an otherwise valid label is the one handle problem that is a 404. */
  lemma ReservedIsNotFound(h: string)
    ensures CheckHandle(h) == Err(ResolveError(404, NotProjectHost)) <==> WellFormed(h) && h in RESERVED_HANDLES
  {
    SameReserved(h);
    LabelIsWellFormed(h);
    if WellFormed(h) { WellFormedIsLower(h); }
  }

  // ---- what resolves to what ----

  function Stripped(cfg: Config, r: Request): string {
    LowerStripPort(EffectiveHost(cfg, r))
  }

  function Rendered(h: string, b: string, base: string): string {
    PreviewSubdomain(h, b) + "." + base
  }

  /** The names that a host can carry under this configuration. */
  predicate Addressable(cfg: Config, h: string, b: string) {
    ValidateHandleForResolver(h).None? && ValidateBranchName(b).None? &&
    (b == PUBLISHED || |h| + 2 + |b| <= LABEL_MAX_LEN) &&
    (cfg.controlLabel == "" || PreviewSubdomain(h, b) != cfg.controlLabel)
  }

  /** Splitting and rendering a label are inverse, given that "--published" is refused. */
  lemma LabelResolves(lbl: string, h: string, b: string, p: bool)
    ensures ResolveProjectLabel(lbl) == Ok(Project(h, b, p)) <==>
      lbl == PreviewSubdomain(h, b) && p == (b != PUBLISHED) &&
      ValidateHandleForResolver(h).None? && ValidateBranchName(b).None? &&
      (b == PUBLISHED || |h| + 2 + |b| <= LABEL_MAX_LEN)
  {
    hide CheckHandle, CheckBranch, ValidateHandleLen, ValidateBranchName, WellFormed, ToLower;
    var (h0, b0, p0) := SplitPreview(lbl);
    SameNames(h0);
    SameNames(b0);
    PublishedIsValid();
    if p0 {
      assert lbl == h0 + DOUBLE_HYPHEN + b0;
    }
    if lbl == PreviewSubdomain(h, b) && ValidateHandleForResolver(h).None? && ValidateBranchName(b).None? {
      AcceptedHandles(h, RESOLVER_MIN_LEN);
      AcceptedBranches(b);
      SplitPreviewSubdomain(h, b);
      if b != PUBLISHED { FirstSeparator(h, b); } else { NoSeparator(h); }
    }
  }

  /** Why a label is turned down, name by name: the handle is looked at first, then the branch, then the
      two together. */
  lemma LabelErrorsExactly(lbl: string)
    ensures
      var (h, b, p) := SplitPreview(lbl);
      var r := ResolveProjectLabel(lbl);
      (r == Err(ResolveError(400, BadHandle)) <==> !WellFormed(h)) &&
      (r == Err(ResolveError(404, NotProjectHost)) <==> WellFormed(h) && h in RESERVED_HANDLES) &&
      (r == Err(ResolveError(400, BadBranch)) <==>
        WellFormed(h) && h !in RESERVED_HANDLES && p && (b == PUBLISHED || !WellFormed(b))) &&
      (r == Err(ResolveError(400, LabelTooLong)) <==>
        WellFormed(h) && h !in RESERVED_HANDLES && p && b != PUBLISHED && WellFormed(b) &&
        |h| + 2 + |b| > LABEL_MAX_LEN) &&
      (r.Err? ==> r.error.code !in {MisdirectedRequest, EmptyHost})
  {
    var (h, b, p) := SplitPreview(lbl);
    CheckHandleExactly(h);
    CheckBranchExactly(b);
    hide CheckHandle, CheckBranch, WellFormed, SplitPreview;
  }

  lemma CheckHandleExactly(h: string)
    ensures CheckHandle(h) ==
      if !WellFormed(h) then Err(ResolveError(400, BadHandle))
      else if h in RESERVED_HANDLES then Err(ResolveError(404, NotProjectHost))
      else Ok(())
  {
    SameNames(h);
    AcceptedHandles(h, RESOLVER_MIN_LEN);
    ReservedIsNotFound(h);
    hide WellFormed, ValidateHandleLen;
  }

  lemma CheckBranchExactly(b: string)
    ensures CheckBranch(b) == if WellFormed(b) then Ok(()) else Err(ResolveError(400, BadBranch))
  {
    SameNames(b);
    AcceptedBranches(b);
    hide WellFormed, ValidateBranchName;
  }

  lemma PublishedIsValid()
    ensures ValidateBranchName(PUBLISHED).None?
  {
    assert WellFormed(PUBLISHED);
    AcceptedBranches(PUBLISHED);
  }

  lemma NoDots(h: string, b: string)
    requires WellFormed(h) && WellFormed(b)
    ensures '.' !in PreviewSubdomain(h, b) && ':' !in PreviewSubdomain(h, b)
    ensures PreviewSubdomain(h, b) != "" && AlphaNum(PreviewSubdomain(h, b)[0])
  {}

  /** Exactly which requests are answered with branch b of site h: those whose host, lower-cased and
      stripped of its port, is the rendering of an addressable pair. */
  lemma ResolveExactly(cfg: Config, r: Request, h: string, b: string, p: bool)
    ensures Resolve(cfg, r) == Ok(Project(h, b, p)) <==>
      Stripped(cfg, r) == Rendered(h, b, EffectiveBase(cfg, r)) && p == (b != PUBLISHED) && Addressable(cfg, h, b)
  {
    hide ResolveProjectLabel, PreviewSubdomain, ValidateHandleLen, ValidateBranchName;
    hide LowerStripPort, EffectiveHost, EffectiveBase;
    var host, base := Stripped(cfg, r), EffectiveBase(cfg, r);
    var suffix := "." + base;
    var lbl := PreviewSubdomain(h, b);
    if host == lbl + "." + base {
      assert host[|host| - |suffix|..] == suffix && host[..|host| - |suffix|] == lbl;
      LabelResolves(lbl, h, b, p);
      if Addressable(cfg, h, b) {
        AcceptedHandles(h, RESOLVER_MIN_LEN);
        AcceptedBranches(b);
        NoDots(h, b);
      }
    }
    if HasSuffix(host, suffix) {
      var lbl0 := host[..|host| - |suffix|];
      assert host == lbl0 + "." + base;
      LabelResolves(lbl0, h, b, p);
    }
  }

  /** Every project answer re-renders to the host that asked for it, so no two pairs share a host. */
  lemma Rerenders(cfg: Config, r: Request)
    requires Resolve(cfg, r).Ok? && Resolve(cfg, r).value.Project?
    ensures
      var t := Resolve(cfg, r).value;
      Stripped(cfg, r) == Rendered(t.handle, t.branch, EffectiveBase(cfg, r)) &&
      t.isPreview == (t.branch != PUBLISHED) && Addressable(cfg, t.handle, t.branch)
  {
    hide Resolve, Addressable, Rendered, Stripped, EffectiveBase;
    var t := Resolve(cfg, r).value;
    ResolveExactly(cfg, r, t.handle, t.branch, t.isPreview);
  }

  /** Rendering is injective on valid names, whatever their length. */
  lemma HostsDiffer(h: string, b: string, h': string, b': string, base: string)
    requires WellFormed(h) && WellFormed(b) && WellFormed(h') && WellFormed(b')
    ensures Rendered(h, b, base) == Rendered(h', b', base) <==> (h, b) == (h', b')
  {
    hide WellFormed, PreviewSubdomain, SplitLabel;
    if Rendered(h, b, base) == Rendered(h', b', base) {
      var (x, y) := (PreviewSubdomain(h, b), PreviewSubdomain(h', b'));
      assert |x| == |y|;
      assert x == Rendered(h, b, base)[..|x|] && y == Rendered(h', b', base)[..|x|];
      SplitPreviewSubdomain(h, b);
      SplitPreviewSubdomain(h', b');
    }
  }

  /** Which hosts are the control plane's. A control label with a dot in it has none. */
  lemma ControlExactly(cfg: Config, r: Request)
    ensures Resolve(cfg, r) == Ok(Control) <==>
      Stripped(cfg, r) != "" && '.' !in cfg.controlLabel &&
      Stripped(cfg, r) == (if cfg.controlLabel == "" then "" else cfg.controlLabel + ".") + EffectiveBase(cfg, r)
  {
    hide ResolveProjectLabel, LowerStripPort, EffectiveHost, EffectiveBase;
    var host, base := Stripped(cfg, r), EffectiveBase(cfg, r);
    var control, suffix := cfg.controlLabel, "." + base;
    assert "" + base == base;
    assert control + "." + base == control + suffix;
    EndsIn(control, suffix);
    if HasSuffix(host, suffix) {
      var lbl := host[..|host| - |suffix|];
      assert host == lbl + suffix;
      NeverControl(lbl);
    }
  }

  lemma EndsIn(a: string, b: string)
    ensures HasSuffix(a + b, b) && (a + b)[..|a|] == a
  {}

  lemma NeverControl(lbl: string)
    ensures ResolveProjectLabel(lbl) != Ok(Control)
  {
    hide CheckHandle, CheckBranch, SplitPreview;
  }

  /** Only a host outside the base domain is misdirected. */
  lemma MisdirectedExactly(cfg: Config, r: Request)
    ensures Resolve(cfg, r) == Err(ResolveError(421, MisdirectedRequest)) <==>
      var host, base := Stripped(cfg, r), EffectiveBase(cfg, r);
      host != "" && host != base && !HasSuffix(host, "." + base)
  {
    hide LowerStripPort, EffectiveHost, EffectiveBase;
  }

  /** The hosts answered with "not found": the bare base domain when a control label is set, a nested
      subdomain, and a reserved word in the place of a handle. */
  lemma NotFoundExactly(cfg: Config, r: Request)
    ensures
      var host, base := Stripped(cfg, r), EffectiveBase(cfg, r);
      Resolve(cfg, r) == Err(ResolveError(404, NotProjectHost)) <==>
        host != "" &&
        if host == base then cfg.controlLabel != ""
        else HasSuffix(host, "." + base) && UnknownLabel(cfg, host[..|host| - |base| - 1])
  {
    hide LowerStripPort, EffectiveHost, EffectiveBase, ResolveProjectLabel, WellFormed, SplitPreview;
    var host, base := Stripped(cfg, r), EffectiveBase(cfg, r);
    if host != base && HasSuffix(host, "." + base) {
      LabelErrorsExactly(host[..|host| - |base| - 1]);
    }
  }

  ghost predicate UnknownLabel(cfg: Config, lbl: string) {
    var handle := SplitPreview(lbl).0;
    var isControl := cfg.controlLabel != "" && lbl == cfg.controlLabel;
    '.' in lbl || (!isControl && WellFormed(handle) && handle in RESERVED_HANDLES)
  }

  // ---- which host and which base domain count ----

  /** A trusted forwarded host counts before everything else, and of a list its first entry; without one the
      Host header counts, and without that the host of the URL. An untrusted forwarded host never counts. */
  lemma HostChosen(cfg: Config, r: Request)
    ensures EffectiveHost(cfg, r) ==
      if cfg.trustForwardedHost && r.forwardedHost != "" then TrimSpace(Split(r.forwardedHost, ',')[0])
      else if r.host != "" then r.host
      else r.urlHost
  {}

  /** Two requests that agree on the host that counts, and on the base domain, are answered alike. */
  lemma OtherHostsAreIgnored(cfg: Config, r: Request, forwarded: string, host: string, url: string)
    ensures cfg.trustForwardedHost && r.forwardedHost != "" ==>
      Resolve(cfg, r) == Resolve(cfg, r.(host := host, urlHost := url))
    ensures !cfg.trustForwardedHost ==> Resolve(cfg, r) == Resolve(cfg, r.(forwardedHost := forwarded))
    ensures !(cfg.trustForwardedHost && r.forwardedHost != "") && r.host != "" ==>
      Resolve(cfg, r) == Resolve(cfg, r.(urlHost := url))
  {
    hide LowerStripPort, ResolveProjectLabel, ClassifyHost, FirstHostToken;
  }

  /** The base domain of the request counts if there is a source for it and it is not blank, and is trimmed
      and lower-cased like the configured one. */
  lemma BaseChosen(cfg: Config, r: Request)
    ensures EffectiveBase(NewResolver(cfg), r) ==
      ToLower(TrimSpace(if cfg.dynamic && TrimSpace(r.domain) != "" then r.domain else cfg.baseDomain))
  {
    assert ToLower(TrimSpace(r.domain)) == "" <==> TrimSpace(r.domain) == "";
  }

  /** A bracketed address keeps its brackets and loses what follows them. */
  lemma BracketsKept(v6: string, port: string)
    requires ']' !in v6 && (port != "" ==> !IsSpace(port[|port| - 1])) && IsLower(v6)
    ensures LowerStripPort("[" + v6 + "]" + port) == "[" + v6 + "]"
  {
    hide IsSpace, Trim;
    var raw := "[" + v6 + "]" + port;
    assert !IsSpace('[') && !IsSpace(']') by { NotSpaces(); }
    assert raw[|raw| - 1] == if port == "" then ']' else port[|port| - 1];
    TrimFixed(raw, IsSpace);
    var s := ToLower(raw);
    LowerFixed("[" + v6);
    assert s == ("[" + v6) + "]" + ToLower(port);
    FirstIndex("[" + v6, ']', ToLower(port));
    assert s[..|v6| + 2] == "[" + v6 + "]";
  }

  lemma NotSpaces()
    ensures !IsSpace('[') && !IsSpace(']')
  {}

  // ---- the round trip ----

  predicate Digits(s: string) {
    forall c :: c in s ==> '0' <= c <= '9'
  }

  function Spelled(host: string, port: Option<string>): string {
    match port
    case None => host
    case Some(p) => host + ":" + p
  }

  lemma LowerKeepsBlanks(c: char)
    ensures IsSpace(LowerChar(c)) <==> IsSpace(c)
  {}

  /** A base domain that a configuration can hold: lower case, no blank at either end. */
  predicate Clean(base: string) {
    ToLower(base) == base && (base != "" ==> !IsSpace(base[0]) && !IsSpace(base[|base| - 1]))
  }

  lemma CleanBase(cfg: Config, r: Request)
    ensures Clean(EffectiveBase(NewResolver(cfg), r))
  {
    LoweredIsClean(cfg.baseDomain);
    LoweredIsClean(r.domain);
  }

  lemma LoweredIsClean(s: string)
    ensures Clean(ToLower(TrimSpace(s)))
  {
    TrimmedEnds(s, IsSpace);
    var t := TrimSpace(s);
    LowerFixed(t);
    LowerFixed(ToLower(t));
    if t != "" {
      LowerKeepsBlanks(t[0]);
      LowerKeepsBlanks(t[|t| - 1]);
    }
  }

  lemma StripsLastColon(raw: string)
    requires raw != "" && !IsSpace(raw[0]) && !IsSpace(raw[|raw| - 1]) && raw[0] != '['
    ensures
      var s := ToLower(raw);
      LowerStripPort(raw) == match LastIndexChar(s, ':') case Some(i) => s[..i] case None => s
  {
    hide IsSpace, Trim;
    TrimFixed(raw, IsSpace);
  }

  lemma SpelledEnds(lbl: string, base: string, port: Option<string>)
    requires lbl != "" && AlphaNum(lbl[0]) && Clean(base) && (port.Some? ==> Digits(port.value))
    ensures
      var s := Spelled(lbl + "." + base, port);
      s != "" && s[0] == lbl[0] && s[0] != '[' && !IsSpace(s[0]) && !IsSpace(s[|s| - 1])
  {
    var host := lbl + "." + base;
    assert host[|host| - 1] == if base == "" then '.' else base[|base| - 1];
    if port.Some? && port.value != "" {
      var p := port.value;
      var s := Spelled(host, port);
      assert s[|s| - 1] == p[|p| - 1];
      assert p[|p| - 1] in p;
    }
  }

  /** Letter case and a port make no difference; without a port, a colon in the base domain would be
      taken for one. */
  lemma PortIsStripped(raw: string, h: string, b: string, base: string, port: Option<string>)
    requires WellFormed(h) && WellFormed(b) && Clean(base)
    requires ToLower(raw) == Spelled(Rendered(h, b, base), port) && (port.Some? ==> Digits(port.value))
    ensures LowerStripPort(raw) == Rendered(h, b, base) <==> port.Some? || ':' !in base
  {
    hide WellFormed, PreviewSubdomain, LowerStripPort, LastIndexChar;
    var host := Rendered(h, b, base);
    var s := ToLower(raw);
    NoDots(h, b);
    SpelledEnds(PreviewSubdomain(h, b), base, port);
    LowerKeepsBlanks(raw[0]);
    LowerKeepsBlanks(raw[|raw| - 1]);
    StripsLastColon(raw);
    match port
    case Some(p) =>
      LastIndexAppend(host, p, ':');
      assert s[..|host|] == host;
    case None =>
      assert ':' in s <==> ':' in base;
  }

  /** Rendering a pair and asking for that host gives the pair back, in any letter case and with or
      without a port, exactly when the pair is addressable -- and, if no port is given, when the base
      domain has no colon. The base domain is whatever the configuration or the request supplies. */
  lemma RoundTripExactly(cfg0: Config, r: Request, h: string, b: string, port: Option<string>)
    requires port.Some? ==> Digits(port.value)
    requires
      var cfg := NewResolver(cfg0);
      ToLower(EffectiveHost(cfg, r)) == Spelled(Rendered(h, b, EffectiveBase(cfg, r)), port)
    ensures
      var cfg := NewResolver(cfg0);
      Resolve(cfg, r) == Ok(Project(h, b, b != PUBLISHED)) <==>
        Addressable(cfg, h, b) && (port.Some? || ':' !in EffectiveBase(cfg, r))
  {
    hide Resolve, WellFormed, ValidateHandleLen, ValidateBranchName, EffectiveHost, EffectiveBase;
    hide LowerStripPort, ToLower, Rendered, Spelled, NewResolver, Clean;
    var cfg := NewResolver(cfg0);
    CleanBase(cfg0, r);
    ResolveExactly(cfg, r, h, b, b != PUBLISHED);
    if Addressable(cfg, h, b) {
      AcceptedHandles(h, RESOLVER_MIN_LEN);
      AcceptedBranches(b);
      PortIsStripped(EffectiveHost(cfg, r), h, b, EffectiveBase(cfg, r), port);
    }
  }

  /** With no control label, every valid handle is reachable, and its draft exactly when the handle has at
      most 56 characters. */
  lemma SitesAreReachable(cfg: Config, h: string)
    requires ValidateHandleForResolver(h).None? && cfg.controlLabel == ""
    ensures Addressable(cfg, h, PUBLISHED)
    ensures Addressable(cfg, h, DRAFT) <==> |h| <= 56
  {
    PublishedIsValid();
    assert WellFormed(DRAFT);
    AcceptedBranches(DRAFT);
  }
}
