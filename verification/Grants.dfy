/**
 The signed preview grant, who may preview with it, and the link that carries it.
 backend/internal/serve/authz.go
 */
module Grants {
  import opened Prelude
  import opened Text
  import opened Base64
  import opened Fields
  import Handles

  // ---- instants ----

  const SECOND: int := 1_000_000_000

  /** What Go adds to a Unix time to get the seconds it stores, as a signed 64-bit number. */
  const UNIX_TO_INTERNAL: int := 62_135_596_800

  /** Nanoseconds since 1970, as far as Go's stored seconds reach. */
  type Time = t: int | Int64(t / SECOND + UNIX_TO_INTERNAL) witness 0

  function Wrap64(n: int): (r: int)
    ensures Int64(r)
    ensures Int64(n) ==> r == n
  {
    (n + TWO_63) % (2 * TWO_63) - TWO_63
  }

  /** t.Unix(): whole seconds, rounded down; it wraps for instants more than 292 billion years back. */
  function UnixSeconds(t: Time): int {
    Wrap64(t / SECOND)
  }

  /** time.Unix(s, 0), for a 64-bit s: it wraps for instants as far ahead. */
  function AtSeconds(s: int): Time {
    (Wrap64(s + UNIX_TO_INTERNAL) - UNIX_TO_INTERNAL) * SECOND
  }

  /** The start of the second that `t` lies in. */
  function WholeSecond(t: Time): Time {
    t / SECOND * SECOND
  }

  /** t.Add(d) for a positive duration: the stored seconds stop at their maximum. */
  function Later(t: Time, d: nat): Time {
    var last := TWO_63 - 1 - UNIX_TO_INTERNAL;
    var n: int := t + d;
    assert Int64(t / SECOND + UNIX_TO_INTERNAL) && n / SECOND >= t / SECOND;
    if n / SECOND <= last then n else last * SECOND + n % SECOND
  }

  /** The two wraps cancel: every instant comes back, down to its second. */
  lemma AtSecondsExact(t: Time)
    ensures AtSeconds(UnixSeconds(t)) == WholeSecond(t)
  {
    var s := t / SECOND;
    assert Wrap64(Wrap64(s) + UNIX_TO_INTERNAL) == s + UNIX_TO_INTERNAL by { WrapOfWrap(s, UNIX_TO_INTERNAL); }
  }

  lemma WrapOfWrap(s: int, d: int)
    requires Int64(s + d)
    ensures Wrap64(Wrap64(s) + d) == s + d
  {
    var m := 2 * TWO_63;
    var q := (s + TWO_63) / m;
    assert Wrap64(s) == s - q * m;
    assert (s + d + TWO_63) / m == 0;
    ModShift(s + d + TWO_63, -q, m);
    assert Wrap64(s) + d + TWO_63 == s + d + TWO_63 + (-q) * m;
  }

  lemma ModShift(x: int, q: int, m: int)
    requires m > 0
    ensures (x + q * m) % m == x % m
  {
    var r := x % m;
    assert x + q * m == (x / m + q) * m + r;
    Unique(x + q * m, x / m + q, r, m);
  }

  lemma Unique(n: int, q: int, r: int, m: int)
    requires m > 0 && 0 <= r < m && n == q * m + r
    ensures n % m == r
  {
    var q', r' := n / m, n % m;
    assert (q - q') * m == r' - r;
    assert q - q' >= 1 ==> (q - q') * m >= m;
    assert q - q' <= -1 ==> (q - q') * m <= -m;
  }

  // ---- the codec ----

  /** HMAC-SHA256 under the configured secret, as an arbitrary function. */
  type Mac = string -> seq<Byte>

  datatype Grant = Grant(siteID: Uuid, branch: string, exp: Time)

  datatype Refusal = Unauthorized | Forbidden

  function Payload(siteID: Uuid, branch: string, exp: Time): string {
    FormatUuid(siteID) + ":" + branch + ":" + FormatInt(UnixSeconds(exp))
  }

  function SignGrant(mac: Mac, siteID: Uuid, branch: string, exp: Time): string {
    var payload := Payload(siteID, branch, exp);
    payload + ":" + Encode(mac(payload))
  }

  function VerifyGrant(mac: Mac, token: string, now: Time): Outcome<Grant, Refusal> {
    var lastColon := LastIndexChar(token, ':');
    var _ :- Need(lastColon.Some?, Unauthorized);
    var payload, sigB64 := token[..lastColon.value], token[lastColon.value + 1..];
    var sig := Decode(sigB64);
    var _ :- Need(sig.Some? && sig.value == mac(payload), Unauthorized);
    VerifyPayload(payload, now)
  }

  function VerifyPayload(payload: string, now: Time): Outcome<Grant, Refusal> {
    var parts := Split(payload, ':');
    var _ :- Need(|parts| == 3, Unauthorized);
    var id := ParseUuid(parts[0]);
    var _ :- Need(id.Some?, Unauthorized);
    var expUnix := ParseInt(parts[2]);
    var _ :- Need(expUnix.Some?, Unauthorized);
    var exp := AtSeconds(expUnix.value);
    var _ :- Need(now < exp, Unauthorized);
    Ok(Grant(id.value, parts[1], exp))
  }

  lemma SecondsFit(t: Time)
    ensures Int64(UnixSeconds(t))
  {}

  /** A signed payload reads back as it was written, unless the branch adds a field of its own. */
  lemma PayloadExactly(id: Uuid, branch: string, exp: Time, now: Time)
    ensures VerifyPayload(Payload(id, branch, exp), now) ==
      if ':' !in branch && now < WholeSecond(exp) then Ok(Grant(id, branch, WholeSecond(exp))) else Err(Unauthorized)
  {
    hide Split, FormatUuid, ParseUuid, FormatInt, ParseInt, AtSeconds, UnixSeconds, WholeSecond;
    var a, c := FormatUuid(id), FormatInt(UnixSeconds(exp));
    ParseFormatUuid(id);
    ParseFormatInt(UnixSeconds(exp));
    SecondsFit(exp);
    AtSecondsExact(exp);
    assert Payload(id, branch, exp) == a + ":" + (branch + ":" + c);
    SplitAround(a, branch + ":" + c, ':');
    SplitAround(branch, c, ':');
    SplitOne(a, ':');
    SplitOne(branch, ':');
    SplitOne(c, ':');
  }

  /** The signature is found again after the last colon, whatever is in the payload. */
  lemma SignatureFound(payload: string, sig: seq<Byte>)
    ensures
      var token := payload + ":" + Encode(sig);
      LastIndexChar(token, ':') == Some(|payload|) &&
      token[..|payload|] == payload && Decode(token[|payload| + 1..]) == Some(sig)
  {
    hide Encode, Decode, LastIndexChar;
    var token := payload + ":" + Encode(sig);
    DecodeEncode(sig);
    LastIndexAppend(payload, Encode(sig), ':');
    assert token[..|payload|] == payload && token[|payload| + 1..] == Encode(sig);
  }

  /** Signing and verifying, for every secret: the grant comes back -- same site, same branch, same expiry
      second -- exactly when the branch has no colon and the expiry second has not been reached. A grant
      that expires later within the current second is already refused. */
  lemma RoundTripExactly(mac: Mac, id: Uuid, branch: string, exp: Time, now: Time)
    ensures VerifyGrant(mac, SignGrant(mac, id, branch, exp), now) ==
      if ':' !in branch && WholeSecond(now) < WholeSecond(exp)
      then Ok(Grant(id, branch, WholeSecond(exp))) else Err(Unauthorized)
  {
    hide Payload, VerifyPayload, Encode, Decode, LastIndexChar, WholeSecond;
    var payload := Payload(id, branch, exp);
    SignatureFound(payload, mac(payload));
    PayloadExactly(id, branch, exp, now);
    FloorOrder(now, exp);
  }

  lemma FloorOrder(now: Time, exp: Time)
    ensures now < WholeSecond(exp) <==> WholeSecond(now) < WholeSecond(exp)
    ensures WholeSecond(WholeSecond(exp)) == WholeSecond(exp)
  {}

  /** `token` is a payload and its signature under `mac`, and the payload spells out `g`: site, branch and
      expiry, in this order. */
  predicate Carries(mac: Mac, token: string, g: Grant, payload: string, sig64: string, id: string, sec: string) {
    token == payload + ":" + sig64 && ':' !in sig64 && Decode(sig64) == Some(mac(payload)) &&
    payload == id + ":" + g.branch + ":" + sec && ':' !in id && ':' !in g.branch && ':' !in sec &&
    ParseUuid(id) == Some(g.siteID) && ParseInt(sec).Some? && g.exp == AtSeconds(ParseInt(sec).value)
  }

  ghost predicate SignedGrant(mac: Mac, token: string, g: Grant) {
    exists payload, sig64, id, sec :: Carries(mac, token, g, payload, sig64, id, sec)
  }

  lemma SplitThree(a: string, b: string, c: string)
    requires ':' !in a && ':' !in b && ':' !in c
    ensures Split(a + ":" + b + ":" + c, ':') == [a, b, c]
  {
    hide Split;
    assert a + ":" + b + ":" + c == a + ":" + (b + ":" + c);
    SplitAround(a, b + ":" + c, ':');
    SplitAround(b, c, ':');
    SplitOne(a, ':');
    SplitOne(b, ':');
    SplitOne(c, ':');
  }

  lemma JoinOfThree(a: string, b: string, c: string)
    ensures Join([a, b, c], ':') == a + ":" + b + ":" + c
  {
    assert [a, b, c][1..] == [b, c] && [b, c][1..] == [c];
    assert Join([b, c], ':') == b + ":" + c;
    assert a + ":" + (b + ":" + c) == a + ":" + b + ":" + c;
  }

  lemma JoinThree(s: string)
    requires |Split(s, ':')| == 3
    ensures
      var parts := Split(s, ':');
      s == parts[0] + ":" + parts[1] + ":" + parts[2] && ':' !in parts[0] && ':' !in parts[1] && ':' !in parts[2]
  {
    hide Split, Join;
    var parts := Split(s, ':');
    JoinSplit(s, ':');
    JoinOfThree(parts[0], parts[1], parts[2]);
    assert parts == [parts[0], parts[1], parts[2]];
  }

  /** Exactly which tokens are accepted, and as what: those whose part after the last colon decodes to the
      signature of the part before it, which spells out the grant; before its expiry. Nothing else is. */
  lemma AcceptedExactly(mac: Mac, token: string, now: Time, g: Grant)
    ensures VerifyGrant(mac, token, now) == Ok(g) <==> SignedGrant(mac, token, g) && now < g.exp
    ensures VerifyGrant(mac, token, now).Err? ==> VerifyGrant(mac, token, now).error == Unauthorized
  {
    hide Split, Decode, ParseUuid, ParseInt, AtSeconds, LastIndexChar;
    if VerifyGrant(mac, token, now) == Ok(g) {
      var i := LastIndexChar(token, ':').value;
      var payload, sig64 := token[..i], token[i + 1..];
      assert token == payload + ":" + sig64;
      JoinThree(payload);
      var parts := Split(payload, ':');
      assert Carries(mac, token, g, payload, sig64, parts[0], parts[2]);
    }
    if SignedGrant(mac, token, g) && now < g.exp {
      var payload, sig64, id, sec :| Carries(mac, token, g, payload, sig64, id, sec);
      LastIndexAppend(payload, sig64, ':');
      assert token[..|payload|] == payload && token[|payload| + 1..] == sig64;
      SplitThree(id, g.branch, sec);
    }
  }

  /** Whatever the payload says, a signature other than its own is refused, and so is none at all. */
  lemma ForgeryRefused(mac: Mac, payload: string, sig: seq<Byte>, now: Time)
    requires sig != mac(payload)
    ensures VerifyGrant(mac, payload + ":" + Encode(sig), now) == Err(Unauthorized)
  {
    hide Encode, Decode, LastIndexChar;
    SignatureFound(payload, sig);
  }

  /** A grant signed under another secret, for every site, branch, expiry and clock. */
  lemma OtherSecretRefused(mac: Mac, other: Mac, id: Uuid, branch: string, exp: Time, now: Time)
    requires other(Payload(id, branch, exp)) != mac(Payload(id, branch, exp))
    ensures VerifyGrant(mac, SignGrant(other, id, branch, exp), now) == Err(Unauthorized)
  {
    ForgeryRefused(mac, Payload(id, branch, exp), other(Payload(id, branch, exp)), now);
  }

  /** An accepted grant, signed again, is accepted as the same grant. */
  lemma AcceptedIsCanonical(mac: Mac, token: string, now: Time)
    requires VerifyGrant(mac, token, now).Ok?
    ensures
      var g := VerifyGrant(mac, token, now).value;
      VerifyGrant(mac, SignGrant(mac, g.siteID, g.branch, g.exp), now) == Ok(g)
  {
    var g := VerifyGrant(mac, token, now).value;
    var payload := token[..LastIndexChar(token, ':').value];
    AcceptedPayload(payload, now);
    FloorOrder(now, g.exp);
    RoundTripExactly(mac, g.siteID, g.branch, g.exp, now);
  }

  lemma AcceptedPayload(payload: string, now: Time)
    requires VerifyPayload(payload, now).Ok?
    ensures
      var g := VerifyPayload(payload, now).value;
      ':' !in g.branch && WholeSecond(g.exp) == g.exp && now < g.exp
  {
    hide Split, ParseUuid, ParseInt;
    var parts := Split(payload, ':');
    AtSecondsWhole(ParseInt(parts[2]).value);
  }

  lemma AtSecondsWhole(s: int)
    ensures WholeSecond(AtSeconds(s)) == AtSeconds(s)
  {}

  // ---- who may preview ----

  datatype Action = Action(cookie: Option<string>, redirectTo: string)

  const SERVE := Action(None, "")

  /** The authorizer as NewGrantAuthz leaves it. */
  datatype Config = Config(mac: Mac, cookieTTL: nat)

  function NewGrantAuthz(mac: Mac, cookieTTL: int): Config {
    Config(mac, if cookieTTL <= 0 then 12 * 3600 * SECOND else cookieTTL)
  }

  /** A cookie lives as long as configured, and half a day if that is not positive. */
  lemma CookieLifetime(mac: Mac, cookieTTL: int)
    ensures NewGrantAuthz(mac, cookieTTL).cookieTTL ==
      if cookieTTL > 0 then cookieTTL else 43_200_000_000_000
  {}

  /** What a preview request carries: the decoded kpt parameter and the cookie ("" when absent), the
      verdict of the bearer validator if one is wired and a token came, and the raw URI. */
  datatype Request = Request(kpt: string, cookie: string, bearer: Option<Outcome<(), Refusal>>, uri: string)

  predicate Matches(g: Grant, siteID: Uuid, branch: string) {
    g.siteID == siteID && g.branch == branch
  }

  /** `now` and `later` are the two clock readings of the grant branch. */
  function Authorize(cfg: Config, siteID: Uuid, branch: string, r: Request, now: Time, later: Time)
    : Outcome<Action, Refusal>
  {
    if r.kpt != "" then
      var g :- VerifyGrant(cfg.mac, r.kpt, now);
      var _ :- Need(Matches(g, siteID, branch), Forbidden);
      Ok(Action(Some(SignGrant(cfg.mac, siteID, branch, Later(later, cfg.cookieTTL))), StripGrantParam(r.uri)))
    else
      var verdict := VerifyGrant(cfg.mac, r.cookie, now);
      if r.cookie != "" && verdict.Ok? then
        if Matches(verdict.value, siteID, branch) then Ok(SERVE) else Err(Forbidden)
      else
        match r.bearer
        case Some(Ok(_)) => Ok(SERVE)
        case Some(Err(e)) => Err(e)
        case None => Err(Unauthorized)
  }

  // ---- the link ----

  const PREVIEW_GRANT_QUERY_PARAM := "kpt"

  function PairKey(pair: string): string {
    match IndexChar(pair, '=')
    case Some(i) => pair[..i]
    case None => pair
  }

  predicate Keeps(pair: string) {
    pair != "" && PairKey(pair) != PREVIEW_GRANT_QUERY_PARAM
  }

  function Kept(pairs: seq<string>): (r: seq<string>)
    ensures forall p :: p in r ==> p in pairs && Keeps(p)
  {
    if pairs == [] then []
    else Kept(pairs[..|pairs| - 1]) + if Keeps(pairs[|pairs| - 1]) then [pairs[|pairs| - 1]] else []
  }

  function Base(url: string): string {
    match IndexChar(url, '?')
    case Some(i) => url[..i]
    case None => url
  }

  /** The query's pairs as written, blank ones left out. */
  function Pairs(url: string): seq<string> {
    match IndexChar(url, '?')
    case Some(i) => Solid(Split(url[i + 1..], '&'))
    case None => []
  }

  function Solid(pairs: seq<string>): (r: seq<string>)
    ensures forall p :: p in r <==> p in pairs && p != ""
  {
    if pairs == [] then []
    else Solid(pairs[..|pairs| - 1]) + if pairs[|pairs| - 1] != "" then [pairs[|pairs| - 1]] else []
  }

  function StripGrantParam(url: string): string {
    match IndexChar(url, '?')
    case None => url
    case Some(i) => Rebuilt(url[..i], Kept(Split(url[i + 1..], '&')))
  }

  function Rebuilt(base: string, kept: seq<string>): string {
    if kept == [] then base else base + "?" + Join(kept, '&')
  }

  method StripGrant(rawURL: string) returns (r: string)
    ensures r == StripGrantParam(rawURL)
  {
    var i := IndexChar(rawURL, '?');
    if i.None? {
      return rawURL;
    }
    var base, q := rawURL[..i.value], rawURL[i.value + 1..];
    var kept: seq<string> := [];
    var pairs := Split(q, '&');
    for k := 0 to |pairs|
      invariant kept == Kept(pairs[..k])
    {
      var pair := pairs[k];
      assert pairs[..k + 1][..k] == pairs[..k];
      if pair == "" {
        continue;
      }
      var key := pair;
      var eq := IndexChar(pair, '=');
      if eq.Some? {
        key := pair[..eq.value];
      }
      if key == PREVIEW_GRANT_QUERY_PARAM {
        continue;
      }
      kept := kept + [pair];
    }
    assert pairs[..|pairs|] == pairs;
    if |kept| == 0 {
      return base;
    }
    r := base + "?" + Join(kept, '&');
  }

  lemma {:induction false} KeptOfKept(pairs: seq<string>)
    requires forall p :: p in pairs ==> Keeps(p)
    ensures Kept(pairs) == pairs && Solid(pairs) == pairs
  {
    if pairs != [] {
      var front, last := pairs[..|pairs| - 1], pairs[|pairs| - 1];
      assert pairs == front + [last];
      KeptOfKept(front);
    }
  }

  lemma KeptSnoc(pairs: seq<string>, p: string)
    ensures Kept(pairs + [p]) == Kept(pairs) + if Keeps(p) then [p] else []
  {
    assert (pairs + [p])[..|pairs|] == pairs;
  }

  lemma {:induction false} KeptOfSolid(pairs: seq<string>)
    ensures Kept(Solid(pairs)) == Kept(pairs)
  {
    if pairs != [] {
      var front, last := pairs[..|pairs| - 1], pairs[|pairs| - 1];
      KeptOfSolid(front);
      KeptSnoc(Solid(front), last);
      if last == "" { assert Solid(pairs) == Solid(front); }
    }
  }

  /** A rebuilt URL reads back as what it was built from. */
  lemma RebuiltReads(base: string, kept: seq<string>)
    requires '?' !in base && forall p :: p in kept ==> Keeps(p) && '&' !in p
    ensures Base(Rebuilt(base, kept)) == base && Pairs(Rebuilt(base, kept)) == kept
    ensures StripGrantParam(Rebuilt(base, kept)) == Rebuilt(base, kept)
  {
    if kept != [] {
      var url := Rebuilt(base, kept);
      FirstIndex(base, '?', Join(kept, '&'));
      assert url[..|base|] == base && url[|base| + 1..] == Join(kept, '&');
      assert forall i :: 0 <= i < |kept| ==> kept[i] in kept;
      SplitJoin(kept, '&');
      KeptOfKept(kept);
    }
  }

  /** Stripping keeps the path and exactly the pairs whose raw key is not kpt, in order; doing it again
      changes nothing. */
  lemma StripExactly(url: string)
    ensures Base(StripGrantParam(url)) == Base(url)
    ensures Pairs(StripGrantParam(url)) == Kept(Pairs(url))
    ensures forall p :: p in Pairs(StripGrantParam(url)) ==> PairKey(p) != PREVIEW_GRANT_QUERY_PARAM
    ensures StripGrantParam(StripGrantParam(url)) == StripGrantParam(url)
  {
    match IndexChar(url, '?')
    case None =>
    case Some(i) =>
      var pairs := Split(url[i + 1..], '&');
      RebuiltReads(url[..i], Kept(pairs));
      KeptOfSolid(pairs);
  }

  // ---- the whole visit ----

  /** A previewer follows the link that the control plane printed for a branch (whose name it has checked;
      see backend/internal/api/preview.go:82), is sent on to a clean address with a
      cookie, and that cookie lets them -- and only for this site and branch -- in until its last second. */
  lemma VisitExactly(mac: Mac, cookieTTL: int, id: Uuid, branch: string, exp: Time, now: Time, later: Time)
    requires Handles.ValidateBranchName(branch).None?
    ensures
      var cfg, grant := NewGrantAuthz(mac, cookieTTL), SignGrant(mac, id, branch, exp);
      var visit := Authorize(cfg, id, branch, Request(grant, "", None, "/?kpt=" + grant), now, later);
      var cookie := SignGrant(mac, id, branch, Later(later, cfg.cookieTTL));
      if WholeSecond(now) < WholeSecond(exp) then visit == Ok(Action(Some(cookie), "/")) else visit == Err(Unauthorized)
    ensures
      var cfg := NewGrantAuthz(mac, cookieTTL);
      var end := Later(later, cfg.cookieTTL);
      AdmitsExactly(cfg, SignGrant(mac, id, branch, end), id, branch, end)
  {
    hide VerifyGrant, SignGrant, StripGrantParam, WholeSecond, Later, Handles.ValidateBranchName;
    Handles.AcceptedBranches(branch);
    var cfg := NewGrantAuthz(mac, cookieTTL);
    var end := Later(later, cfg.cookieTTL);
    RoundTripExactly(mac, id, branch, exp, now);
    LinkStrips(mac, id, branch, exp);
    NotBlank(mac, id, branch, exp);
    NotBlank(mac, id, branch, end);
    forall t: Time { RoundTripExactly(mac, id, branch, end, t); }
  }

  /** The last resort. */
  function BearerVerdict(bearer: Option<Outcome<(), Refusal>>): Outcome<Action, Refusal> {
    match bearer
    case Some(Ok(_)) => Ok(SERVE)
    case Some(Err(e)) => Err(e)
    case None => Err(Unauthorized)
  }

  /** A link decides alone, whatever cookie or bearer token comes with it: an expired one is refused, one for
      another site or branch is forbidden, and a good one sets the cookie and strips the address. */
  lemma LinkDecides(cfg: Config, id: Uuid, branch: string, exp: Time, here: Uuid, target: string, cookie: string,
                    bearer: Option<Outcome<(), Refusal>>, uri: string, now: Time, later: Time)
    requires ':' !in branch
    ensures
      Authorize(cfg, here, target, Request(SignGrant(cfg.mac, id, branch, exp), cookie, bearer, uri), now, later) ==
        if WholeSecond(now) >= WholeSecond(exp) then Err(Unauthorized)
        else if here != id || target != branch then Err(Forbidden)
        else Ok(Action(Some(SignGrant(cfg.mac, id, branch, Later(later, cfg.cookieTTL))), StripGrantParam(uri)))
  {
    hide VerifyGrant, SignGrant, WholeSecond, Later, StripGrantParam;
    RoundTripExactly(cfg.mac, id, branch, exp, now);
    NotBlank(cfg.mac, id, branch, exp);
  }

  /** Without a link, a cookie that is absent or not accepted leaves the decision to the bearer token. */
  lemma BearerDecides(cfg: Config, here: Uuid, target: string, cookie: string, bearer: Option<Outcome<(), Refusal>>,
                      uri: string, now: Time, later: Time)
    requires cookie == "" || VerifyGrant(cfg.mac, cookie, now).Err?
    ensures Authorize(cfg, here, target, Request("", cookie, bearer, uri), now, later) == BearerVerdict(bearer)
  {
    hide VerifyGrant;
  }

  /** A request with this cookie is let in to this site and branch and forbidden any other, whatever bearer
      token it has, until the second of `end`; from then on the bearer token decides. */
  ghost predicate AdmitsExactly(cfg: Config, cookie: string, id: Uuid, branch: string, end: Time) {
    forall id': Uuid, branch': string, t: Time, bearer, uri, t': Time ::
      Authorize(cfg, id', branch', Request("", cookie, bearer, uri), t, t') ==
        if WholeSecond(t) >= WholeSecond(end) then BearerVerdict(bearer)
        else if id' == id && branch' == branch then Ok(SERVE)
        else Err(Forbidden)
  }

  lemma NotBlank(mac: Mac, id: Uuid, branch: string, exp: Time)
    ensures SignGrant(mac, id, branch, exp) != ""
  {}

  lemma LinkStrips(mac: Mac, id: Uuid, branch: string, exp: Time)
    requires '&' !in branch
    ensures StripGrantParam("/?kpt=" + SignGrant(mac, id, branch, exp)) == "/"
  {
    hide IndexChar, Split, SignGrant;
    var grant := SignGrant(mac, id, branch, exp);
    NoAmpersand(mac, id, branch, exp);
    var url, pair := "/?kpt=" + grant, "kpt=" + grant;
    assert url == "/" + "?" + pair;
    FirstIndex("/", '?', pair);
    assert url[..1] == "/" && url[2..] == pair;
    SplitOne(pair, '&');
    assert pair == "kpt" + "=" + grant;
    FirstIndex("kpt", '=', grant);
    assert pair[..3] == "kpt";
    assert !Keeps(pair);
    KeptSnoc([], pair);
    assert [] + [pair] == [pair];
  }

  lemma NoAmpersand(mac: Mac, id: Uuid, branch: string, exp: Time)
    requires '&' !in branch
    ensures '&' !in SignGrant(mac, id, branch, exp)
  {
    hide FormatUuid, FormatInt, Encode, UnixSeconds;
    ParseFormatUuid(id);
    ParseFormatInt(UnixSeconds(exp));
    DecodeEncode(mac(Payload(id, branch, exp)));
  }
}
