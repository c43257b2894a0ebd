/**
 The effective OIDC configuration (environment over database over defaults) and the
 lazily built, cached provider. The cache key leaves out the allowlists; what keeps them
 right is that an admin save drops both caches.
 backend/internal/oidccfg/resolve.go, backend/internal/oidccfg/oidccfg.go, backend/internal/oidccfg/build.go
 */
module ProviderCache {
  import opened Prelude
  import opened Text

  const CALLBACK_PATH := "/auth/callback"
  const GOOGLE_ISSUER := "https://accounts.google.com"

  /** The values config.Load baked in. */
  datatype EnvValues = EnvValues(
    issuer: string, clientId: string, clientSecret: string, redirect: string,
    emails: seq<string>, domains: seq<string>, admins: seq<string>)

  /** Which of them were set explicitly. */
  datatype EnvSet = EnvSet(
    issuer: bool, clientId: bool, clientSecret: bool, redirect: bool,
    emails: bool, domains: bool, admins: bool, authMode: bool)

  datatype Env = Env(values: EnvValues, isSet: EnvSet, oidcEnabled: bool)

  /** The stored settings; an absent key is None. Lists are raw comma-separated text. */
  datatype DbConfig = DbConfig(
    enabled: Option<bool>, issuer: Option<string>, clientId: Option<string>, clientSecret: Option<string>,
    redirect: Option<string>, emails: Option<string>, domains: Option<string>, admins: Option<string>)

  const UNSET := DbConfig(None, None, None, None, None, None, None, None)

  datatype Source = FromEnv | FromDb | Derived

  datatype Field<T> = Field(value: T, source: Source, locked: bool)

  datatype Effective = Effective(
    enabled: Field<bool>, issuer: Field<string>, clientId: Field<string>, clientSecret: Field<string>,
    redirect: Field<string>, emails: Field<seq<string>>, domains: Field<seq<string>>, admins: Field<seq<string>>,
    redirectExplicit: bool)

  // ---- resolving one field ----

  function ResolveEnabled(env: Env, db: DbConfig): Field<bool> {
    if env.isSet.authMode then Field(env.oidcEnabled, FromEnv, true)
    else if db.enabled.Some? then Field(db.enabled.value, FromDb, false)
    else Field(false, Derived, false)
  }

  /** env over db over the default, for a plain text field. */
  function ResolveText(isSet: bool, envValue: string, dbValue: Option<string>, fallback: string): Field<string> {
    if isSet then Field(envValue, FromEnv, true)
    else if dbValue.Some? && dbValue.value != "" then Field(dbValue.value, FromDb, false)
    else Field(fallback, Derived, false)
  }

  function DefaultIssuer(envIssuer: string): string {
    if TrimSpace(envIssuer) != "" then envIssuer else GOOGLE_ISSUER
  }

  function IsSlash(c: char): bool {
    c == '/'
  }

  function DerivedRedirect(base: string): string {
    if base == "" then "" else TrimRight(base, IsSlash) + CALLBACK_PATH
  }

  /** The fields of a comma-separated list, trimmed, the empty ones dropped. */
  function CsvFields(parts: seq<string>): seq<string> {
    if parts == [] then []
    else (if TrimSpace(parts[0]) != "" then [TrimSpace(parts[0])] else []) + CsvFields(parts[1..])
  }

  /** Lowercased and trimmed, the empty ones and the repeats dropped, in order of first appearance. */
  function Normalized(list: seq<string>): (r: seq<string>) {
    if list == [] then []
    else
      var front := Normalized(list[..|list| - 1]);
      var v := ToLower(TrimSpace(list[|list| - 1]));
      if v == "" || v in front then front else front + [v]
  }

  function ResolveList(isSet: bool, envValue: seq<string>, dbRaw: Option<string>): Field<seq<string>> {
    if isSet then Field(Normalized(envValue), FromEnv, true)
    else if dbRaw.Some? && TrimSpace(dbRaw.value) != "" then
      Field(Normalized(CsvFields(Split(dbRaw.value, ','))), FromDb, false)
    else Field([], Derived, false)
  }

  /** Resolve: `base` is the effective control base URL of the request. */
  function Resolve(env: Env, db: DbConfig, base: string): Effective {
    var redirect := ResolveText(env.isSet.redirect, env.values.redirect, db.redirect, DerivedRedirect(base));
    Effective(
      ResolveEnabled(env, db),
      ResolveText(env.isSet.issuer, env.values.issuer, db.issuer, DefaultIssuer(env.values.issuer)),
      ResolveText(env.isSet.clientId, env.values.clientId, db.clientId, ""),
      ResolveText(env.isSet.clientSecret, env.values.clientSecret, db.clientSecret, ""),
      redirect,
      ResolveList(env.isSet.emails, env.values.emails, db.emails),
      ResolveList(env.isSet.domains, env.values.domains, db.domains),
      ResolveList(env.isSet.admins, env.values.admins, db.admins),
      redirect.source != Derived)
  }

  predicate Usable(eff: Effective) {
    eff.enabled.value && eff.clientId.value != "" && eff.clientSecret.value != ""
  }

  /** A normalized list has no repeats, no empty entry and nothing upper-case, and the same members as its source. */
  lemma {:induction false} NormalizedIs(list: seq<string>)
    ensures Distinct(Normalized(list))
    ensures forall v ::
      v in Normalized(list) <==> v != "" && exists i :: 0 <= i < |list| && v == ToLower(TrimSpace(list[i]))
    ensures forall v :: v in Normalized(list) ==> IsLower(v)
  {
    if list != [] {
      var front := list[..|list| - 1];
      NormalizedIs(front);
      var last := ToLower(TrimSpace(list[|list| - 1]));
      LowerFixed(TrimSpace(list[|list| - 1]));
      forall v
        ensures v in Normalized(list) <==> v != "" && exists i :: 0 <= i < |list| && v == ToLower(TrimSpace(list[i]))
      {
        assert forall i :: 0 <= i < |front| ==> front[i] == list[i];
      }
    }
  }

  /** The order is that of first appearance: what a list gives is what each of its beginnings gives, and more. */
  lemma {:induction false} NormalizedInOrder(list: seq<string>, k: nat)
    requires k <= |list|
    ensures Normalized(list[..k]) <= Normalized(list)
    decreases |list|
  {
    if k == |list| {
      assert list[..k] == list;
    } else {
      NormalizedInOrder(list[..|list| - 1], k);
      assert list[..|list| - 1][..k] == list[..k];
    }
  }

  // ---- what the effective configuration is, field by field ----

  /** env over db over the default: the environment's value is locked, a blank stored value does not count. */
  ghost predicate TextIs(f: Field<string>, isSet: bool, envValue: string, stored: Option<string>, fallback: string) {
    (isSet ==> f == Field(envValue, FromEnv, true)) &&
    (!isSet && stored.Some? && stored.value != "" ==> f == Field(stored.value, FromDb, false)) &&
    (!isSet && (stored.None? || stored.value == "") ==> f == Field(fallback, Derived, false))
  }

  /** What a list field is made of: the environment's list, else the comma-separated stored text, else nothing. */
  function ChosenList(isSet: bool, envValue: seq<string>, stored: Option<string>): seq<string> {
    if isSet then envValue else if stored.Some? then Split(stored.value, ',') else []
  }

  /** The members of the chosen list, trimmed and lower-cased, the blank ones dropped, each once. */
  ghost predicate ListIs(f: Field<seq<string>>, isSet: bool, envValue: seq<string>, stored: Option<string>) {
    var chosen := ChosenList(isSet, envValue, stored);
    Distinct(f.value) && (forall v :: v in f.value <==> v != "" && Offers(chosen, v)) &&
    f.locked == isSet &&
    f.source ==
      if isSet then FromEnv else if stored.Some? && TrimSpace(stored.value) != "" then FromDb else Derived
  }

  ghost predicate Offers(chosen: seq<string>, v: string) {
    exists i :: 0 <= i < |chosen| && v == ToLower(TrimSpace(chosen[i]))
  }

  /** The redirect derived from a base URL: its trailing slashes replaced by the callback path. */
  ghost predicate IsCallback(url: string, base: string) {
    if base == "" then url == ""
    else
      exists n: nat :: n <= |base| && url == base[..n] + CALLBACK_PATH &&
        (n > 0 ==> base[n - 1] != '/') && forall i :: n <= i < |base| ==> base[i] == '/'
  }

  ghost predicate EffectiveIs(env: Env, db: DbConfig, base: string, eff: Effective) {
    var e, pinned := env.values, env.isSet;
    (pinned.authMode ==> eff.enabled == Field(env.oidcEnabled, FromEnv, true)) &&
    (!pinned.authMode && db.enabled.Some? ==> eff.enabled == Field(db.enabled.value, FromDb, false)) &&
    (!pinned.authMode && db.enabled.None? ==> eff.enabled == Field(false, Derived, false)) &&
    TextIs(eff.issuer, pinned.issuer, e.issuer, db.issuer,
           if TrimSpace(e.issuer) == "" then "https://accounts.google.com" else e.issuer) &&
    TextIs(eff.clientId, pinned.clientId, e.clientId, db.clientId, "") &&
    TextIs(eff.clientSecret, pinned.clientSecret, e.clientSecret, db.clientSecret, "") &&
    (exists callback ::
      IsCallback(callback, base) && TextIs(eff.redirect, pinned.redirect, e.redirect, db.redirect, callback)) &&
    (eff.redirectExplicit <==> pinned.redirect || (db.redirect.Some? && db.redirect.value != "")) &&
    ListIs(eff.emails, pinned.emails, e.emails, db.emails) &&
    ListIs(eff.domains, pinned.domains, e.domains, db.domains) &&
    ListIs(eff.admins, pinned.admins, e.admins, db.admins)
  }

  lemma {:induction false} CallbackOf(base: string)
    ensures IsCallback(DerivedRedirect(base), base)
  {
    if base != "" {
      var root := TrimRight(base, IsSlash);
      TrimmedPrefix(base);
      assert DerivedRedirect(base) == base[..|root|] + CALLBACK_PATH;
    }
  }

  lemma {:induction false} TrimmedPrefix(s: string)
    ensures
      var root := TrimRight(s, IsSlash);
      root <= s && (root != "" ==> root[|root| - 1] != '/') && forall i :: |root| <= i < |s| ==> s[i] == '/'
  {
    if s != "" && s[|s| - 1] == '/' { TrimmedPrefix(s[..|s| - 1]); }
  }

  lemma {:induction false} CsvOffers(parts: seq<string>, v: string)
    requires v != ""
    ensures Offers(CsvFields(parts), v) <==> Offers(parts, v)
    decreases |parts|
  {
    if parts != [] {
      var head, rest := TrimSpace(parts[0]), CsvFields(parts[1..]);
      CsvOffers(parts[1..], v);
      TrimTwice(parts[0], IsSpace);
      OffersCons(parts[0], parts[1..], v);
      assert parts == [parts[0]] + parts[1..];
      if head != "" {
        OffersCons(head, rest, v);
      } else {
        assert ToLower(head) == "";
        assert CsvFields(parts) == [] + rest == rest;
      }
    }
  }

  lemma OffersCons(a: string, s: seq<string>, v: string)
    ensures Offers([a] + s, v) <==> v == ToLower(TrimSpace(a)) || Offers(s, v)
  {
    if Offers([a] + s, v) {
      var i :| 0 <= i < |[a] + s| && v == ToLower(TrimSpace(([a] + s)[i]));
      if i > 0 { assert s[i - 1] == ([a] + s)[i]; }
    }
    if v == ToLower(TrimSpace(a)) { assert ([a] + s)[0] == a; }
    if Offers(s, v) {
      var i :| 0 <= i < |s| && v == ToLower(TrimSpace(s[i]));
      assert ([a] + s)[i + 1] == s[i];
    }
  }

  lemma ListResolves(isSet: bool, envValue: seq<string>, stored: Option<string>)
    ensures ListIs(ResolveList(isSet, envValue, stored), isSet, envValue, stored)
  {
    hide Split, CsvFields, Normalized, ToLower;
    NormalizedOffers(envValue);
    if stored.Some? {
      var parts := Split(stored.value, ',');
      NormalizedOffers(CsvFields(parts));
      forall v | v != "" ensures Offers(CsvFields(parts), v) <==> Offers(parts, v) { CsvOffers(parts, v); }
      if TrimSpace(stored.value) == "" {
        BlankOffersNothing(stored.value);
      }
    }
  }

  lemma NormalizedOffers(list: seq<string>)
    ensures Distinct(Normalized(list)) && forall v :: v in Normalized(list) <==> v != "" && Offers(list, v)
  {
    NormalizedIs(list);
  }

  /** A blank text has no comma, and its one field is blank. */
  lemma BlankOffersNothing(s: string)
    requires TrimSpace(s) == ""
    ensures forall v :: v != "" ==> !Offers(Split(s, ','), v)
  {
    AllBlank(s);
    SplitOne(s, ',');
    assert ToLower(TrimSpace(s)) == "";
  }

  lemma {:induction false} AllBlank(s: string)
    requires TrimSpace(s) == ""
    ensures forall c :: c in s ==> IsSpace(c)
  {
    if TrimLeft(s, IsSpace) != "" {
      LeftEnd(s, IsSpace);
      NotAllBlank(TrimLeft(s, IsSpace));
    }
    LeftBlank(s);
  }

  lemma {:induction false} LeftBlank(s: string)
    requires TrimLeft(s, IsSpace) == ""
    ensures forall c :: c in s ==> IsSpace(c)
  {
    if s != "" {
      LeftBlank(s[1..]);
      assert s == [s[0]] + s[1..];
    }
  }

  lemma {:induction false} NotAllBlank(s: string)
    requires s != "" && !IsSpace(s[0])
    ensures TrimRight(s, IsSpace) != ""
  {
    if IsSpace(s[|s| - 1]) { NotAllBlank(s[..|s| - 1]); }
  }

  /** Resolve computes exactly that, each field from its own settings. */
  lemma ResolveExactly(env: Env, db: DbConfig, base: string)
    ensures EffectiveIs(env, db, base, Resolve(env, db, base))
  {
    hide ListIs, ResolveList, IsCallback, DerivedRedirect, TrimSpace;
    CallbackOf(base);
    ListResolves(env.isSet.emails, env.values.emails, db.emails);
    ListResolves(env.isSet.domains, env.values.domains, db.domains);
    ListResolves(env.isSet.admins, env.values.admins, db.admins);
    var redirect := Resolve(env, db, base).redirect;
    assert TextIs(redirect, env.isSet.redirect, env.values.redirect, db.redirect, DerivedRedirect(base));
  }

  // ---- the cached provider ----

  /** The inputs discovery is keyed by: no allowlists. */
  datatype Key = Key(issuer: string, clientId: string, clientSecret: string, redirect: string)

  function KeyOf(eff: Effective): Key {
    Key(eff.issuer.value, eff.clientId.value, eff.clientSecret.value, eff.redirect.value)
  }

  /** What a build gave for a configuration: a provider made from it, or a discovery error. */
  datatype Build = Built(config: Effective) | BuildFailed(config: Effective)

  datatype Answer = NotConfigured | Got(build: Build)

  /** The cached database read and the cached build. */
  datatype Cache = Cache(db: Option<DbConfig>, built: Option<(Key, Build)>)

  const COLD := Cache(None, None)

  /** cachedDBConfig: read once; a failed read is remembered as "nothing set". */
  function SeenDb(cache: Cache, store: DbConfig, readOk: bool): DbConfig {
    if cache.db.Some? then cache.db.value else if readOk then store else UNSET
  }

  /** The first half of ProviderFor: resolve the configuration of this request. */
  function LoginResolve(env: Env, cache: Cache, store: DbConfig, base: string, readOk: bool): (Cache, Effective) {
    var db := SeenDb(cache, store, readOk);
    (cache.(db := Some(db)), Resolve(env, db, base))
  }

  /** The second half: look the configuration up, or build and remember the outcome, good or bad. */
  function LoginLookup(cache: Cache, eff: Effective, discovers: bool): (Cache, Answer) {
    if !Usable(eff) then (cache, NotConfigured)
    else if cache.built.Some? && cache.built.value.0 == KeyOf(eff) then (cache, Got(cache.built.value.1))
    else
      var build := if discovers then Built(eff) else BuildFailed(eff);
      (cache.(built := Some((KeyOf(eff), build))), Got(build))
  }

  function Login(env: Env, cache: Cache, store: DbConfig, base: string, readOk: bool, discovers: bool)
    : (Cache, Answer)
  {
    var (cache1, eff) := LoginResolve(env, cache, store, base, readOk);
    LoginLookup(cache1, eff, discovers)
  }

  // ---- coherence ----

  /** The build in the cache was made from the cached database settings, for some request's base URL. */
  ghost predicate Coherent(env: Env, cache: Cache) {
    cache.built.Some? ==>
      cache.db.Some? && cache.built.value.0 == KeyOf(cache.built.value.1.config) &&
      exists base :: cache.built.value.1.config == Resolve(env, cache.db.value, base)
  }

  /** Same settings and same key: then every field is the same, the allowlists too. */
  lemma KeyDetermines(env: Env, db: DbConfig, base: string, base': string)
    requires KeyOf(Resolve(env, db, base)) == KeyOf(Resolve(env, db, base'))
    ensures Resolve(env, db, base) == Resolve(env, db, base')
  {}

  lemma LookupCoherent(env: Env, cache: Cache, db: DbConfig, base: string, discovers: bool)
    requires Coherent(env, cache) && cache.db == Some(db)
    ensures
      var (cache', answer) := LoginLookup(cache, Resolve(env, db, base), discovers);
      Coherent(env, cache') && cache'.db == cache.db &&
      answer.NotConfigured? == !Usable(Resolve(env, db, base)) &&
      (answer.Got? ==> answer.build.config == Resolve(env, db, base))
  {
    var eff := Resolve(env, db, base);
    if cache.built.Some? && cache.built.value.0 == KeyOf(eff) {
      var base' :| cache.built.value.1.config == Resolve(env, db, base');
      KeyDetermines(env, db, base, base');
    }
  }

  /** A discovery is remembered under all four inputs that change it, and under nothing else. */
  lemma KeyIs(a: Effective, b: Effective)
    ensures KeyOf(a) == KeyOf(b) <==>
      a.issuer.value == b.issuer.value && a.clientId.value == b.clientId.value &&
      a.clientSecret.value == b.clientSecret.value && a.redirect.value == b.redirect.value
  {}

  /** What a login is answered with, in terms of the settings themselves: no provider unless OIDC is switched
      on with a client id and a secret, and otherwise one whose every field is what those settings say. */
  lemma LoginExactly(env: Env, cache: Cache, store: DbConfig, base: string, readOk: bool, discovers: bool)
    requires Coherent(env, cache)
    ensures
      var db, answer := SeenDb(cache, store, readOk), Login(env, cache, store, base, readOk, discovers).1;
      (answer.Got? ==> EffectiveIs(env, db, base, answer.build.config)) &&
      forall eff :: EffectiveIs(env, db, base, eff) ==>
        (answer.Got? <==> eff.enabled.value && eff.clientId.value != "" && eff.clientSecret.value != "")
  {
    hide EffectiveIs, Resolve;
    var db := SeenDb(cache, store, readOk);
    var eff0 := Resolve(env, db, base);
    LookupCoherent(env, cache.(db := Some(db)), db, base, discovers);
    ResolveExactly(env, db, base);
    forall eff | EffectiveIs(env, db, base, eff)
      ensures eff.enabled.value == eff0.enabled.value && eff.clientId.value == eff0.clientId.value
      ensures eff.clientSecret.value == eff0.clientSecret.value
    {
      SameCredentials(env, db, base, eff, eff0);
    }
  }

  lemma SameCredentials(env: Env, db: DbConfig, base: string, a: Effective, b: Effective)
    requires EffectiveIs(env, db, base, a) && EffectiveIs(env, db, base, b)
    ensures a.enabled == b.enabled && a.clientId == b.clientId && a.clientSecret == b.clientSecret
  {
    hide ListIs, IsCallback;
  }

  datatype Event =
    | DoLogin(base: string, readOk: bool, discovers: bool)
    | Put(config: DbConfig, persisted: bool)

  datatype System = System(store: DbConfig, cache: Cache)

  /** One request. A save that was persisted drops both caches; one that failed changes nothing. */
  function Serve(env: Env, sys: System, ev: Event): (System, Option<Answer>) {
    match ev
    case DoLogin(base, readOk, discovers) =>
      var (cache, answer) := Login(env, sys.cache, sys.store, base, readOk, discovers);
      (sys.(cache := cache), Some(answer))
    case Put(config, persisted) =>
      (if persisted then System(config, COLD) else sys, None)
  }

  function Answers(env: Env, sys: System, events: seq<Event>): (r: seq<Option<Answer>>)
    ensures |r| == |events|
    decreases |events|
  {
    if events == [] then []
    else
      var (sys', answer) := Serve(env, sys, events[0]);
      [answer] + Answers(env, sys', events[1..])
  }

  /** The same requests without a cached build: each login is answered from the settings that the first read
      after the last save gave -- the stored ones, or none if that read failed. */
  datatype Plain = Plain(store: DbConfig, seen: Option<DbConfig>)

  function PlainServe(pl: Plain, ev: Event): (Plain, Option<DbConfig>) {
    match ev
    case DoLogin(base, readOk, discovers) =>
      var db := if pl.seen.Some? then pl.seen.value else if readOk then pl.store else UNSET;
      (pl.(seen := Some(db)), Some(db))
    case Put(config, persisted) => (if persisted then Plain(config, None) else pl, None)
  }

  /** The answer is what a build from `db` for this request would be, in every field. */
  ghost predicate Right(env: Env, ev: Event, answer: Option<Answer>, db: Option<DbConfig>) {
    match ev
    case Put(_, _) => answer.None?
    case DoLogin(base, _, _) =>
      answer.Some? && db.Some? &&
      var eff := Resolve(env, db.value, base);
      if Usable(eff) then answer.value.Got? && answer.value.build.config == eff else answer.value.NotConfigured?
  }

  ghost predicate AllRight(env: Env, pl: Plain, events: seq<Event>, answers: seq<Option<Answer>>)
    requires |answers| == |events|
    decreases |events|
  {
    events == [] ||
    (Right(env, events[0], answers[0], PlainServe(pl, events[0]).1) &&
     AllRight(env, PlainServe(pl, events[0]).0, events[1..], answers[1..]))
  }

  lemma ServeRight(env: Env, sys: System, pl: Plain, ev: Event)
    requires Coherent(env, sys.cache) && pl == Plain(sys.store, sys.cache.db)
    ensures
      var (sys', answer) := Serve(env, sys, ev);
      Coherent(env, sys'.cache) && PlainServe(pl, ev).0 == Plain(sys'.store, sys'.cache.db) &&
      Right(env, ev, answer, PlainServe(pl, ev).1)
  {
    if ev.DoLogin? {
      var db := SeenDb(sys.cache, sys.store, ev.readOk);
      LookupCoherent(env, sys.cache.(db := Some(db)), db, ev.base, ev.discovers);
    }
  }

  lemma {:induction false} ServeAllRight(env: Env, sys: System, pl: Plain, events: seq<Event>)
    requires Coherent(env, sys.cache) && pl == Plain(sys.store, sys.cache.db)
    ensures AllRight(env, pl, events, Answers(env, sys, events))
    decreases |events|
  {
    if events != [] {
      ServeRight(env, sys, pl, events[0]);
      var sys' := Serve(env, sys, events[0]).0;
      ServeAllRight(env, sys', PlainServe(pl, events[0]).0, events[1..]);
      assert Answers(env, sys, events)[1..] == Answers(env, sys', events[1..]);
    }
  }

  /** Every run of logins and saves, one request at a time: each login gets a provider (or a remembered
      discovery error) built from exactly the configuration in force, allowlists included. */
  lemma CacheIsTransparent(env: Env, store: DbConfig, events: seq<Event>)
    ensures AllRight(env, Plain(store, None), events, Answers(env, System(store, COLD), events))
  {
    ServeAllRight(env, System(store, COLD), Plain(store, None), events);
  }

  /** An event after which the build for `eff` is still the cached one: a login that resolves to the same
      key, or a save that was not persisted. */
  predicate Keeps(env: Env, db: DbConfig, eff: Effective, ev: Event) {
    match ev
    case DoLogin(base, _, _) => KeyOf(Resolve(env, db, base)) == KeyOf(eff)
    case Put(_, persisted) => !persisted
  }

  /** Discovery runs once: whatever it gave -- a provider or an error -- is what every later login with the
      same key gets until the next save, however discovery would turn out by then. */
  lemma {:induction false} OutcomeSticks(env: Env, sys: System, build: Build, events: seq<Event>, i: nat)
    requires sys.cache.db.Some? && sys.cache.built == Some((KeyOf(build.config), build)) && Usable(build.config)
    requires forall k :: 0 <= k < |events| ==> Keeps(env, sys.cache.db.value, build.config, events[k])
    requires i < |events| && events[i].DoLogin? && Usable(Resolve(env, sys.cache.db.value, events[i].base))
    ensures Answers(env, sys, events)[i] == Some(Got(build))
    decreases |events|
  {
    var (sys', answer) := Serve(env, sys, events[0]);
    assert Keeps(env, sys.cache.db.value, build.config, events[0]);
    assert sys' == sys;
    if i > 0 { OutcomeSticks(env, sys', build, events[1..], i - 1); }
  }

  /** ... and it runs exactly when the cache holds nothing for the key. */
  lemma DiscoveryRuns(env: Env, cache: Cache, store: DbConfig, base: string, readOk: bool, discovers: bool)
    ensures
      var eff := Resolve(env, SeenDb(cache, store, readOk), base);
      var (cache', answer) := Login(env, cache, store, base, readOk, discovers);
      Usable(eff) ==>
        cache'.built == Some((KeyOf(eff), answer.build)) &&
        if cache.built.Some? && cache.built.value.0 == KeyOf(eff) then cache'.built == cache.built
        else answer == Got(if discovers then Built(eff) else BuildFailed(eff))
  {}

  // ---- which settings are in force ----

  function PlainAfter(pl: Plain, events: seq<Event>): Plain
    decreases |events|
  {
    if events == [] then pl else PlainAfter(PlainServe(pl, events[0]).0, events[1..])
  }

  predicate Saves(ev: Event) {
    ev.Put? && ev.persisted
  }

  /** How the first read after the last persisted save went; None if nothing was read since. */
  function FirstRead(events: seq<Event>): Option<bool> {
    if events == [] then None
    else
      var last, before := events[|events| - 1], FirstRead(events[..|events| - 1]);
      if Saves(last) then None
      else if last.DoLogin? && before.None? then Some(last.readOk)
      else before
  }

  lemma {:induction false} PlainAfterSnoc(pl: Plain, events: seq<Event>, ev: Event)
    ensures PlainAfter(pl, events + [ev]) == PlainServe(PlainAfter(pl, events), ev).0
    decreases |events|
  {
    if events == [] {
      assert [] + [ev] == [ev];
    } else {
      assert (events + [ev])[1..] == events[1..] + [ev];
      PlainAfterSnoc(PlainServe(pl, events[0]).0, events[1..], ev);
    }
  }

  lemma {:induction false} SeenIsFirstRead(store: DbConfig, events: seq<Event>)
    ensures
      var pl := PlainAfter(Plain(store, None), events);
      pl.seen == match FirstRead(events) case None => None case Some(ok) => Some(if ok then pl.store else UNSET)
    decreases |events|
  {
    if events != [] {
      var front, last := events[..|events| - 1], events[|events| - 1];
      assert events == front + [last];
      SeenIsFirstRead(store, front);
      PlainAfterSnoc(Plain(store, None), front, last);
    }
  }

  /** What is in force is what is stored if and only if the first read after the last save did not fail -- or
      nothing was set anyway. Later reads do not matter: they are not made. */
  lemma InForceIsStored(store: DbConfig, events: seq<Event>)
    ensures
      var pl := PlainAfter(Plain(store, None), events);
      (pl.seen.Some? ==> pl.seen.value == pl.store) <==> FirstRead(events) != Some(false) || pl.store == UNSET
  {
    SeenIsFirstRead(store, events);
  }

  /** A failed first read, although the next one would succeed, keeps a configured OIDC login switched off. */
  lemma FailedReadSticks(env: Env, store: DbConfig, base: string, discovers: bool)
    requires Usable(Resolve(env, store, base)) && !Usable(Resolve(env, UNSET, base))
    ensures
      var events := [DoLogin(base, false, discovers), DoLogin(base, true, discovers)];
      Answers(env, System(store, COLD), events) == [Some(NotConfigured), Some(NotConfigured)] &&
      FirstRead(events) == Some(false)
  {
    hide Resolve, Usable;
    var first, second := DoLogin(base, false, discovers), DoLogin(base, true, discovers);
    var events := [first, second];
    var sys := Serve(env, System(store, COLD), first).0;
    assert events[1..] == [second] && [second][1..] == [];
    assert Answers(env, sys, [second]) == [Some(NotConfigured)];
    assert Answers(env, System(store, COLD), events) == [Some(NotConfigured)] + [Some(NotConfigured)];
    assert events[..1] == [first] && [first][..0] == [];
    assert FirstRead([first]) == Some(false);
    assert FirstRead(events) == Some(false);
  }

  // ---- logins in two halves, in any interleaving ----

  /** A login resolves its configuration before it takes the lock; `id` tells the open ones apart. */
  datatype Half =
    | Begin(id: nat, base: string, readOk: bool)
    | Finish(id: nat, discovers: bool)
    | Save(config: DbConfig, persisted: bool)

  datatype SplitSystem = SplitSystem(store: DbConfig, cache: Cache, open: map<nat, Effective>)

  function ServeHalf(env: Env, sys: SplitSystem, ev: Half): (SplitSystem, Option<Answer>) {
    match ev
    case Begin(id, base, readOk) =>
      var (cache, eff) := LoginResolve(env, sys.cache, sys.store, base, readOk);
      (sys.(cache := cache, open := sys.open[id := eff]), None)
    case Finish(id, discovers) =>
      if id !in sys.open then (sys, None)
      else
        var (cache, answer) := LoginLookup(sys.cache, sys.open[id], discovers);
        (sys.(cache := cache, open := sys.open - {id}), Some(answer))
    case Save(config, persisted) =>
      (if persisted then sys.(store := config, cache := COLD) else sys, None)
  }

  function Fresh(store: DbConfig): SplitSystem {
    SplitSystem(store, COLD, map[])
  }

  /** The system before the k-th event, and what the k-th event is answered with. */
  function SystemAt(env: Env, store: DbConfig, trace: seq<Half>, k: nat): SplitSystem
    requires k <= |trace|
  {
    if k == 0 then Fresh(store) else ServeHalf(env, SystemAt(env, store, trace, k - 1), trace[k - 1]).0
  }

  function AnswerAt(env: Env, store: DbConfig, trace: seq<Half>, k: nat): Option<Answer>
    requires k < |trace|
  {
    ServeHalf(env, SystemAt(env, store, trace, k), trace[k]).1
  }

  // ---- the same trace without a cached build ----

  /** The settings in force; for each open login the base URL it asked with and the configuration it resolved;
      and the open logins that a persisted save has overtaken. */
  datatype Ledger = Ledger(pl: Plain, asked: map<nat, string>, wants: map<nat, Effective>, overtaken: set<nat>)

  predicate Saved(ev: Half) {
    ev.Save? && ev.persisted
  }

  function Enter(env: Env, l: Ledger, ev: Half): Ledger {
    match ev
    case Begin(id, base, readOk) =>
      var (pl, db) := PlainServe(l.pl, DoLogin(base, readOk, true));
      Ledger(pl, l.asked[id := base], l.wants[id := Resolve(env, db.value, base)], l.overtaken - {id})
    case Finish(id, _) => Ledger(l.pl, l.asked - {id}, l.wants - {id}, l.overtaken - {id})
    case Save(config, persisted) =>
      if persisted then Ledger(Plain(config, None), l.asked, l.wants, l.wants.Keys) else l
  }

  function LedgerAt(env: Env, store: DbConfig, trace: seq<Half>, k: nat): Ledger
    requires k <= |trace|
  {
    if k == 0 then Ledger(Plain(store, None), map[], map[], {})
    else Enter(env, LedgerAt(env, store, trace, k - 1), trace[k - 1])
  }

  /** The configuration that the login ended by the k-th event had resolved; None for any other event. */
  function WantAt(env: Env, store: DbConfig, trace: seq<Half>, k: nat): Option<Effective> {
    if k < |trace| && trace[k].Finish? then Lookup(LedgerAt(env, store, trace, k).wants, trace[k].id) else None
  }

  /** The same for a login that gets as far as looking its configuration up. */
  function LookupAt(env: Env, store: DbConfig, trace: seq<Half>, k: nat): Option<Effective> {
    var want := WantAt(env, store, trace, k);
    if want.Some? && Usable(want.value) then want else None
  }

  predicate SameKey(a: Option<Effective>, b: Option<Effective>) {
    a.Some? && b.Some? && KeyOf(a.value) == KeyOf(b.value)
  }

  /** Where the build that is cached before the k-th event was discovered: by the last login, since the last
      persisted save, whose key was not that of the discovery before it. */
  function Discoverer(env: Env, store: DbConfig, trace: seq<Half>, k: nat): Option<nat>
    requires k <= |trace|
  {
    if k == 0 then None
    else
      var look, before := LookupAt(env, store, trace, k - 1), Discoverer(env, store, trace, k - 1);
      if Saved(trace[k - 1]) then None
      else if look.None? || (before.Some? && SameKey(LookupAt(env, store, trace, before.value), look)) then before
      else Some(k - 1)
  }

  /** What the discovery of the login ended at `k` gave. */
  function BuildOf(ev: Half, config: Effective): Build {
    if ev.Finish? && ev.discovers then Built(config) else BuildFailed(config)
  }

  /** The discovery belongs to the stretch since the last persisted save, and all lookups after it had its
      key; if there is none, no lookup was made since the last save. */
  lemma {:induction false} DiscovererIs(env: Env, store: DbConfig, trace: seq<Half>, k: nat)
    requires k <= |trace|
    ensures
      var r := Discoverer(env, store, trace, k);
      if r.None? then
        forall i :: 0 <= i < k && LookupAt(env, store, trace, i).Some? ==> SavedBetween(trace, i, k)
      else
        r.value < k && LookupAt(env, store, trace, r.value).Some? && !SavedBetween(trace, r.value, k) &&
        forall i :: r.value < i < k && LookupAt(env, store, trace, i).Some? ==>
          SameKey(LookupAt(env, store, trace, r.value), LookupAt(env, store, trace, i))
    decreases k
  {
    hide LookupAt, SameKey, Saved;
    if k > 0 {
      DiscovererIs(env, store, trace, k - 1);
      var before := Discoverer(env, store, trace, k - 1);
      forall i | 0 <= i < k - 1 && SavedBetween(trace, i, k - 1) ensures SavedBetween(trace, i, k) {}
      if Saved(trace[k - 1]) {
        forall i | 0 <= i < k - 1 ensures SavedBetween(trace, i, k) { assert i < k - 1 < k; }
        SavesAreNoLookups(env, store, trace, k - 1);
      }
    }
  }

  /** ... and it begins that stretch: the lookup just before it, if no save came between, had another key. */
  lemma {:induction false} DiscovererBegins(env: Env, store: DbConfig, trace: seq<Half>, k: nat, i: nat)
    requires k <= |trace| && Discoverer(env, store, trace, k).Some?
    ensures
      var j := Discoverer(env, store, trace, k).value;
      i < j && LookupAt(env, store, trace, i).Some? && !SavedBetween(trace, i, k) &&
      (forall m :: i < m < j ==> LookupAt(env, store, trace, m).None?) ==>
        !SameKey(LookupAt(env, store, trace, i), LookupAt(env, store, trace, j))
    decreases k
  {
    hide LookupAt, Saved;
    var j := Discoverer(env, store, trace, k).value;
    DiscovererIs(env, store, trace, k - 1);
    if Discoverer(env, store, trace, k - 1) == Some(j) {
      DiscovererBegins(env, store, trace, k - 1, i);
      assert SavedBetween(trace, i, k - 1) ==> SavedBetween(trace, i, k);
    } else {
      assert j == k - 1 && (SavedBetween(trace, i, j) ==> SavedBetween(trace, i, k));
    }
  }

  ghost predicate SavedBetween(trace: seq<Half>, i: int, k: int)
    requires k <= |trace|
  {
    exists m: nat :: i < m < k && Saved(trace[m])
  }

  lemma SavesAreNoLookups(env: Env, store: DbConfig, trace: seq<Half>, k: nat)
    ensures k < |trace| && Saved(trace[k]) ==> LookupAt(env, store, trace, k).None?
  {}

  // ---- what the cache answers, in every interleaving ----

  ghost predicate SystemIs(env: Env, store: DbConfig, trace: seq<Half>, k: nat)
    requires k <= |trace|
  {
    var sys, l, r := SystemAt(env, store, trace, k), LedgerAt(env, store, trace, k), Discoverer(env, store, trace, k);
    sys.store == l.pl.store && sys.cache.db == l.pl.seen && sys.open == l.wants &&
    match r
    case None => sys.cache.built == None
    case Some(j) =>
      var config := LookupAt(env, store, trace, j);
      j < k && config.Some? && sys.cache.built == Some((KeyOf(config.value), BuildOf(trace[j], config.value)))
  }

  lemma {:induction false} SystemAgrees(env: Env, store: DbConfig, trace: seq<Half>, k: nat)
    requires k <= |trace|
    ensures SystemIs(env, store, trace, k)
    decreases k
  {
    hide Resolve, Usable, KeyOf;
    if k > 0 {
      SystemAgrees(env, store, trace, k - 1);
      match trace[k - 1]
      case Begin(_, _, _) =>
      case Save(_, _) =>
      case Finish(id, _) => assert SystemAt(env, store, trace, k - 1).open == LedgerAt(env, store, trace, k - 1).wants;
    }
  }

  /** Every login, overtaken or not, is answered with the outcome of the discovery that its own lookup leaves
      in the cache. */
  lemma AnswersExactly(env: Env, store: DbConfig, trace: seq<Half>, k: nat)
    requires WantAt(env, store, trace, k).Some?
    ensures
      var want, j := WantAt(env, store, trace, k).value, Discoverer(env, store, trace, k + 1);
      if !Usable(want) then AnswerAt(env, store, trace, k) == Some(NotConfigured)
      else
        j.Some? && j.value <= k && SameKey(LookupAt(env, store, trace, j.value), Some(want)) &&
        AnswerAt(env, store, trace, k) ==
          Some(Got(BuildOf(trace[j.value], LookupAt(env, store, trace, j.value).value)))
  {
    hide Resolve, Usable, KeyOf, LedgerAt, SystemAt;
    SystemAgrees(env, store, trace, k);
  }

  /** A login that no persisted save has overtaken holds the configuration in force. */
  ghost predicate InForce(env: Env, l: Ledger, id: nat) {
    l.pl.seen.Some? && id in l.asked && Lookup(l.wants, id) == Some(Resolve(env, l.pl.seen.value, l.asked[id]))
  }

  ghost predicate AllInForce(env: Env, l: Ledger) {
    forall id :: id in l.wants && id !in l.overtaken ==> InForce(env, l, id)
  }

  lemma EnterInForce(env: Env, l: Ledger, ev: Half)
    requires AllInForce(env, l)
    ensures AllInForce(env, Enter(env, l, ev))
  {
    hide Resolve;
    var l' := Enter(env, l, ev);
    forall id | id in l'.wants && id !in l'.overtaken ensures InForce(env, l', id) {
      if id in l.wants && id !in l.overtaken { assert InForce(env, l, id); }
    }
  }

  lemma {:induction false} NotOvertaken(env: Env, store: DbConfig, trace: seq<Half>, k: nat)
    requires k <= |trace|
    ensures AllInForce(env, LedgerAt(env, store, trace, k))
    decreases k
  {
    hide Resolve;
    if k > 0 {
      NotOvertaken(env, store, trace, k - 1);
      EnterInForce(env, LedgerAt(env, store, trace, k - 1), trace[k - 1]);
    }
  }

  predicate OvertakenAt(env: Env, store: DbConfig, trace: seq<Half>, k: nat) {
    k < |trace| && trace[k].Finish? && trace[k].id in LedgerAt(env, store, trace, k).overtaken
  }

  /** A build discovered by a login that was not overtaken comes from the settings in force. */
  ghost predicate FromInForce(env: Env, store: DbConfig, trace: seq<Half>, k: nat)
    requires k <= |trace|
  {
    var j, seen := Discoverer(env, store, trace, k), LedgerAt(env, store, trace, k).pl.seen;
    j.Some? && !OvertakenAt(env, store, trace, j.value) ==>
      seen.Some? && exists base :: LookupAt(env, store, trace, j.value) == Some(Resolve(env, seen.value, base))
  }

  lemma {:induction false} DiscoveredInForce(env: Env, store: DbConfig, trace: seq<Half>, k: nat)
    requires k <= |trace|
    ensures FromInForce(env, store, trace, k)
    decreases k
  {
    hide Resolve, Usable, KeyOf;
    if k > 0 {
      DiscoveredInForce(env, store, trace, k - 1);
      NotOvertaken(env, store, trace, k - 1);
      var before, l := LedgerAt(env, store, trace, k - 1), LedgerAt(env, store, trace, k);
      var j := Discoverer(env, store, trace, k);
      assert l == Enter(env, before, trace[k - 1]);
      if j == Some(k - 1) && !OvertakenAt(env, store, trace, k - 1) {
        assert trace[k - 1].id in before.wants;
        assert InForce(env, before, trace[k - 1].id);
      }
    }
  }

  /** The k-th event ends a login: what it is answered with is right for its request, in every field. */
  ghost predicate RightAt(env: Env, store: DbConfig, trace: seq<Half>, k: nat)
    requires k < |trace| && trace[k].Finish?
  {
    var l := LedgerAt(env, store, trace, k);
    trace[k].id in l.asked &&
    Right(env, DoLogin(l.asked[trace[k].id], true, true), AnswerAt(env, store, trace, k), l.pl.seen)
  }

  /** A login that overlaps no persisted save is answered from the configuration in force exactly when that is
      unusable, or the discovery then cached was made by a login that had resolved the same configuration. If
      the answer is wrong, that discovery was made by a login which a save had overtaken. */
  lemma RightExactly(env: Env, store: DbConfig, trace: seq<Half>, k: nat)
    requires WantAt(env, store, trace, k).Some? && !OvertakenAt(env, store, trace, k)
    ensures
      var want, j := WantAt(env, store, trace, k), Discoverer(env, store, trace, k + 1);
      (RightAt(env, store, trace, k) <==>
        !Usable(want.value) || (j.Some? && LookupAt(env, store, trace, j.value) == want)) &&
      (!RightAt(env, store, trace, k) ==> j.Some? && OvertakenAt(env, store, trace, j.value))
  {
    hide Resolve, Usable, KeyOf, LedgerAt, SystemAt, Discoverer, AnswerAt, LookupAt;
    AnswersExactly(env, store, trace, k);
    NotOvertaken(env, store, trace, k);
    var l, want := LedgerAt(env, store, trace, k), WantAt(env, store, trace, k).value;
    var j := Discoverer(env, store, trace, k + 1);
    assert trace[k].id in l.wants;
    assert InForce(env, l, trace[k].id);
    if Usable(want) && !OvertakenAt(env, store, trace, j.value) {
      DiscoveredInForce(env, store, trace, k + 1);
      EndKeepsSettings(env, store, trace, k);
      var base :| LookupAt(env, store, trace, j.value) == Some(Resolve(env, l.pl.seen.value, base));
      KeyDetermines(env, l.pl.seen.value, base, l.asked[trace[k].id]);
    }
  }

  lemma EndKeepsSettings(env: Env, store: DbConfig, trace: seq<Half>, k: nat)
    requires k < |trace| && trace[k].Finish?
    ensures LedgerAt(env, store, trace, k + 1).pl == LedgerAt(env, store, trace, k).pl
  {}

  /** No save is persisted while a login is open. */
  predicate Undisturbed(env: Env, store: DbConfig, trace: seq<Half>) {
    forall k :: 0 <= k < |trace| && Saved(trace[k]) ==> LedgerAt(env, store, trace, k).wants == map[]
  }

  lemma {:induction false} NoneOvertaken(env: Env, store: DbConfig, trace: seq<Half>, k: nat)
    requires k <= |trace| && Undisturbed(env, store, trace)
    ensures LedgerAt(env, store, trace, k).overtaken == {}
    decreases k
  {
    hide Resolve;
    if k > 0 {
      NoneOvertaken(env, store, trace, k - 1);
    }
  }

  /** Any number of logins, each in two halves, in any interleaving: as long as no save is persisted between
      the halves of a login, each login is answered from exactly the configuration in force. */
  lemma SplitLoginsTransparent(env: Env, store: DbConfig, trace: seq<Half>, k: nat)
    requires Undisturbed(env, store, trace) && WantAt(env, store, trace, k).Some?
    ensures RightAt(env, store, trace, k)
  {
    hide LedgerAt, Discoverer, RightAt, Undisturbed;
    NoneOvertaken(env, store, trace, k);
    RightExactly(env, store, trace, k);
    var j := Discoverer(env, store, trace, k + 1);
    if j.Some? && j.value < |trace| { NoneOvertaken(env, store, trace, j.value); }
  }

  // ---- the same two logins, finishing in either order ----

  lemma SystemSteps(env: Env, store: DbConfig, trace: seq<Half>, k: nat, sys: SplitSystem)
    requires k < |trace| && (k == 0 ==> sys == Fresh(store)) && (k > 0 ==> sys == SystemAt(env, store, trace, k))
    ensures SystemAt(env, store, trace, k + 1) == ServeHalf(env, sys, trace[k]).0
  {}

  /** A login that began before a save and finishes after it, but before any newer one. The save's
      invalidation comes too early for it: the next login is answered wrongly exactly when both configurations
      are usable and have the same key, but differ elsewhere. */
  lemma OldLoginFirst(env: Env, before: DbConfig, after: DbConfig, base: string, base': string, d: bool, d': bool)
    ensures
      var eff, want := Resolve(env, before, base), Resolve(env, after, base');
      var trace := [Begin(0, base, true), Save(after, true), Finish(0, d), Begin(1, base', true), Finish(1, d')];
      Right(env, DoLogin(base', true, true), AnswerAt(env, before, trace, 4), Some(after)) <==>
        !Usable(eff) || !Usable(want) || KeyOf(want) != KeyOf(eff) || want == eff
  {
    hide Resolve, Usable, KeyOf, SystemAt;
    var trace := [Begin(0, base, true), Save(after, true), Finish(0, d), Begin(1, base', true), Finish(1, d')];
    var s0 := Fresh(before);
    var s1 := ServeHalf(env, s0, trace[0]).0;
    var s2 := ServeHalf(env, s1, trace[1]).0;
    var s3 := ServeHalf(env, s2, trace[2]).0;
    var s4 := ServeHalf(env, s3, trace[3]).0;
    SystemSteps(env, before, trace, 0, s0);
    SystemSteps(env, before, trace, 1, s1);
    SystemSteps(env, before, trace, 2, s2);
    SystemSteps(env, before, trace, 3, s3);
    assert s1.open[0] == Resolve(env, before, base) && s2 == SplitSystem(after, COLD, s1.open);
    assert s4.cache.built == s3.cache.built && s4.open[1] == Resolve(env, after, base');
  }

  /** The same with a fresh login in between that gets to the cache first: then a usable login after them is
      answered rightly whenever it asks with the same key as that one, whatever the old login had resolved. */
  lemma FreshLoginFirst(env: Env, before: DbConfig, after: DbConfig, base: string, base': string,
                        d: bool, d': bool, d'': bool)
    requires Usable(Resolve(env, before, base)) && Usable(Resolve(env, after, base'))
    requires KeyOf(Resolve(env, before, base)) == KeyOf(Resolve(env, after, base'))
    ensures
      var trace := [Begin(0, base, true), Save(after, true), Begin(1, base', true), Finish(1, d), Finish(0, d'),
                    Begin(2, base', true), Finish(2, d'')];
      Right(env, DoLogin(base', true, true), AnswerAt(env, before, trace, 6), Some(after))
  {
    hide Resolve, Usable, KeyOf, SystemAt;
    var trace := [Begin(0, base, true), Save(after, true), Begin(1, base', true), Finish(1, d), Finish(0, d'),
                  Begin(2, base', true), Finish(2, d'')];
    var stale, current := Resolve(env, before, base), Resolve(env, after, base');
    var s0 := Fresh(before);
    var s1 := ServeHalf(env, s0, trace[0]).0;
    var s2 := ServeHalf(env, s1, trace[1]).0;
    var s3 := ServeHalf(env, s2, trace[2]).0;
    var s4 := ServeHalf(env, s3, trace[3]).0;
    var s5 := ServeHalf(env, s4, trace[4]).0;
    var s6 := ServeHalf(env, s5, trace[5]).0;
    SystemSteps(env, before, trace, 0, s0);
    SystemSteps(env, before, trace, 1, s1);
    SystemSteps(env, before, trace, 2, s2);
    SystemSteps(env, before, trace, 3, s3);
    SystemSteps(env, before, trace, 4, s4);
    SystemSteps(env, before, trace, 5, s5);
    assert s1.open[0] == stale && s2 == SplitSystem(after, COLD, s1.open);
    assert s3.open[1] == current && s3.open[0] == stale;
    assert s4.cache.built.Some? && s4.cache.built.value.0 == KeyOf(current) && s4.cache.built.value.1.config == current;
    assert s4.open[0] == stale && s5.cache == s4.cache;
    assert s6.open[2] == current && s6.cache.built == s4.cache.built;
  }

  class Provider {
    const env: Env
    var dbCache: DbConfig
    var dbOnce: bool
    var dbCacheOk: bool
    var built: Option<Effective>
    var builtKey: Option<Key>
    var builtErr: Option<Effective>
    var builtOk: bool

    /** The fields say one thing: a build is remembered only together with its key. */
    ghost predicate Valid()
      reads this
    {
      builtOk ==> builtKey.Some? && (built.Some? <==> builtErr.None?)
    }

    ghost function CacheOf(): Cache
      requires Valid()
      reads this
    {
      Cache(if dbOnce then Some(dbCache) else None,
        if !builtOk then None
        else Some((builtKey.value, if builtErr.Some? then BuildFailed(builtErr.value) else Built(built.value))))
    }

    constructor (env: Env)
      ensures Valid() && this.env == env && CacheOf() == COLD
    {
      this.env := env;
      dbCache, dbOnce, dbCacheOk := UNSET, false, false;
      built, builtKey, builtErr, builtOk := None, None, None, false;
    }

    method InvalidateCache()
      requires Valid()
      modifies this`dbOnce, this`dbCacheOk
      ensures Valid() && CacheOf() == old(CacheOf()).(db := None)
    {
      dbOnce := false;
      dbCacheOk := false;
    }

    method InvalidateProvider()
      requires Valid()
      modifies this`built, this`builtOk, this`builtErr, this`builtKey
      ensures Valid() && CacheOf() == old(CacheOf()).(built := None)
    {
      built := None;
      builtOk := false;
      builtErr := None;
      builtKey := None;
    }

    /** `store` is what a read would return now; `readOk` whether it succeeds. */
    method CachedDbConfig(store: DbConfig, readOk: bool) returns (db: DbConfig)
      requires Valid()
      modifies this`dbCache, this`dbOnce, this`dbCacheOk
      ensures Valid() && db == SeenDb(old(CacheOf()), store, readOk) && CacheOf() == old(CacheOf()).(db := Some(db))
    {
      if dbOnce {
        return dbCache;
      }
      dbOnce := true;
      if !readOk {
        dbCache := UNSET;
        dbCacheOk := false;
        return dbCache;
      }
      dbCache := store;
      dbCacheOk := true;
      return store;
    }

    /** ProviderFor: `discovers` is the outcome of a discovery, should one be needed. */
    method ProviderFor(store: DbConfig, base: string, readOk: bool, discovers: bool) returns (answer: Answer)
      requires Valid()
      modifies this
      ensures Valid()
      ensures (CacheOf(), answer) == Login(env, old(CacheOf()), store, base, readOk, discovers)
      ensures Coherent(env, old(CacheOf())) && answer.Got? ==>
        EffectiveIs(env, SeenDb(old(CacheOf()), store, readOk), base, answer.build.config)
    {
      hide EffectiveIs, Coherent;
      ghost var cache := CacheOf();
      if Coherent(env, cache) { LoginExactly(env, cache, store, base, readOk, discovers); }
      var db := CachedDbConfig(store, readOk);
      var eff := Resolve(env, db, base);
      if !Usable(eff) {
        return NotConfigured;
      }
      var key := KeyOf(eff);
      if builtOk && builtKey == Some(key) {
        if builtErr.Some? {
          return Got(BuildFailed(builtErr.value));
        }
        return Got(Built(built.value));
      }
      builtKey := Some(key);
      builtOk := true;
      if !discovers {
        built := None;
        builtErr := Some(eff);
        return Got(BuildFailed(eff));
      }
      built := Some(eff);
      builtErr := None;
      return Got(Built(eff));
    }

    /** The tail of the admin save, once the settings are stored. */
    method SaveDone()
      requires Valid()
      modifies this
      ensures Valid() && CacheOf() == COLD
    {
      InvalidateCache();
      InvalidateProvider();
    }
  }

  // ---- the list helpers as loops ----

  /** splitCSV */
  method SplitCsv(v: string) returns (out: seq<string>)
    ensures out == CsvFields(Split(v, ','))
  {
    hide Split, TrimSpace;
    var parts := Split(v, ',');
    out := [];
    for i := 0 to |parts|
      invariant out + CsvFields(parts[i..]) == CsvFields(parts)
    {
      var s := TrimSpace(parts[i]);
      if s != "" {
        out := out + [s];
      }
    }
  }

  /** lowerList */
  method LowerList(list: seq<string>) returns (out: seq<string>)
    ensures out == Normalized(list)
  {
    var seen: set<string> := {};
    out := [];
    for i := 0 to |list|
      invariant out == Normalized(list[..i])
      invariant forall v :: v in seen <==> v in out
    {
      assert list[..i + 1][..i] == list[..i];
      var v := ToLower(TrimSpace(list[i]));
      if v == "" {
        continue;
      }
      if v in seen {
        continue;
      }
      seen := seen + {v};
      out := out + [v];
    }
    assert list[..|list|] == list;
  }
}
