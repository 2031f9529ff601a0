/**
 * Route::dispatch_map: one pass over the compiled routes for one request.
 *
 * The request path is normalised, the before hooks run, the cache is read,
 * and the first route with the request's method whose regex matches is
 * taken. Between those steps sit the router's own diagnostics: the
 * "incomplete route" checks (before and after matching), the placeholder
 * type checks, and the controller file checks. Every diagnostic ends the
 * request, because the renderers always exit.
 *
 * The outside world is a parameter: the alias map, the root directory,
 * `file_exists`, `is_numeric`, the transliteration table of the current
 * language, the debug mode and the cache file's contents. A hook is only recorded as an event; hooks are assumed to
 * return. Language texts (`nexi_lang`) are kept as their key followed by
 * their arguments.
 */
module Dispatch {
  import opened Base
  import opened Text
  import opened Php
  import opened Pcre
  import Ctx
  import opened RouteCompiler
  import opened TypeCheck
  import opened Links

  /** The request: `$_GET` and `$_SERVER['REQUEST_METHOD']` (absent on the command line). */
  datatype Request = Request(query: Entries, verb: Option<string>)

  datatype Env = Env(
    debug: bool,                  // is_debug(): Config 'debug' is 'display'
    aliasMap: AliasMap,           // ctx 'alias.map'
    root: string,                 // X_ROOT
    fileExists: string -> bool,   // file_exists
    isNumeric: string -> bool,    // is_numeric, behind the 'dbl' type
    translit: string -> string,   // nexi_transliterate for ctx 'lang.current' (default 'en')
    cache: CacheFile)             // what routes.cache.php holds

  /** How many hooks Route::before and Route::after registered. */
  datatype Hooks = Hooks(before: nat, after: nat)

  /** What the request does besides its outcome, in order. */
  datatype Event = Before(i: nat) | Include(file: string) | After(i: nat)

  datatype Outcome =
    | Matched(alias: string, params: seq<(string, string)>, file: string)
    | NoMatch
    | Abort(halt: Halt)

  datatype Response = Response(outcome: Outcome, trace: seq<Event>, ctx: Ctx.Store)

  /** nexi_lang is not part of this model: a text stands as its key and its arguments. */
  function LangText(key: string, args: seq<string>): string {
    Join([key] + args, " ")
  }

  // ---------------------------------------------------------------
  // The request path and method
  // ---------------------------------------------------------------

  const LTRIM_ARRAY := "ltrim(): Argument #1 ($string) must be of type string, array given"

  /** `$_GET['page'] ?? 'home'`; an array there makes ltrim throw. */
  function PageText(query: Entries): (r: Result<string>)
    ensures r.Fault? <==> HasKey(query, "page") && Lookup(query, "page").value.Arr?
    ensures !HasKey(query, "page") ==> r == Ok("home")
  {
    match Lookup(query, "page")
    case None => Ok("home")
    case Some(v) =>
      if v.IsNull() then Ok("home")
      else match StrOf(v)
        case None => Fault(LTRIM_ARRAY)
        case Some(s) => Ok(s)
  }

  /** `'/' . ltrim($page, '/')`, where a bare '/' stands for '/home'. */
  function RequestPath(raw: string): (p: string)
    ensures |p| >= 2 && p[0] == '/' && p[1] != '/'
    ensures p == "/home" || (|p| - 1 <= |raw| && p[1..] == raw[|raw| - (|p| - 1)..])
    ensures p != "/home" ==> forall i :: 0 <= i < |raw| - (|p| - 1) ==> raw[i] == '/'
    ensures (forall i :: 0 <= i < |raw| ==> raw[i] == '/') ==> p == "/home"
  {
    var t := LTrimChar(raw, '/');
    if |t| == 0 then "/home" else "/" + t
  }

  /** A normalised path is left as it is. */
  lemma RequestPathIdempotent(raw: string)
    ensures RequestPath(RequestPath(raw)) == RequestPath(raw)
  {
    var p := RequestPath(raw);
    assert p[1..][0] != '/';
    assert LTrimChar(p[1..], '/') == p[1..];
    assert LTrimChar(p, '/') == p[1..];
    assert "/" + p[1..] == p;
  }

  /** A page without leading '/' just gains one. */
  lemma RequestPathOfPlainPage(raw: string)
    requires |raw| > 0 && raw[0] != '/'
    ensures RequestPath(raw) == "/" + raw
  {
  }

  /** `$_SERVER['REQUEST_METHOD'] ?? 'GET'`. */
  function Verb(req: Request): string {
    req.verb.GetOr("GET")
  }

  /** The page argument of the type error message: `$_GET['page'] ?? ''`. */
  function RawPage(query: Entries): string {
    match Lookup(query, "page")
    case None => ""
    case Some(v) => StrOf(v).GetOr("")
  }

  // ---------------------------------------------------------------
  // The hook lists
  // ---------------------------------------------------------------

  /** run_before: each registered hook once, in registration order. */
  function Befores(n: nat): (es: seq<Event>)
    ensures |es| == n && forall i :: 0 <= i < n ==> es[i] == Before(i)
  {
    seq(n, i requires 0 <= i < n => Before(i))
  }

  /** run_after: likewise for the after hooks. */
  function Afters(n: nat): (es: seq<Event>)
    ensures |es| == n && forall i :: 0 <= i < n ==> es[i] == After(i)
  {
    seq(n, i requires 0 <= i < n => After(i))
  }

  // ---------------------------------------------------------------
  // The "incomplete route" diagnostics
  // ---------------------------------------------------------------

  /** How many leading parts do not start with ':'. */
  function StaticCount(parts: seq<string>): (n: nat)
    ensures n <= |parts|
    ensures forall j :: 0 <= j < n ==> !StartsWith(parts[j], ":")
    ensures n < |parts| ==> StartsWith(parts[n], ":")
  {
    if |parts| == 0 || StartsWith(parts[0], ":") then 0 else 1 + StaticCount(parts[1..])
  }

  /** `explode('/', trim($s, '/'))`. */
  function Parts(s: string): seq<string> {
    Split(TrimChar(s, '/'), '/')
  }

  /** `array_slice($xs, 0, $n)`. */
  function Take(xs: seq<string>, n: nat): (r: seq<string>)
    ensures n <= |xs| ==> r == xs[..n]
    ensures n > |xs| ==> r == xs
  {
    if n <= |xs| then xs[..n] else xs
  }

  /** The path begins with the route's leading literal parts. */
  predicate SamePrefix(page: string, original: string) {
    var rp := Parts(original);
    Take(Parts(page), StaticCount(rp)) == rp[..StaticCount(rp)]
  }

  /** `$actual < $expected`: fewer path parts after the literal ones than ':' in the route. */
  predicate TooShort(page: string, original: string) {
    |Parts(page)| - StaticCount(Parts(original)) < CountChar(original, ':')
  }

  /** The prefix test is a plain prefix test: a short path never passes it. */
  lemma SamePrefixMeans(page: string, original: string)
    ensures var rp := Parts(original); var n := StaticCount(rp);
      SamePrefix(page, original) <==> n <= |Parts(page)| && Parts(page)[..n] == rp[..n]
  {
  }

  // ---------------------------------------------------------------
  // The scan: method filter and first match
  // ---------------------------------------------------------------

  /** Why the scan stopped. */
  datatype Pick =
    | Hit(index: nat, caps: Captures)   // this route's regex matched
    | Incomplete(index: nat)            // the debug-mode check before matching fired
    | BadRegex(index: nat)              // preg_match warned: the pattern does not compile
    | Miss                              // the list ran out

  /** The route is passed over: another method, or no match and no diagnostic. */
  predicate Passes(r: Record, page: string, verb: string, debug: bool) {
    r.httpMethod != verb
    || (Compiles(r.frags) && Match(r.frags, page).None?
        && !(debug && r.required && SamePrefix(page, r.original) && TooShort(page, r.original)))
  }

  predicate AllPass(rs: seq<Record>, lo: nat, hi: nat, page: string, verb: string, debug: bool)
    requires lo <= hi <= |rs|
  {
    forall j :: lo <= j < hi ==> Passes(rs[j], page, verb, debug)
  }

  function Scan(rs: seq<Record>, i: nat, page: string, verb: string, debug: bool): (p: Pick)
    requires i <= |rs|
    ensures !p.Miss? ==> i <= p.index < |rs|
    decreases |rs| - i
  {
    if i == |rs| then Miss
    else
      var r := rs[i];
      if r.httpMethod != verb then Scan(rs, i + 1, page, verb, debug)
      else if !Compiles(r.frags) then BadRegex(i)
      else match Match(r.frags, page)
        case Some(caps) => Hit(i, caps)
        case None =>
          if debug && r.required && SamePrefix(page, r.original) && TooShort(page, r.original)
          then Incomplete(i)
          else Scan(rs, i + 1, page, verb, debug)
  }

  /** The route the scan stopped at, with every earlier one passed over. */
  predicate StopsAt(rs: seq<Record>, i: nat, k: nat, page: string, verb: string, debug: bool) {
    i <= k < |rs| && AllPass(rs, i, k, page, verb, debug) && rs[k].httpMethod == verb
  }

  /**
   * The scan in full: it runs out exactly when every route passes, and
   * otherwise stops at the first route with the request's method whose
   * pattern does not compile, matches, or fires the debug check.
   */
  lemma {:induction false} ScanMeans(rs: seq<Record>, i: nat, page: string, verb: string, debug: bool)
    requires i <= |rs|
    ensures var p := Scan(rs, i, page, verb, debug);
      p.Miss? <==> AllPass(rs, i, |rs|, page, verb, debug)
    ensures var p := Scan(rs, i, page, verb, debug);
      p.Hit? ==> StopsAt(rs, i, p.index, page, verb, debug) && Compiles(rs[p.index].frags)
    ensures var p := Scan(rs, i, page, verb, debug);
      p.Hit? ==> Match(rs[p.index].frags, page) == Some(p.caps)
    ensures var p := Scan(rs, i, page, verb, debug);
      p.Incomplete? ==> StopsAt(rs, i, p.index, page, verb, debug) && Compiles(rs[p.index].frags)
    ensures var p := Scan(rs, i, page, verb, debug);
      p.Incomplete? ==> Match(rs[p.index].frags, page).None? && debug && rs[p.index].required
    ensures var p := Scan(rs, i, page, verb, debug);
      p.Incomplete? ==> SamePrefix(page, rs[p.index].original) && TooShort(page, rs[p.index].original)
    ensures var p := Scan(rs, i, page, verb, debug);
      p.BadRegex? ==> StopsAt(rs, i, p.index, page, verb, debug) && !Compiles(rs[p.index].frags)
    decreases |rs| - i
  {
    if i < |rs| {
      var p := Scan(rs, i, page, verb, debug);
      if Passes(rs[i], page, verb, debug) {
        assert p == Scan(rs, i + 1, page, verb, debug);
        ScanMeans(rs, i + 1, page, verb, debug);
        PassesStep(rs, i, |rs|, page, verb, debug);
        if !p.Miss? {
          PassesStep(rs, i, p.index, page, verb, debug);
        }
      } else {
        assert !p.Miss? && p.index == i;
        assert !AllPass(rs, i, |rs|, page, verb, debug);
        assert AllPass(rs, i, i, page, verb, debug);
      }
    }
  }

  lemma PassesStep(rs: seq<Record>, i: nat, k: nat, page: string, verb: string, debug: bool)
    requires i < k <= |rs| && Passes(rs[i], page, verb, debug)
    ensures AllPass(rs, i, k, page, verb, debug) <==> AllPass(rs, i + 1, k, page, verb, debug)
  {
  }

  /** Once the scan stops, the routes after that point are never looked at. */
  lemma {:induction false} ScanIgnoresLater(rs: seq<Record>, more: seq<Record>, i: nat,
                                             page: string, verb: string, debug: bool)
    requires i <= |rs| && !Scan(rs, i, page, verb, debug).Miss?
    ensures Scan(rs + more, i, page, verb, debug) == Scan(rs, i, page, verb, debug)
    decreases |rs| - i
  {
    var all := rs + more;
    assert all[i] == rs[i];
    if rs[i].httpMethod != verb || (Compiles(rs[i].frags) && Match(rs[i].frags, page).None?) {
      if Scan(rs, i, page, verb, debug) == Scan(rs, i + 1, page, verb, debug) {
        ScanIgnoresLater(rs, more, i + 1, page, verb, debug);
      }
    }
  }

  // ---------------------------------------------------------------
  // After a match
  // ---------------------------------------------------------------

  /** A typed parameter passes: absent, empty, or accepted by validate_type. */
  predicate TypeOk(entry: (string, string), params: seq<(string, string)>, isNumeric: string -> bool) {
    match Lookup(params, entry.0)
    case None => true
    case Some(v) => v == "" || ValidateType(entry.1, v, isNumeric)
  }

  predicate FirstBadAt(types: seq<(string, string)>, params: seq<(string, string)>,
                       isNumeric: string -> bool, i: int) {
    0 <= i < |types| && !TypeOk(types[i], params, isNumeric)
    && forall j :: 0 <= j < i ==> TypeOk(types[j], params, isNumeric)
  }

  /** The first failure is at `i`, and `kv` is its key with the captured value. */
  predicate BadTypeIs(types: seq<(string, string)>, params: seq<(string, string)>,
                      isNumeric: string -> bool, i: int, kv: (string, string)) {
    FirstBadAt(types, params, isNumeric, i) && HasKey(params, types[i].0)
    && kv == (types[i].0, Lookup(params, types[i].0).value)
  }

  /** The foreach over `types`: the first failing key and its value. */
  function FirstBadType(types: seq<(string, string)>, params: seq<(string, string)>,
                        isNumeric: string -> bool): (r: Option<(string, string)>)
    ensures r.None? <==> forall i :: 0 <= i < |types| ==> TypeOk(types[i], params, isNumeric)
    ensures r.Some? ==> exists i :: BadTypeIs(types, params, isNumeric, i, r.value)
  {
    if |types| == 0 then None
    else if !TypeOk(types[0], params, isNumeric) then
      assert BadTypeIs(types, params, isNumeric, 0, (types[0].0, Lookup(params, types[0].0).value));
      Some((types[0].0, Lookup(params, types[0].0).value))
    else
      var r := FirstBadType(types[1..], params, isNumeric);
      assert forall i :: 1 <= i < |types| ==> types[1..][i - 1] == types[i];
      if r.Some? then
        var i :| BadTypeIs(types[1..], params, isNumeric, i, r.value);
        assert BadTypeIs(types, params, isNumeric, i + 1, r.value);
        r
      else r
  }

  /** The controller target: a bare one goes under 'app:controller/', and '.php' is added if missing. */
  function ControllerTarget(t: string): (r: string)
    ensures EndsWith(r, ".php")
    ensures HasChar(r, ':') || StartsWith(r, "/")
  {
    var u := if !HasChar(t, ':') && !StartsWith(t, "/") then "app:controller/" + LTrimChar(t, '/') else t;
    assert HasChar(u, ':') || StartsWith(u, "/") by {
      if !HasChar(t, ':') && !StartsWith(t, "/") {
        assert u[3] == ':';
      }
    }
    var r := if EndsWith(u, ".php") then u else u + ".php";
    assert EndsWith(r, ".php") by {
      assert (u + ".php")[|u + ".php"| - 4..] == ".php";
    }
    assert HasChar(r, ':') || StartsWith(r, "/") by {
      AppendKeepsMarks(u, ".php");
    }
    r
  }

  lemma AppendKeepsMarks(u: string, x: string)
    ensures HasChar(u, ':') ==> HasChar(u + x, ':')
    ensures StartsWith(u, "/") ==> StartsWith(u + x, "/")
  {
    if HasChar(u, ':') {
      var k :| 0 <= k < |u| && u[k] == ':';
      assert (u + x)[k] == ':';
    }
  }

  /** A target with a namespace or an absolute one is kept, at most gaining '.php'. */
  lemma ControllerTargetKeeps(t: string)
    requires HasChar(t, ':') || StartsWith(t, "/")
    ensures ControllerTarget(t) == t || ControllerTarget(t) == t + ".php"
    ensures EndsWith(t, ".php") ==> ControllerTarget(t) == t
  {
  }

  /** A bare target lands under 'app:controller/'. */
  lemma ControllerTargetBare(t: string)
    requires !HasChar(t, ':') && !StartsWith(t, "/")
    ensures StartsWith(ControllerTarget(t), "app:controller/" + t)
  {
    if |t| > 0 {
      assert t[0] != '/';
    }
    assert LTrimChar(t, '/') == t;
  }

  /** Resolving a resolved target changes nothing. */
  lemma ControllerTargetIdempotent(t: string)
    ensures ControllerTarget(ControllerTarget(t)) == ControllerTarget(t)
  {
    ControllerTargetKeeps(ControllerTarget(t));
  }

  /** The compiler already namespaces bare targets, so the 'app:controller/' rule never applies to a compiled record. */
  lemma CompiledTargetKept(t: string)
    ensures HasChar(NormTarget(t), ':') || StartsWith(NormTarget(t), "/")
    ensures StartsWith(ControllerTarget(NormTarget(t)), NormTarget(t))
  {
    var n := NormTarget(t);
    if !(HasChar(t, ':') || StartsWith(t, "/")) {
      assert n[3] == ':';
    }
    ControllerTargetKeeps(n);
    assert (n + ".php")[..|n|] == n;
  }

  // ---------------------------------------------------------------
  // The whole request
  // ---------------------------------------------------------------

  const COMPILE_FAILED := "preg_match(): Compilation failed"

  /** The 422 of both incomplete-route checks. */
  function IncompleteHalt(page: string): Halt {
    Halt(422, "route_incomplete_title", LangText("route_incomplete_message", [page]), true)
  }

  /** `$params` as the PHP array _link and ctx receive. */
  function ParamEntries(params: seq<(string, string)>): (es: Entries)
    ensures |es| == |params|
    ensures forall i :: 0 <= i < |params| ==> es[i] == (params[i].0, S(params[i].1))
  {
    seq(|params|, i requires 0 <= i < |params| => (params[i].0, S(params[i].1)))
  }

  /** The ctx entries a matched route leaves, in the order they are set. */
  function RouteEntries(r: Record, resolve: string, params: seq<(string, string)>,
                        query: Entries, root: string): seq<(string, Val)> {
    [("route.alias_map", S(r.alias)),
     ("route.path", S(r.original)),
     ("route.resolve", S(resolve)),
     ("route.real", S(PathRelative(r.target, root))),
     ("route.params", Arr(ParamEntries(params))),
     ("route.required", Leaf(Bool(r.required))),
     ("route.query", Arr(query))]
  }

  /** The steps after route `r` matched with captures `caps`; `trace` holds what already ran. */
  function Accept(r: Record, caps: Captures, page: string, req: Request, env: Env, h: Hooks,
                  routes: seq<Record>, trace: seq<Event>, c: Ctx.Store): (res: Response)
    ensures !res.outcome.NoMatch?
    ensures res.outcome.Matched? ==> res.trace == trace + [Include(res.outcome.file)] + Afters(h.after)
    ensures !res.outcome.Matched? ==> res.trace == trace
    ensures trace <= res.trace
    ensures res.outcome.Matched? ==> res.outcome.alias == r.alias && res.outcome.params == NamedParams(r.frags, caps)
    ensures res.outcome.Matched? ==> env.fileExists(res.outcome.file) && EndsWith(res.outcome.file, ".controller.php")
  {
    var c1 := Ctx.Set(c, "route.path", S(r.original));
    if r.required && TooShort(page, r.original) then
      Response(Abort(IncompleteHalt(page)), trace, c1)
    else
      var params := NamedParams(r.frags, caps);
      match FirstBadType(r.types, params, env.isNumeric)
      case Some(kv) =>
        Response(Abort(Halt(422, "type_invalid_title",
                            LangText("type_invalid_message", [kv.0, kv.1, RawPage(req.query)]), true)),
                 trace, c1)
      case None =>
        var file := Alias(env.aliasMap, ControllerTarget(r.target), false, env.root);
        if !EndsWith(file, ".controller.php") then
          Response(Abort(Halt(500, "controller_not_found_title",
                              LangText("controller_not_found_message", [PathRelative(file, env.root)]), true)),
                   trace, c1)
        else if !env.fileExists(file) then
          Response(Abort(Halt(404, "not_found_title",
                              LangText("not_found_message", [PathRelative(file, env.root)]), true)),
                   trace, c1)
        else Enter(r, params, file, req.query, env.root, h, routes, trace, c)
  }

  /** The controller is taken: ctx is filled, the file included, the after hooks run. */
  function Enter(r: Record, params: seq<(string, string)>, file: string, query: Entries, root: string,
                 h: Hooks, routes: seq<Record>, trace: seq<Event>, c: Ctx.Store): (res: Response)
    ensures res.outcome.Matched? ==> res.outcome == Matched(r.alias, params, file)
    ensures res.outcome.Matched? ==> res.trace == trace + [Include(file)] + Afters(h.after)
    ensures !res.outcome.Matched? ==> res.outcome.Abort? && res.trace == trace
    ensures trace <= res.trace
  {
    match Link(r.original, Params(ParamEntries(params)), routes, LinkCtx(r, c))
    case Fault(e) => Response(Abort(WarningHalt(e)), trace, LinkCtx(r, c))
    case Ok(resolve) =>
      var c3 := Ctx.SetAll(Ctx.Set(c, "route.path", S(r.original)), RouteEntries(r, resolve, params, query, root));
      var tr := trace + ([Include(file)] + Afters(h.after));
      assert trace <= tr;
      Response(Matched(r.alias, params, file), tr, c3)
  }

  /** The ctx the link is built in: route.path and route.alias_map already set. */
  function LinkCtx(r: Record, c: Ctx.Store): Ctx.Store {
    Ctx.Set(Ctx.Set(Ctx.Set(c, "route.path", S(r.original)), "route.alias_map", S(r.alias)), "route.path", S(r.original))
  }

  /** Route::dispatch_map for one request, starting from ctx `c`. */
  function DispatchMap(req: Request, env: Env, h: Hooks, c: Ctx.Store): (res: Response)
    ensures res.outcome.Matched? ==> res.trace == Befores(h.before) + [Include(res.outcome.file)] + Afters(h.after)
    ensures !res.outcome.Matched? ==> res.trace == [] || res.trace == Befores(h.before)
    ensures PageText(req.query).Fault? ==> res.trace == [] && res.outcome.Abort? && res.outcome.halt.code == 500
    ensures PageText(req.query).Ok? ==> Befores(h.before) <= res.trace
    ensures res.outcome.Matched? ==> env.fileExists(res.outcome.file) && EndsWith(res.outcome.file, ".controller.php")
  {
    match PageText(req.query)
    case Fault(e) => Response(Abort(ExceptionHalt(e)), [], c)
    case Ok(raw) => Route(env.translit(RequestPath(raw)), req, env, h, Befores(h.before), c)
  }

  /** After the before hooks (`trace`): read the cache, scan, and take the hit. */
  function Route(page: string, req: Request, env: Env, h: Hooks, trace: seq<Event>, c: Ctx.Store): (res: Response)
    ensures res.outcome.Matched? ==> res.trace == trace + [Include(res.outcome.file)] + Afters(h.after)
    ensures !res.outcome.Matched? ==> res.trace == trace
    ensures trace <= res.trace
    ensures res.outcome.Matched? ==> env.fileExists(res.outcome.file) && EndsWith(res.outcome.file, ".controller.php")
  {
    match ReadCache(env.cache)
    case Fault(e) => Response(Abort(ExceptionHalt(e)), trace, c)
    case Ok(routes) =>
      match Scan(routes, 0, page, Verb(req), env.debug)
      case Miss => Response(NoMatch, trace, c)
      case BadRegex(_) => Response(Abort(WarningHalt(COMPILE_FAILED)), trace, c)
      case Incomplete(k) =>
        Response(Abort(IncompleteHalt(page)), trace, Ctx.Set(c, "route.path", S(routes[k].original)))
      case Hit(k, caps) =>
        Accept(routes[k], caps, page, req, env, h, routes, trace, c)
  }

  // ---------------------------------------------------------------
  // What a response means
  // ---------------------------------------------------------------

  /** The dispatcher reaches the scan: the page is a string and the cache reads as a list. */
  predicate Scans(req: Request, env: Env) {
    PageText(req.query).Ok? && ReadCache(env.cache).Ok?
  }

  /** The page the scan matches: the normalised request path, transliterated. */
  function PageOf(req: Request, env: Env): string
    requires PageText(req.query).Ok?
  {
    env.translit(RequestPath(PageText(req.query).value))
  }

  /** No route: the scan ran out with every route passed over. */
  lemma DispatchNoMatch(req: Request, env: Env, h: Hooks, c: Ctx.Store)
    ensures DispatchMap(req, env, h, c).outcome.NoMatch? <==>
      Scans(req, env) && AllPass(ReadCache(env.cache).value, 0, |ReadCache(env.cache).value|, PageOf(req, env), Verb(req), env.debug)
    ensures DispatchMap(req, env, h, c).outcome.NoMatch? ==> DispatchMap(req, env, h, c).ctx == c
  {
    if Scans(req, env) {
      ScanMeans(ReadCache(env.cache).value, 0, PageOf(req, env), Verb(req), env.debug);
    }
  }

  /** A match that survives the checks: the outcome names the route, its captures and its file. */
  lemma AcceptMatched(r: Record, caps: Captures, page: string, req: Request, env: Env, h: Hooks,
                      routes: seq<Record>, trace: seq<Event>, c: Ctx.Store)
    requires Accept(r, caps, page, req, env, h, routes, trace, c).outcome.Matched?
    ensures Accept(r, caps, page, req, env, h, routes, trace, c).outcome
      == Matched(r.alias, NamedParams(r.frags, caps), Alias(env.aliasMap, ControllerTarget(r.target), false, env.root))
    ensures !(r.required && TooShort(page, r.original))
    ensures FirstBadType(r.types, NamedParams(r.frags, caps), env.isNumeric).None?
  {
  }

  /**
   * A matched request: route `k` is the first with the request's method
   * whose regex matches, every earlier one passed over; its checks passed,
   * and the outcome carries its alias, its named captures and its file.
   */
  lemma DispatchMatched(req: Request, env: Env, h: Hooks, c: Ctx.Store) returns (k: nat, caps: Captures)
    requires DispatchMap(req, env, h, c).outcome.Matched?
    ensures Scans(req, env)
    ensures StopsAt(ReadCache(env.cache).value, 0, k, PageOf(req, env), Verb(req), env.debug)
    ensures Match(ReadCache(env.cache).value[k].frags, PageOf(req, env)) == Some(caps)
    ensures var r := ReadCache(env.cache).value[k];
      DispatchMap(req, env, h, c).outcome
        == Matched(r.alias, NamedParams(r.frags, caps), Alias(env.aliasMap, ControllerTarget(r.target), false, env.root))
    ensures var r := ReadCache(env.cache).value[k];
      !(r.required && TooShort(PageOf(req, env), r.original))
    ensures var r := ReadCache(env.cache).value[k];
      FirstBadType(r.types, NamedParams(r.frags, caps), env.isNumeric).None?
  {
    var rs := ReadCache(env.cache).value;
    var page := PageOf(req, env);
    ScanMeans(rs, 0, page, Verb(req), env.debug);
    var p := Scan(rs, 0, page, Verb(req), env.debug);
    assert p.Hit?;
    k, caps := p.index, p.caps;
    assert DispatchMap(req, env, h, c) == Accept(rs[k], caps, page, req, env, h, rs, Befores(h.before), c);
    AcceptMatched(rs[k], caps, page, req, env, h, rs, Befores(h.before), c);
  }

  /** Nothing after a page that halts the request ever runs: a bad page runs no hook at all. */
  lemma BadPageRunsNothing(req: Request, env: Env, h: Hooks, c: Ctx.Store)
    requires HasKey(req.query, "page") && Lookup(req.query, "page").value.Arr?
    ensures DispatchMap(req, env, h, c) == Response(Abort(ExceptionHalt(LTRIM_ARRAY)), [], c)
  {
  }

  /**
   * A blank cache file (the truncate-and-write of the loader caught before
   * any byte) stops every request with a 500, after the before hooks have run.
   */
  lemma BlankCacheHaltsAfterHooks(req: Request, env: Env, h: Hooks, c: Ctx.Store)
    requires PageText(req.query).Ok? && env.cache == Blank
    ensures var res := DispatchMap(req, env, h, c);
      && res.outcome == Abort(ExceptionHalt(NOT_ARRAY))
      && res.trace == Befores(h.before) && res.ctx == c
  {
  }

  /** What a matched route leaves in ctx for the controller. */
  lemma EnterCtx(r: Record, params: seq<(string, string)>, file: string, query: Entries, root: string,
                 h: Hooks, routes: seq<Record>, trace: seq<Event>, c: Ctx.Store)
    requires Enter(r, params, file, query, root, h, routes, trace, c).outcome.Matched?
    ensures var m := Enter(r, params, file, query, root, h, routes, trace, c).ctx;
      && Ctx.Get(m, "route.alias_map", NULL) == S(r.alias)
      && Ctx.Get(m, "route.path", NULL) == S(r.original)
      && Ctx.Get(m, "route.real", NULL) == S(PathRelative(r.target, root))
      && Ctx.Get(m, "route.params", NULL) == Arr(ParamEntries(params))
      && Ctx.Get(m, "route.required", NULL) == Leaf(Bool(r.required))
      && Ctx.Get(m, "route.query", NULL) == Arr(query)
    ensures var link := Link(r.original, Params(ParamEntries(params)), routes, LinkCtx(r, c));
      link.Ok? && Ctx.Get(Enter(r, params, file, query, root, h, routes, trace, c).ctx, "route.resolve", NULL) == S(link.value)
  {
    var c1 := Ctx.Set(c, "route.path", S(r.original));
    var link := Link(r.original, Params(ParamEntries(params)), routes, LinkCtx(r, c));
    assert Enter(r, params, file, query, root, h, routes, trace, c).ctx == Ctx.SetAll(c1, RouteEntries(r, link.value, params, query, root));
    RouteEntriesRead(c1, r, link.value, params, query, root);
  }

  /** Reading back the route entries after they are set. */
  lemma RouteEntriesRead(c1: Ctx.Store, r: Record, resolve: string, params: seq<(string, string)>, query: Entries, root: string)
    ensures var m := Ctx.SetAll(c1, RouteEntries(r, resolve, params, query, root));
      && Ctx.Get(m, "route.alias_map", NULL) == S(r.alias)
      && Ctx.Get(m, "route.path", NULL) == S(r.original)
      && Ctx.Get(m, "route.resolve", NULL) == S(resolve)
      && Ctx.Get(m, "route.real", NULL) == S(PathRelative(r.target, root))
      && Ctx.Get(m, "route.params", NULL) == Arr(ParamEntries(params))
      && Ctx.Get(m, "route.required", NULL) == Leaf(Bool(r.required))
      && Ctx.Get(m, "route.query", NULL) == Arr(query)
  {
    var ws := RouteEntries(r, resolve, params, query, root);
    ReadLast(c1, ws, 0);
    ReadLast(c1, ws, 1);
    ReadLast(c1, ws, 2);
    ReadLast(c1, ws, 3);
    ReadLast(c1, ws, 4);
    ReadLast(c1, ws, 5);
    ReadLast(c1, ws, 6);
  }

  /** `ctx::get` of a key set last, to a value that is not null, reads that value. */
  lemma ReadLast(c: Ctx.Store, ws: seq<(string, Val)>, i: nat)
    requires i < |ws| && !ws[i].1.IsNull()
    requires forall j :: i < j < |ws| ==> ws[j].0 != ws[i].0
    ensures Ctx.Get(Ctx.SetAll(c, ws), ws[i].0, NULL) == ws[i].1
  {
    Ctx.SetAllLast(c, ws, i);
  }
}
