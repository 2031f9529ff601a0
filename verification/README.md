# NexiPress routing core in Dafny

This project models the declarative router of NexiPress, a PHP micro-framework. A request passes through these stages:

- **Middleware.** The middleware loader picks the middleware files, checks the array each returns, and registers before- and after-hooks in load order.
- **Route map.** The route loader compiles the route map (`routes.map.php`) into regex records. It writes them to `routes.cache.php` unless the cache is newer than the map.
- **Dispatch.** `Route::dispatch_map` normalises the request path and runs the before-hooks. It then scans the cached records in order. The first record whose method and pattern fit the request is taken, after these checks:
  - the "incomplete route" diagnostics, before and after matching;
  - the placeholder type checks;
  - the controller file checks.

  When a record is taken, the route data is published in the `ctx` store, the controller is included and the after-hooks run.
- **No route.** With `app_mode` in the Config store set to 'cms' the request ends in the CMS fallback page. Otherwise it ends in a bare 404.
- **Errors.** Every diagnostic ends the request through the error renderer, which always exits.

Around that core the project also models:

- **Framework helpers:**
  - the `Config`, `ctx` and `nexi_i18n` stores, with `choice` plural selection;
  - `alias` and `_link` URL building;
  - `ip_in_allowed` and `ip_in_range`;
  - `fn_str_limit_words`;
  - the error renderer's status labels, HTML escaping and database summary.
- **The `routes` CLI command,** which checks the cache against the map.
- **The ORM's query builder** (`Query`): identifier checks, clause builders and `compileSelect`.

Modelling conventions:

- **Strings and arrays.** Strings are `seq<char>`, one character per PHP byte. PHP arrays are ordered association lists, `seq<(string, Val)>`. Reading an array returns the first entry with the key. Writing overwrites in place or appends.
- **PCRE `$`.** It is modelled as PCRE defines it without the D modifier: it matches at the end of the subject or just before a final "\n". This matters for the alias check, the placeholder classification, `validate_type` and the ORM's identifier check.
- **Errors.** The code needs PHP 8.1 or later (it calls `array_is_list`), and the model follows PHP 8.1's behaviour. A PHP warning or deprecation notice is fatal here: the installed error handler turns it into a 500 page, modelled as `Base.WarningHalt` (a `Fault` inside the `nexi_i18n` helpers, whose results are texts). A `TypeError`, or an exception nobody catches, is a `Fault` or `Threw` result.
- **I/O as parameters.** The file system, `include` results, `is_numeric`, `inet_pton`, transliteration and UTF-8 validity are parameters of the functions that use them.

Modules, one per source concern:

| module | file | source |
|---|---|---|
| `Base`, `Text` | text.dfy | results, halts, and the PHP string built-ins the core uses |
| `Php` | php.dfy | PHP values and ordered arrays |
| `Pcre` | pcre.dfy | the compiled route regex and its matcher |
| `Ctx` | ctx.dfy | the `ctx` store |
| `ConfigStore` | config.dfy | `Config::set/has/get` |
| `TypeCheck` | typecheck.dfy | `validate_type` |
| `RouteCompiler` | compiler.dfy | `nexi_load_routes_from_map` and the cache rule |
| `RouteLookup` | route_lookup.dfy | `Route::getRoutePath` |
| `Links` | links.dfy | `alias`, `path_relative`, `_link` |
| `Dispatch` | dispatch.dfy | `Route::dispatch_map` |
| `IncompleteCheck` | incomplete.dfy | a property of the post-match incomplete check |
| `Middleware` | middleware.dfy | the middleware loader |
| `Router` | router.dfy | core/router.php |
| `ErrorHandler` | errors.dfy | the error renderer |
| `RoutesCheck` | routes_check.dfy | the `routes` CLI command |
| `IpRanges` | ipranges.dfy | `ip_in_allowed`, `ip_in_range` |
| `Words` | words.dfy | `fn_str_limit_words` |
| `I18n` | i18n.dfy | `nexi_i18n` |
| `Orm` | query.dfy | the query builder |

## Model

| member | source | states |
|---|---|---|
| Base.CollectDone | core/route-loader.php:63-157 | a foreach whose body may halt finishes exactly when no step halts, with one value per step in order |
| Base.CollectFirstHalt | core/route-loader.php:63-157 | when some step halts, the loop's result is the first halt, whatever follows it |
| Text.Split | core/route-loader.php:108 | `explode` always gives at least one piece, no piece holds the delimiter, and there is one more piece than delimiters |
| Text.JoinSplit | core/route-loader.php:108 | `implode(d, explode(d, s))` gives `s` back |
| Text.SplitJoin | core/route-loader.php:108 | `explode(d, implode(d, parts))` gives the parts back when none holds `d` |
| Text.CountSplit | core/router-engine.php:145-148 | splitting on '/' loses none of the ':' that `substr_count` counts |
| Text.TrimChar | core/route-loader.php:94 | `trim(s, c)` is no longer than `s`, neither starts nor ends with `c`, and leaves a text without `c` unchanged |
| Text.TrimDefault | core/class.php:399-401 | `trim()` leaves no default whitespace at either end |
| Text.Upper | core/orm/Query.php:96 | `strtoupper` keeps the length and maps each character |
| Text.UpperIdempotent | core/orm/Query.php:96 | upper-casing twice is upper-casing once |
| Text.IntToString | core/error-handler.php:257 | the decimal text of an int is non-empty and starts with '-' exactly for a negative number |
| Text.IntCast | core/function.php:662 | `(int)` of a text that starts with no space, sign or digit, the empty text included, is 0 |
| Text.IntCastSign | core/class.php:387-388 | a '-' before the digits negates the cast value, and a '+' leaves it as it is |
| Text.IntCastOfIntText | core/class.php:389-390 | `(int)"$n"` is `n`, negative or not |
| Text.DigitsValueNatToString | core/class.php:383-384 | reading back the decimal text of `n` gives `n` |
| Text.ReplaceAllAbsent | core/class.php:403-408 | `str_replace` changes nothing when the needle does not occur |
| Php.StrOf | core/function.php:195-197 | a coercive string conversion fails exactly on an array and keeps a string as it is |
| Php.Lookup | core/class.php:154-156 | a lookup finds a value exactly when the key is present |
| Php.Put | core/class.php:141-143 | `$a[$k] = $v` makes `k` read `v` and leaves every other key's value. It keeps the keys when `k` was present, and appends otherwise |
| Php.PutDistinct | core/class.php:141-143 | an array with distinct keys keeps them distinct after a write |
| Php.Remove | core/class.php:175-177 | `unset` removes the key and leaves every other key's value |
| Php.ListOf | core/function.php:232-238 | a list built from values has keys 0, 1, … and holds the values in order |
| Php.LookupList | core/function.php:232-238 | reading a list at position `i` gives entry `i` |
| Ctx.Get | core/class.php:154-156 | `ctx::get` gives the default for a missing key or a stored null, and the stored value otherwise |
| Ctx.Set | core/class.php:141-143 | after `ctx::set` the key is present and reads its value (or the default for null); other keys are untouched |
| Ctx.Forget | core/class.php:175-177 | `ctx::forget` removes only the named key |
| Ctx.Flush | core/class.php:185-187 | after `ctx::flush` no key is present |
| Ctx.SetAll | core/router-engine.php:257-263 | a run of `ctx::set` calls leaves every written key present and keeps every old key |
| Ctx.SetAllLast | core/router-engine.php:257-263 | after a run of writes, a key reads the last value written to it |
| Ctx.SetAllUntouched | core/router-engine.php:257-263 | a key never written keeps its old entry |
| ConfigStore.NormKeys | core/class.php:37 | each path component loses its trailing ':' |
| ConfigStore.GetStopsAtLeaf | core/class.php:87-91 | a missing component, or a non-array on the way, gives the default |
| ConfigStore.NormalizeIsNormal | core/class.php:43-47 | after the normalising loop no key ends in ':' |
| ConfigStore.NormalizeIdentity | core/class.php:43-47 | normalising an array whose keys carry no trailing ':' changes nothing |
| ConfigStore.SetAt | core/class.php:40-52 | every level `set` walks through becomes an array with normalised keys |
| ConfigStore.Set | core/class.php:36-56 | after `set` the store's top-level keys are normalised |
| ConfigStore.GetSetAt | core/class.php:36-56 | reading along a colon-free path gives back what was set there |
| ConfigStore.GetAfterSet | core/class.php:36-94 | `Config::get` on a colon-free path returns what `Config::set` stored there |
| ConfigStore.HasSetAt | core/class.php:61-78 | a path `set` wrote is one `has` finds |
| ConfigStore.HasAfterSet | core/class.php:36-78 | `Config::has` is true for every path `Config::set` wrote |
| ConfigStore.HasIgnoresTrailingColon | core/class.php:61-78 | `has` cannot tell "app:" from "app", in the path or in the store |
| ConfigStore.GetDistinguishesColon | core/class.php:83-94 | `get` can: a key stored as "app:" is not found as "app" |
| ConfigStore.NormKeysIdempotent | core/class.php:37 | trimming the path components twice is trimming them once |
| ConfigStore.SplitAppendAt | core/class.php:37 | appending a non-delimiter character to a path only extends its last component |
| TypeCheck.NewlineInNoClass | core/router-engine.php:396-408 | no type's character class admits "\n" |
| TypeCheck.PlusMatchMeans | core/router-engine.php:396-408 | `^[class]+$` holds exactly when the value, less one final "\n", is non-empty and all in the class |
| TypeCheck.ExactMatchMeans | core/router-engine.php:405 | `^[class]{n}$` holds exactly when the value, less one final "\n", has length `n` and is all in the class |
| TypeCheck.AllDigitsAheadMeans | core/router-engine.php:400 | the `(?!\d+$)` look-ahead rejects exactly the values whose body is all digits |
| TypeCheck.ValidateTypeMeans | core/router-engine.php:396-408 | what each type name accepts: `ctype_digit` for int, `is_numeric` for dbl, the class tests for the string types, slug and uuid, "true"/"false" in any case for bool, and nothing for an unknown name |
| Pcre.Run | core/route-loader.php:114-138 | a group body stops at the first stop character |
| Pcre.MatchAtSound | core/router-engine.php:92 | whatever the backtracking matcher returns is a parse of the path by the fragments followed by `/?$` |
| Pcre.MatchAtComplete | core/router-engine.php:92 | if any parse exists, the matcher finds one |
| Pcre.MatchIffParses | core/router-engine.php:92 | `preg_match` of the compiled pattern succeeds exactly when the path parses |
| Pcre.LastSet | core/router-engine.php:181-185 | it counts the groups up to the last one that took part; none after it did |
| Pcre.PregQuote | core/route-loader.php:141 | `preg_quote` never shortens its input |
| Pcre.UnquotePregQuote | core/route-loader.php:141 | the escaped literal reads back as the original text |
| Pcre.Render | core/route-loader.php:109-144 | the pattern string opens with `#^` and closes with `/?$#` |
| Pcre.FragsTextAppend | core/route-loader.php:111-142 | the pattern text of consecutive fragments is the concatenation of their texts |
| RouteCompiler.NameRunExact | core/route-loader.php:69 | the name run from `i` is exactly `m` long when `m` name characters are followed by a non-name one or the end |
| RouteCompiler.ClassifyTyped | core/route-loader.php:120-129 | a segment is classified as the typed placeholder `:n(t)` exactly when it has that shape |
| RouteCompiler.ClassifyPlain | core/route-loader.php:132-138 | a segment is classified as the plain placeholder `:n` exactly when it has that shape |
| RouteCompiler.FragReadsBack | core/route-loader.php:111-142 | a fragment reads back its segment: the wildcard exactly from '*', a literal with the segment's own text, a placeholder group named after the plain or typed placeholder the segment spells (and every such segment gives a group of that name), required exactly when the route is |
| RouteCompiler.TypesStep | core/route-loader.php:123 | recording a typed placeholder sets only that name's type |
| RouteCompiler.TypesOfKeys | core/route-loader.php:120-129 | `types` has a key exactly for the names of typed placeholders |
| RouteCompiler.TypesOfLast | core/route-loader.php:120-129 | a name typed twice keeps the last type |
| RouteCompiler.NormTarget | core/route-loader.php:99-103 | the target comes out qualified (holding ':' or starting with '/'): a qualified target is kept, and one without a namespace is placed in 'app:' |
| RouteCompiler.NormTargetIdempotent | core/route-loader.php:100-103 | normalising a normalised target changes nothing |
| RouteCompiler.CompileDecl | core/route-loader.php:69-89 | a malformed alias stops with the alias page, and a malformed declaration with the config page |
| RouteCompiler.RecordNormalised | core/route-loader.php:69-103 | every compiled record has a well-formed alias, a route without leading or trailing '/', an upper-case method and a qualified target |
| RouteCompiler.RecordReadsBack | core/route-loader.php:95-142 | a compiled record has one fragment per segment of its trimmed route, and each fragment reads that segment back |
| RouteCompiler.CompileAllInOrder | core/route-loader.php:63-157 | compiling the map succeeds exactly when every declaration does, with one record per declaration in map order |
| RouteCompiler.CompileAllStopsAtFirstBad | core/route-loader.php:63-89 | the run halts with the first bad declaration's page |
| RouteCompiler.IgnoresRestAfterBad | core/route-loader.php:63-89 | whatever follows the first bad declaration changes nothing |
| RouteCompiler.BadAliasHalts | core/route-loader.php:69-76 | a malformed alias anywhere in the map stops the run with a 500 |
| RouteCompiler.DeclHaltIs500 | core/route-loader.php:69-89 | every page the compiler stops with is a 500 |
| RouteCompiler.LoadRoutes | core/route-loader.php:25-166 | a missing map halts; a fresh cache is `require`d, so one that does not parse halts with a 500, and any other fresh cache is kept; otherwise a map file that does not return an array gives the foreach warning, and an array is compiled: the records are written, or the first bad declaration halts |
| RouteCompiler.LoadHaltIs500 | core/route-loader.php:36-89 | whatever stops the loader, a missing map, a cache that does not parse, a map that is not an array or a bad declaration, the page is a 500 |
| RouteCompiler.FreshCacheIgnoresMap | core/route-loader.php:49-55 | with a fresh cache the map's contents make no difference |
| RouteCompiler.ReadCache | core/router-engine.php:370-376 | an absent cache reads as no routes and a complete one as its records; a blank one is the return-type TypeError and a partial one a ParseError |
| RouteCompiler.TornCacheLooksFresh | core/route-loader.php:49-55 | a cache cut short by the truncate-then-write is already newer than the map: the next request stops in the loader on a partial file, and keeps a blank one |
| RouteLookup.RoutePath | core/router-engine.php:327-349 | null unless the name starts with '@'; otherwise a route text exactly when some record has the alias, and then the first such record's |
| RouteLookup.RoutePathOfRecord | core/router-engine.php:327-349 | a record's alias leads back to its route text when no earlier record shares it |
| Links.RawUrlEncode | core/function.php:241-255 | the encoding holds only unreserved characters and '%', leaves an unreserved text as it is, and never shortens |
| Links.EncodedIsInert | core/function.php:241-255 | an encoded value holds no '/', ':' or '?' |
| Links.DecodeEncode | core/function.php:241-255 | `rawurldecode(rawurlencode(s))` is `s` |
| Links.StripQuery | core/function.php:55-62 | the key up to its first '?', which holds no '?' |
| Links.FirstPrefix | core/function.php:65-77 | no prefix is found exactly when no map prefix starts the key; otherwise the first one that does is found |
| Links.Alias | core/function.php:49-81 | a key that matches no prefix is returned without its query part; a matching one has its first prefix swapped for the base |
| Links.UntokTok | core/function.php:228-229 | the placeholder scan loses nothing: the pieces spell the pattern again |
| Links.PositionalAssocAt | core/function.php:232-238 | a list of parameters gives each distinct placeholder the entry at its own position, and null past the end |
| Links.Override | core/function.php:207-213 | the override loop fails exactly when an array lands on a segment; an override whose index falls before the first segment is skipped without being cast |
| Links.OverrideAt | core/function.php:207-213 | a segment an override lands on holds that override cast to string and encoded; every other segment is kept |
| Links.SelfLink | core/function.php:200-216 | an empty current path gives "/" |
| Links.SelfLinkFails | core/function.php:200-216 | over a non-empty current path, a self link fails exactly when an array override lands on a segment |
| Links.SelfLinkSegments | core/function.php:200-216 | a self link reads back as the current segments with the last ones overridden by the encoded values, the overrides before the first segment ignored |
| Links.Link | core/function.php:192-258 | resolved text gives '/' + the text without leading '/'; '#self' gives the self link; '' is a warning; '@alias' resolves through the routes; any other pattern is filled token by token by `Fill` |
| Links.LinkAsWritten | core/function.php:192-258 | _link with the code's replacement loop: the same branches as `Link`, with the placeholders filled by `FillAsWritten` |
| Links.FillsFailAlike | core/function.php:241-246 | the code's fill and the token-by-token fill refuse exactly the same parameters |
| Links.SubstBySegments | core/function.php:241-255 | over linkable segments the substitution works segment by segment |
| Links.FillBySegments | core/function.php:228-257 | a route whose segments are all linkable gets, per segment, its parameter's encoded value (or ':name'), or the literal unchanged |
| Links.FillAsWritten | core/function.php:241-257 | the code's replacement loop, a first `preg_replace` per placeholder name in scan order, gives a path that starts with '/' |
| Links.PrefixNameCounterexample | core/function.php:241-255 | for ':ab/:a' with only 'a' given, the code gives "/xb/:a" where a token-by-token fill gives "/:ab/x" |
| Dispatch.PageText | core/router-engine.php:79 | `$_GET['page'] ?? 'home'`: 'home' when absent, and a TypeError exactly when it is an array |
| Dispatch.RequestPath | core/router-engine.php:79 | the path starts with a single '/', is "/home" for a page of slashes only, and otherwise is the page without its leading slashes |
| Dispatch.RequestPathIdempotent | core/router-engine.php:79 | normalising a normalised path changes nothing |
| Dispatch.RequestPathOfPlainPage | core/router-engine.php:79 | a non-empty page without leading '/' just gains one |
| Dispatch.StaticCount | core/router-engine.php:150-154 | the number of leading route parts that do not start with ':' |
| Dispatch.SamePrefixMeans | core/router-engine.php:94-123 | the pre-match prefix test is a plain prefix test on the parts |
| Dispatch.ScanMeans | core/router-engine.php:86-139 | the scan ends empty exactly when every route is passed over; otherwise it stops at the first route of the request's method that matches, or that fails in debug mode and is required and incomplete |
| Dispatch.ScanIgnoresLater | core/router-engine.php:86-139 | once the scan stops, later routes are never looked at |
| Dispatch.FirstBadType | core/router-engine.php:187-209 | no failure is reported exactly when every typed parameter is absent, empty or valid; a reported one is the first that fails |
| Dispatch.ControllerTarget | core/router-engine.php:211-217 | the controller target ends in '.php' and has a namespace or is absolute |
| Dispatch.ControllerTargetKeeps | core/router-engine.php:211-217 | a namespaced or absolute target is kept, at most gaining '.php' |
| Dispatch.ControllerTargetBare | core/router-engine.php:211-213 | a bare target lands under 'app:controller/' |
| Dispatch.ControllerTargetIdempotent | core/router-engine.php:211-217 | resolving a resolved target changes nothing |
| Dispatch.CompiledTargetKept | core/route-loader.php:100-103 | a compiled record's target is already namespaced, so the 'app:controller/' rule never applies to it |
| Dispatch.Accept | core/router-engine.php:141-279 | after a match, the request either takes the route, with its alias and named captures and an existing '.controller.php' file, or aborts with the trace unchanged |
| Dispatch.Enter | core/router-engine.php:257-279 | taking the route includes the file and then runs the after-hooks |
| Dispatch.Route | core/router-engine.php:83-290 | a match includes an existing '.controller.php' file after the hooks so far, then the after-hooks; anything else leaves the trace as it was |
| Dispatch.DispatchMap | core/router-engine.php:77-290 | a bad page runs nothing and is a 500; otherwise the before-hooks run first; a match includes an existing controller and then the after-hooks |
| Dispatch.DispatchNoMatch | core/router-engine.php:282-290 | no route is found exactly when the page and cache are readable and every route is passed over; ctx is then untouched |
| Dispatch.AcceptMatched | core/router-engine.php:141-209 | a taken route passed the post-match incomplete check and every type check |
| Dispatch.DispatchMatched | core/router-engine.php:86-279 | a taken route is the first that stops the scan; its pattern matches the path with the reported captures, and it passed both checks |
| Dispatch.BadPageRunsNothing | core/router-engine.php:79 | an array page halts before any hook runs |
| Dispatch.BlankCacheHaltsAfterHooks | core/router-engine.php:78-83 | a blank cache file stops dispatch with the return-type TypeError after the before-hooks, ctx untouched |
| Dispatch.EnterCtx | core/router-engine.php:257-263 | a taken route leaves in ctx its alias, route text, link, relative target, parameters, required flag and query |
| Dispatch.RouteEntriesRead | core/router-engine.php:257-263 | each route entry reads back as the value set |
| IncompleteCheck.SlashCount | core/router-engine.php:147 | a path matched by slash-free fragments holds a '/' per fragment, plus one for a final '/' |
| IncompleteCheck.TrimCount | core/router-engine.php:147 | `trim(path, '/')` drops the first '/' and at most one final '/' |
| IncompleteCheck.PartsOfMatch | core/router-engine.php:147-156 | a path matched by such fragments has at least one part per fragment |
| IncompleteCheck.SegColons | core/router-engine.php:145 | a colon-safe segment holds one ':' if it is a placeholder and none otherwise |
| IncompleteCheck.ColonsAtMostParts | core/router-engine.php:145-156 | the ':' of colon-safe parts are no more than the parts |
| IncompleteCheck.FragsOfSafeRoute | core/route-loader.php:108-142 | a required, colon-safe route compiles to slash-free fragments, solid at both ends |
| IncompleteCheck.RequiredMatchNeverIncomplete | core/router-engine.php:141-179 | for a required map route with no `*` and no stray ':', a successful match never leaves the path short of parts, so the post-match 422 cannot fire |
| Middleware.ModeOf | core/middleware-loader.php:51-57 | the loose switch takes 'all' or `true` as all, 'custom' as custom, anything else as neither |
| Middleware.ListedFile | core/middleware-loader.php:59-74 | a listed entry names a file unless it is an array, which gives PHP's "Array to string conversion" warning, fatal under the installed handler |
| Middleware.SelectListed | core/middleware-loader.php:59-74 | each listed entry is loaded if it is a file and recorded as not found otherwise; a PHP warning, fatal under the installed handler, happens exactly when some entry is an array |
| Middleware.Select | core/middleware-loader.php:51-75 | 'all' loads the listing, an unknown mode loads nothing, and 'custom' with a non-array list gives the foreach warning, fatal under the installed handler |
| Middleware.Check | core/middleware-loader.php:80-131 | a non-array is rejected, then missing keys; it goes to before or after exactly when accepted with that `when`, and warns exactly when `when` is an array |
| Middleware.Step | core/middleware-loader.php:113-130 | one unit appends its file to exactly the list its verdict names |
| Middleware.RegisterMeans | core/middleware-loader.php:80-131 | the loop succeeds exactly without an array `when`, and then appends the before-units, after-units and rejections in load order |
| Middleware.EveryUnitOnce | core/middleware-loader.php:80-131 | each loaded unit lands in exactly one of the three lists |
| Middleware.FormattedLines | core/middleware-loader.php:147-151 | when no file name or error holds a newline, the abort message splits back into one line per error, line i being file i + ". " + error i |
| Middleware.Finish | core/middleware-loader.php:113-159 | an abort is a 500, which ends the request before any registered hook runs; the hooks counted are the units registered, and the request halts exactly when an error was recorded |
| Middleware.Load | core/middleware-loader.php:51-159 | every halt of the loader, an abort or a PHP warning on the way, is a 500; the request ends there, so no registered hook runs (the empty trace of `Router.Handle`) |
| Middleware.FinishMeans | core/middleware-loader.php:113-159 | the registered hooks are the before- and after-units in load order; the request halts exactly when some error was recorded, with one page carrying every error line |
| Middleware.FinishWarns | core/middleware-loader.php:123-130 | an array `when` halts the loader and leaves ctx unchanged |
| Middleware.UnknownModeLoadsNothing | core/middleware-loader.php:51-75 | an include mode other than 'all' and 'custom' loads nothing and records no error |
| Middleware.PublishedKeys | core/middleware-loader.php:137-139 | the three published keys read back as the before, after and error lists; every other key is untouched |
| Router.CacheAfter | core/router.php:26-32 | after a recompilation dispatch reads the records just written; a kept cache is read as it was |
| Router.Conclude | core/router.php:41-47 | a taken route runs its controller; no route gives the CMS fallback exactly in 'cms' mode and a 404 otherwise; a halt gets its own status |
| Router.Handle | core/router.php:24-47 | a middleware abort, a missing map, a fresh cache that does not parse or a stale cache with a map that is not an array is a 500 before any hook; a taken controller file exists and ends in '.controller.php' |
| Router.BlankCacheAnswer | core/router.php:32-41 | a fresh blank cache is kept by the loader, and the request ends in a 500 after every before-hook has run |
| Router.NoRouteAnswer | core/router.php:41-47 | when no route takes the request, the answer is the CMS fallback exactly in 'cms' mode and a 404 otherwise |
| Router.FreshMapDispatched | core/router.php:32-41 | after a recompilation the request is dispatched over exactly the records just compiled |
| ErrorHandler.ListedCapital | core/error-handler.php:201-258 | every reason phrase starts with a capital letter |
| ErrorHandler.LabelIsCodeIff | core/error-handler.php:257-259 | a label is the code's own decimal text exactly when the code is not listed |
| ErrorHandler.UnlistedLabelCasts | core/error-handler.php:259 | the label of an unlisted code casts back to the code |
| ErrorHandler.LabelExamples | core/error-handler.php:225-246 | 422 is "Unprocessable Entity" and 404 is "Not Found" |
| ErrorHandler.HttpCodeLabel | core/error-handler.php:201-260 | the label is stored under 'debug.label_system'; every other key keeps its presence and value |
| ErrorHandler.SafeExtraDatabases | core/error-handler.php:286-306 | null when no connection other than 'default' is an array |
| ErrorHandler.SummarySound | core/error-handler.php:294-303 | every key the summary writes is the upper-cased name, '_' and one of TYPE, HOST, DB, LOG, holding that field or '-' |
| ErrorHandler.SummaryWrites | core/error-handler.php:294-303 | the summary writes all four fields of a connection |
| ErrorHandler.ExtraNoneIff | core/error-handler.php:286-306 | null exactly when no qualifying connection exists |
| ErrorHandler.ExtraSound | core/error-handler.php:286-306 | every entry comes from a qualifying connection, and no user or password is ever copied |
| ErrorHandler.ExtraComplete | core/error-handler.php:286-306 | every field of every qualifying connection is reported |
| ErrorHandler.Escape | core/error-handler.php:186 | the escaped text holds no '<', '>', '"' or '\'' |
| ErrorHandler.UnescapeEscape | core/error-handler.php:186 | decoding the entities gives back the escaped text |
| ErrorHandler.RenderError | core/error-handler.php:124-191 | the page carries the requested status code |
| ErrorHandler.RenderErrorStores | core/error-handler.php:141-162 | code, title, message, file (the request URL when missing), line (0 when missing), trace (the current backtrace when missing) and label read back; the route key is present and reads as the route passed, or as absent when it is null |
| ErrorHandler.DebugReads | core/error-handler.php:156-162 | the seven debug keys read back as written, a null trace or route reading as absent; the route key is present even when null |
| ErrorHandler.DebugPageIff | core/error-handler.php:137-190 | the debug page is shown exactly when config.php sets 'debug' to 'display' and the debug template is present |
| ErrorHandler.InlineErrorPage | core/error-handler.php:183-188 | with no template, the inline page shows the code and the escaped message |
| ErrorHandler.HttpResponse | core/error-handler.php:92-108 | the response carries the requested status code |
| ErrorHandler.HttpResponseFallback | core/error-handler.php:96-106 | the code's own page is used exactly when its file exists, and only the fallback page records 'response.http_code' |
| ErrorHandler.SafeMuteIsBare | core/error-handler.php:271-277 | when the Config store's 'debug' is 'mute', the safe renderer shows only the code's page |
| ErrorHandler.SafeOtherwiseFull | core/error-handler.php:271-277 | in any other mode it renders the full error |
| ErrorHandler.RenderErrorSafe | core/error-handler.php:271-277 | the safe renderer keeps the requested status code in either mode |
| ErrorHandler.HaltStatus | core/error-handler.php:34-82 | whatever the halt, the page carries the halt's status code |
| RoutesCheck.HasErrorsIff | core/cli/routes.php:120-125 | a report has errors exactly when some alias is missing or has a mismatch |
| RoutesCheck.ExitCodeIff | core/cli/routes.php:120-137 | the command exits 0 exactly when it checked the files and every alias compared clean |
| RoutesCheck.IndexFaultIff | core/cli/routes.php:34-39 | indexing the cache is a TypeError exactly when some indexed record has an array alias |
| RoutesCheck.IndexLast | core/cli/routes.php:34-39 | the index holds, under each alias, the last record carrying it |
| RoutesCheck.IndexUntouched | core/cli/routes.php:34-39 | an alias no record carries is not indexed |
| RoutesCheck.CompareErrors | core/cli/routes.php:71-117 | each of the four mismatch messages is reported exactly when its test fails |
| RoutesCheck.Check | core/cli/routes.php:11-32 | the four abort messages, in the command's order, for a missing or invalid map or cache |
| RoutesCheck.MissingIff | core/cli/routes.php:43-61 | an alias is reported missing exactly when no cache record carries it |
| RoutesCheck.VerdictsInOrder | core/cli/routes.php:43-125 | without a TypeError there is one verdict per map alias, in map order |
| RoutesCheck.VerdictsAllMatch | core/cli/routes.php:43-125 | when every alias compares clean, the loop ends with no errors |
| RoutesCheck.CacheOf | core/route-loader.php:163-166 | the cache holds one entry per compiled record, in order |
| RoutesCheck.CacheEntryFields | core/route-loader.php:149-157 | a written cache entry carries the record's alias, route text, method, target and required flag under the keys the CLI reads |
| RoutesCheck.CanonicalMatches | core/cli/routes.php:71-117 | a declaration written the canonical way compares clean against its own compiled record |
| RoutesCheck.CompiledCachePasses | core/cli/routes.php:11-137 | a cache freshly written from a map of canonical declarations passes the check with exit code 0 |
| RoutesCheck.SlashedRouteFlagged | core/cli/routes.php:84-86 | a route written with a surrounding '/' is flagged against its own compiled record |
| RoutesCheck.LowerMethodFlagged | core/cli/routes.php:111-117 | a lower-case method is flagged against its own compiled record |
| IpRanges.PadRight | core/function.php:668 | `str_pad` pads on the right and never cuts |
| IpRanges.Pack | core/function.php:669 | `pack('H*')` makes one byte per two hex digits, rounding up |
| IpRanges.AndBytes | core/function.php:671 | string `&` is as long as the shorter operand, byte by byte |
| IpRanges.MaskByteAt | core/function.php:662-669 | byte `i` of the packed mask has its top `m - 8i` bits set, clamped to 0..8 |
| IpRanges.MaskLength | core/function.php:662-669 | the packed mask covers every address byte |
| IpRanges.MaskedByte | core/function.php:671 | two bytes agree under a top-`r` mask exactly when their top `r` bits agree |
| IpRanges.AddressMatch | core/function.php:671 | two addresses of the same length compare equal under the mask exactly when their first `m` bits agree |
| IpRanges.InRangeAsWritten | core/function.php:654-672 | a rule without '/' is a warning, and an unparsable address or subnet gives false |
| IpRanges.MixedFamilyCounterexample | core/function.php:654-672 | as written, 1.2.3.4 lies inside 102:304::/32; with the families kept apart it does not |
| IpRanges.InRange | core/function.php:654-672 | the same error cases as the code, with addresses of different lengths never matching |
| IpRanges.InRangeMeans | core/function.php:654-672 | for one address family the test is the CIDR prefix test, and it agrees with the code |
| IpRanges.FamiliesApart | core/function.php:654-672 | an address of one family never matches a range of the other |
| IpRanges.AllowedSound | core/function.php:632-644 | `ip_in_allowed` is true only when some rule admits the address, both with the code's `ip_in_range` and with the corrected one |
| IpRanges.AllowedMeans | core/function.php:632-644 | with no malformed range rule, it is true exactly when some rule admits the address, under either range test |
| IpRanges.AllowedMixedFamily | core/function.php:632-644 | as written, the rule list ['102:304::/32'] admits 1.2.3.4; over the corrected range test it does not |
| IpRanges.ApartRuleFamilies | core/function.php:636-639 | over the corrected range test, a range rule of the other address family neither admits the address nor fails |
| Words.SplitSpace | core/function.php:1371 | `preg_split('/\s+/')` pieces hold no whitespace, and only the first and last can be empty |
| Words.SplitSpaceJoin | core/function.php:1371-1373 | words joined by single spaces split back into the same words |
| Words.Slice | core/function.php:1373 | `array_slice($w, 0, $n)` is a prefix of `n` words, and a negative `n` drops from the end |
| Words.LimitWords | core/function.php:1370-1374 | a text of at most `max` words comes back unchanged; a longer one ends in '...' |
| Words.LimitWordsKeepsFirst | core/function.php:1370-1374 | the cut text, before its '...', splits into exactly the first `max` words |
| I18n.MergeKeys | core/class.php:336 | the merged array has exactly the keys of both |
| I18n.FlattenSound | core/class.php:328-343 | every flattened entry is a scalar leaf under its dotted path |
| I18n.FlattenComplete | core/class.php:328-343 | every scalar leaf's dotted path is a key of the result |
| I18n.FlattenNoArrays | core/class.php:328-343 | no array survives flattening |
| I18n.Get | core/class.php:356-359 | a missing key gives the default, and a stored non-null value is returned |
| I18n.SetThenGet | core/class.php:348-359 | `get` after `set` on the same key gives the value; other keys are untouched |
| I18n.ParseSegment | core/class.php:376 | a parsed segment opens with '{' or '[', has a non-empty range free of closers, and a non-empty one-line text |
| I18n.ParseRendered | core/class.php:376 | a segment written the usual way parses back into its parts |
| I18n.Selects | core/class.php:381-394 | '{n}' selects exactly the count n; '[a,b]' a range with open '*' ends; a range without ',' is a warning |
| I18n.PickFirst | core/class.php:375-397 | the first verdict that selects or faults, after verdicts that all pass, decides the loop |
| I18n.PickNone | core/class.php:399-401 | when every verdict passes, nothing is picked |
| I18n.Substitute | core/class.php:403-408 | the replacements fail exactly when one of them is an array (a TypeError) or null (a deprecation notice, fatal under the installed error handler) |
| I18n.SubstituteNoColon | core/class.php:403-408 | a text with no ':' comes back unchanged |
| I18n.SubstituteCount | core/class.php:403-408 | ':count' between two colon-free texts becomes the decimal count |
| I18n.Choice | core/class.php:364-410 | a non-string entry gives ""; a string without '|' is returned as it is, with no substitution |
| I18n.ChoiceSelected | core/class.php:364-410 | a plural string substitutes into the first selecting segment's text when all before it pass |
| I18n.ChoiceFallback | core/class.php:399-408 | when no segment selects, the trimmed last segment is substituted, range prefix and all |
| I18n.ItemsRangeSelects | core/class.php:387-394 | the '[2,*]' segment selects exactly the counts from 2 on |
| I18n.ChoiceItems | application/locale/en.php:10 | '_shared.items' reads "Nessun elemento" for 0, "1 elemento" for 1, "n elementi" from 2, and keeps the '[2,*]' prefix for a negative count |
| Orm.Identifier | core/orm/Query.php:53-64 | '*' or an identifier-regex match is accepted unchanged; anything else throws "Invalid SQL identifier" |
| Orm.IdentifierCharacters | core/orm/Query.php:59 | an accepted identifier holds nothing outside the class but one final "\n" |
| Orm.Identifiers | core/orm/Query.php:82-86 | a list passes exactly when every element does; otherwise it throws the error of the first failing element, every element before it passing |
| Orm.New | core/orm/Query.php:70-74 | the table is checked; SELECT is '*' and every other list starts empty |
| Orm.Select | core/orm/Query.php:80-88 | the checked columns replace the previous select list; a bad column throws the first failing column's "Invalid SQL identifier" |
| Orm.GroupBy | core/orm/Query.php:143-151 | the checked fields replace the previous group list; a bad field throws the first failing field's "Invalid SQL identifier" |
| Orm.Where | core/orm/Query.php:94-104 | an operator outside the allowed list throws first; otherwise a bad field throws "Invalid SQL identifier: field", and a good one has the clause appended with the upper-cased operator |
| Orm.Join | core/orm/Query.php:110-137 | the type is checked, then the operator, then table, left and right, the first bad one throwing its "Invalid SQL identifier"; a join is appended exactly when all pass |
| Orm.OrderBy | core/orm/Query.php:157-167 | ASC or DESC in any case, then the field, a bad one throwing "Invalid SQL identifier: field"; the term is appended |
| Orm.Limit | core/orm/Query.php:169-178 | both numbers are set together exactly when neither is negative; otherwise it throws |
| Orm.ClauseOf | core/orm/Query.php:251-279 | a clause throws exactly when refused, with the IS and IN messages; otherwise its text starts with the field and operator and it binds its own values |
| Orm.Clauses | core/orm/Query.php:248-282 | the clauses compile exactly when none is refused, one text per clause |
| Orm.ClauseIndexOf | core/orm/Query.php:266-279 | every placeholder name the compiler makes leads back to its clause |
| Orm.BindsDistinct | core/orm/Query.php:261-279 | one clause's placeholder names are distinct |
| Orm.ClausesParams | core/orm/Query.php:248-280 | compiling appends exactly the clauses' bindings, under distinct names |
| Orm.CompiledParams | core/orm/Query.php:235-305 | a compiled query's parameters are all the bindings, clause by clause, under distinct names |
| Orm.ScalarBound | core/orm/Query.php:277-279 | a comparison or LIKE clause binds its value under ':w{i}' |
| Orm.MemberBound | core/orm/Query.php:261-273 | member j of clause i's IN list is bound under ':w{i}_{j}' |
| Orm.IsBindsNothing | core/orm/Query.php:253-259 | an IS / IS NOT clause binds nothing |
| Orm.CompileIgnoresValues | core/orm/Query.php:235-305 | the SQL text does not depend on the WHERE values, IN lists being of equal length |
| Orm.MemberBindsOnList | core/orm/Query.php:266-273 | on a PHP list the key-based and positional namings agree |
| Orm.MemberBindsAsWritten | core/orm/Query.php:266-270 | as written, members with different array keys are bound under different names, one binding per member |
| Orm.MemberNamesApart | core/orm/Query.php:267 | two keys give the same ':w{i}_{key}' name only when they are equal |
| Orm.InClauseAsWritten | core/orm/Query.php:266-273 | as written, the IN clause text opens with the field, the operator and '(' |
| Orm.InClauseOnList | core/orm/Query.php:261-274 | on a non-empty PHP list, the code's IN clause text and bindings are exactly the ones the model compiles |
| Orm.KeyInlinedAsWritten | core/orm/Query.php:266-273 | as written, an IN list's array key is copied into the SQL text |
| Orm.KeysChangeSqlAsWritten | core/orm/Query.php:266-273 | as written, two IN lists of one length with different keys give different SQL |
| Orm.CompileSelect | core/orm/Query.php:235-305 | compiling throws exactly when some WHERE clause is refused |
| Orm.CompileFirstRefused | core/orm/Query.php:235-305 | the first refused clause is the one compileSelect throws for |
| Orm.ClausesInOrder | core/orm/Query.php:248-282 | the WHERE texts come out in clause order |
| Orm.OffsetShown | core/orm/Query.php:297-302 | OFFSET is written exactly when a limit is set and the offset is set and not zero |
| Orm.SqlLayout | core/orm/Query.php:237-302 | the SQL opens with SELECT … FROM and closes with the LIMIT tail |
| Orm.First | core/orm/Query.php:222-229 | `first()` compiles a copy with LIMIT 1 and OFFSET 0, and fails exactly when the query would |
| Orm.FirstLimitsToOne | core/orm/Query.php:222-229 | `first()` always ends in " LIMIT 1", dropping any offset |

## Left out

- I/O is left out: reading and writing files, `require` and `include`, `header()`, `http_response_code`, `exit`, `echo` output and the template HTML. File existence, mtimes, include results and the cache contents are parameters; `exit` is the end of the model's result.
- RoutesCheck.CacheEntry: `var_export` followed by `require` is assumed to give the record array back as written. The PHP text of the cache file is not modelled.
- The text the `routes` CLI command prints is not modelled; only the verdicts and the exit code are.
- RoutesCheck.MethodErrors: casting an array method to string in the CLI raises an "Array to string conversion" warning. That warning is not modelled; the cast gives "Array" as PHP's value does.
- Uncaught `TypeError`s and exceptions are results (`Fault`, `Threw`) rather than the exception handler's page and exit code. `Base.ExceptionHalt` stands for the page where the dispatcher's own flow reaches it.
- The error, exception and fatal handlers are modelled only as the halts they produce. The backtrace, log files (`nexi_debug_log`, `nexi_db_log`) and routing log are left out, since they write files only.
- The ORM's `get()`, PDO execution, `Connection`, `Repository`, `Model`, `Schema` and the transaction manager are left out; only SQL text and parameter construction are modelled.
- Orm.CompileSelect: IN placeholders are numbered by position, ':w{i}_{j}', the corrected naming of the Findings table. The code names them after the array keys, ':w{i}_{key}', so on an IN list that is not a PHP list the program's SQL text and parameter names differ from the model's (`Orm.InClauseOnList` shows they agree on lists).
- Orm.ClauseOf: the same positional naming; the code's key-based clause is `Orm.InClauseAsWritten` with `Orm.MemberBindsAsWritten`.
- Orm.MemberBound: states the positional name ':w{i}_{j}'; the code binds member j under its own key.
- Orm.ClausesParams: the bindings are stated under the positional names above.
- Orm.CompiledParams: the compiled parameters are stated under the positional names above.
- Orm.Select: a non-string element in the column list (a PHP `TypeError` in `assertIdentifier`) is not modelled; columns are strings.
- Links.Link: placeholders are filled by the corrected token-by-token `Fill` (see Findings). Where one placeholder name is a prefix of a later one, the code's `_link` gives `Links.LinkAsWritten`'s text instead, so the model's link differs from the program's there.
- Links.Alias: the query part of a key is dropped. `alias()` also merges that query into `$_GET` with `parse_str`; the merge is not modelled, because `parse_str`'s decoding and bracket syntax is a PHP library routine.
- Dispatch.EnterCtx: `route.resolve` is `Links.Link` of the route, so it carries the corrected fill above. `route.query` is the request's query without the entries that `alias()` merged in from the controller target's query string.
- Text.IntCast: only the decimal forms of `(int)` are modelled. A text with a fraction or exponent (`(int)"1e1"` is 10) and an overflowing digit run (which saturates at `PHP_INT_MAX`) go through PHP's float parsing, which is not modelled; such texts in a CIDR mask or a plural range read differently here.
- Transliteration, `is_numeric` (the 'dbl' type), `inet_pton` and UTF-8 validity are parameters, since they are PHP library functions with large tables.
- `nexi_lang` is not part of this model: a language text stands as its key and its arguments (`Dispatch.LangText`).
- The PCRE2 limit on group-name length is left out, since it depends on the library version.
- Hooks registered with `Route::before` and `Route::after` are recorded as events and assumed to return.
- Sessions, `nexi_locale_boot`, `view`, `types`, CSRF and the crypto helpers, `apiCall`, and the other CLI commands are outside the routing core.

Where the code and its documentation disagree, the model follows the code:

- Method matching is exact string equality; there is no 'ANY' method.
- The pre-match incomplete-route 422 ends the request, because the renderer exits; scanning does not continue.
- The cache write truncates and then writes, so it is not atomic (see `RouteCompiler.TornCacheLooksFresh`). A cut-short file is modelled as blank or as not parsing; a cut that happens to parse is not distinguished from a complete file.
- `first()` drops any offset the builder holds.
- Identifiers, aliases and placeholder names accept one trailing "\n", because `$` matches before a final newline.

## Findings

| source | as written | input that shows it | evidently intended | confidence | as-written member | corrected member |
|---|---|---|---|---|---|---|
| core/function.php:241-255 | each placeholder is filled with `preg_replace(':name…', 1)` in turn, so a name that prefixes a longer one replaces the start of the longer placeholder | `_link(':ab/:a', ['a' => 'x'])` gives "/xb/:a" | placeholders filled token by token: "/:ab/x" | not executed | Links.PrefixNameCounterexample | Links.FillBySegments |
| core/function.php:654-672 | the mask and the string `&` are cut to the shorter operand, so an IPv4 address is compared with the first 4 bytes of an IPv6 subnet | `ip_in_range('1.2.3.4', '102:304::/32')` is true | addresses of different families never match | not executed | IpRanges.MixedFamilyCounterexample | IpRanges.FamiliesApart |
| core/orm/Query.php:266-273 | IN placeholders are named `:w{i}_{key}` after the array keys, so a string key is copied into the SQL text | `where('id', 'IN', ['x) OR (1' => 5])` puts the key text into the SQL | placeholders numbered by position, the SQL depending only on the list length | not executed | Orm.KeysChangeSqlAsWritten | Orm.CompileIgnoresValues |
