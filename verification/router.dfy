/**
 * core/router.php: the request from start to answer.
 *
 * Loading the middleware files (at `require` time), compiling or keeping
 * the route cache, and dispatching, in that order; a dispatch that finds
 * no route ends in the CMS fallback page when `app_mode` is 'cms' and in a
 * bare 404 otherwise. Every halt on the way is answered by the error
 * renderer with its own status code.
 */
module Router {
  import opened Base
  import opened Text
  import opened Php
  import Ctx
  import ConfigStore
  import RouteCompiler
  import Dispatch
  import Middleware
  import ErrorHandler

  /** How the request ends. */
  datatype Answer =
    | Controller(alias: string, file: string, trace: seq<Dispatch.Event>)
    | CmsFallback(trace: seq<Dispatch.Event>)
    | ErrorPage(page: ErrorHandler.Rendered, trace: seq<Dispatch.Event>)

  /** `Config::get('app_mode') === 'cms'`. */
  predicate CmsMode(site: ErrorHandler.Site) {
    ConfigStore.Get(site.store, "app_mode", NULL) == S("cms")
  }

  /** The cache file dispatch reads: the one just written, or whatever was there. */
  function CacheAfter(load: RouteCompiler.Load, before: RouteCompiler.CacheFile): (c: RouteCompiler.CacheFile)
    ensures load.Wrote? ==> RouteCompiler.ReadCache(c) == Ok(load.records)
    ensures load.KeptCache? ==> c == before
  {
    match load
    case Wrote(rs) => RouteCompiler.Complete(rs)
    case KeptCache => before
  }

  /** What follows the dispatch: the controller, the fallback, or an error page. */
  function Conclude(res: Dispatch.Response, site: ErrorHandler.Site): (a: Answer)
    ensures a.trace == res.trace
    ensures a.Controller? <==> res.outcome.Matched?
    ensures a.CmsFallback? <==> res.outcome.NoMatch? && CmsMode(site)
    ensures res.outcome.NoMatch? && !CmsMode(site) ==> a.ErrorPage? && a.page.status == 404
    ensures res.outcome.Abort? ==> a.ErrorPage? && a.page.status == res.outcome.halt.code
  {
    match res.outcome
    case Matched(alias, _, file) => Controller(alias, file, res.trace)
    case Abort(h) =>
      ErrorHandler.HaltStatus(h, site, res.ctx);
      ErrorPage(ErrorHandler.RenderHalt(h, site, res.ctx), res.trace)
    case NoMatch =>
      if CmsMode(site) then CmsFallback(res.trace)
      else ErrorPage(ErrorHandler.HttpResponse(404, site, res.ctx), res.trace)
  }

  /**
   * One request: middleware, then the route map, then the dispatch over
   * the cache as the loader left it.
   */
  function Handle(s: Middleware.Setup, files: RouteCompiler.Files, raw: Val, req: Dispatch.Request,
                  env: Dispatch.Env, site: ErrorHandler.Site, c: Ctx.Store): (a: Answer)
    ensures Middleware.Load(s, c).halt.Some? ==> a.ErrorPage? && a.page.status == 500 && a.trace == []
    ensures !files.mapExists ==> a.ErrorPage? && a.page.status == 500 && a.trace == []
    ensures files.mapExists && RouteCompiler.CacheFresh(files) && env.cache.Partial? ==>
      a.ErrorPage? && a.page.status == 500 && a.trace == []
    ensures files.mapExists && !RouteCompiler.CacheFresh(files) && !raw.Arr? ==>
      a.ErrorPage? && a.page.status == 500 && a.trace == []
    ensures a.Controller? ==> env.fileExists(a.file) && EndsWith(a.file, ".controller.php")
    ensures a.CmsFallback? ==> CmsMode(site)
  {
    var b := Middleware.Load(s, c);
    if b.halt.Some? then
      ErrorHandler.HaltStatus(b.halt.value, site, b.ctx);
      ErrorPage(ErrorHandler.RenderHalt(b.halt.value, site, b.ctx), [])
    else
      match RouteCompiler.LoadRoutes(files, env.cache, raw)
      case Stopped(h) =>
        ErrorHandler.HaltStatus(h, site, b.ctx);
        RouteCompiler.LoadHaltIs500(files, env.cache, raw);
        ErrorPage(ErrorHandler.RenderHalt(h, site, b.ctx), [])
      case Done(load) =>
        var env' := env.(cache := CacheAfter(load, env.cache));
        Conclude(Dispatch.DispatchMap(req, env', b.hooks, b.ctx), site)
  }

  /** A request no route takes ends in the CMS fallback in 'cms' mode and in a 404 otherwise. */
  lemma NoRouteAnswer(s: Middleware.Setup, files: RouteCompiler.Files, raw: Val, req: Dispatch.Request,
                      env: Dispatch.Env, site: ErrorHandler.Site, c: Ctx.Store)
    requires Middleware.Load(s, c).halt.None?
    requires RouteCompiler.LoadRoutes(files, env.cache, raw) == Done(RouteCompiler.KeptCache)
    requires Dispatch.DispatchMap(req, env, Middleware.Load(s, c).hooks, Middleware.Load(s, c).ctx).outcome.NoMatch?
    ensures var a := Handle(s, files, raw, req, env, site, c);
      && (a.CmsFallback? <==> CmsMode(site))
      && (!CmsMode(site) ==> a.ErrorPage? && a.page.status == 404)
  {
    assert env.(cache := env.cache) == env;
  }

  /** After a recompilation the dispatch runs over exactly the records just compiled. */
  lemma FreshMapDispatched(s: Middleware.Setup, files: RouteCompiler.Files, raw: Val, req: Dispatch.Request,
                           env: Dispatch.Env, site: ErrorHandler.Site, c: Ctx.Store)
    requires Middleware.Load(s, c).halt.None?
    requires files.mapExists && !RouteCompiler.CacheFresh(files) && raw.Arr? && RouteCompiler.CompileAll(raw.es).Done?
    ensures var env' := env.(cache := RouteCompiler.Complete(RouteCompiler.CompileAll(raw.es).value));
      Handle(s, files, raw, req, env, site, c) ==
        Conclude(Dispatch.DispatchMap(req, env', Middleware.Load(s, c).hooks, Middleware.Load(s, c).ctx), site)
  {
  }

  /**
   * A fresh cache that holds nothing yet is kept by the loader and fails
   * when dispatch reads it: a 500 after every before hook has run.
   */
  lemma BlankCacheAnswer(s: Middleware.Setup, files: RouteCompiler.Files, raw: Val, req: Dispatch.Request,
                         env: Dispatch.Env, site: ErrorHandler.Site, c: Ctx.Store)
    requires Middleware.Load(s, c).halt.None? && Dispatch.PageText(req.query).Ok?
    requires files.mapExists && RouteCompiler.CacheFresh(files) && env.cache == RouteCompiler.Blank
    ensures var a := Handle(s, files, raw, req, env, site, c);
      a.ErrorPage? && a.page.status == 500 && a.trace == Dispatch.Befores(Middleware.Load(s, c).hooks.before)
  {
    var b := Middleware.Load(s, c);
    assert env.(cache := env.cache) == env;
    Dispatch.BlankCacheHaltsAfterHooks(req, env, b.hooks, b.ctx);
  }
}
