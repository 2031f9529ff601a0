/**
 * The pure part of the error handler: HTTP status labels, the
 * credential-free summary of the extra databases, and where an error page
 * is rendered from. Rendering itself (the templates, headers and `exit`)
 * is represented by the page chosen: every renderer ends the request.
 */
module ErrorHandler {
  import opened Base
  import opened Text
  import opened Php
  import Ctx
  import ConfigStore

  // ---------------------------------------------------------------
  // nexi_http_code_label
  // ---------------------------------------------------------------

  /** The fixed labels of nexi_http_code_label. */
  const LABELS: map<int, string> := map[
    100 := "Continue", 101 := "Switching Protocols",
    200 := "OK", 201 := "Created", 202 := "Accepted", 203 := "Non-Authoritative Information",
    204 := "No Content", 205 := "Reset Content", 206 := "Partial Content",
    300 := "Multiple Choices", 301 := "Moved Permanently", 302 := "Found", 303 := "See Other",
    304 := "Not Modified", 305 := "Use Proxy", 307 := "Temporary Redirect", 308 := "Permanent Redirect",
    400 := "Bad Request", 401 := "Unauthorized", 402 := "Payment Required", 403 := "Forbidden",
    404 := "Not Found", 405 := "Method Not Allowed", 406 := "Not Acceptable",
    407 := "Proxy Authentication Required", 408 := "Request Timeout", 409 := "Conflict",
    410 := "Gone", 411 := "Length Required", 412 := "Precondition Failed",
    413 := "Payload Too Large", 414 := "URI Too Long", 415 := "Unsupported Media Type",
    416 := "Range Not Satisfiable", 417 := "Expectation Failed", 422 := "Unprocessable Entity",
    500 := "Internal Server Error", 501 := "Not Implemented", 502 := "Bad Gateway",
    503 := "Service Unavailable", 504 := "Gateway Timeout", 505 := "HTTP Version Not Supported"
  ]

  const LABEL_KEY := "debug.label_system"

  /** `$labels[$code] ?? "$code"`. */
  function Label(code: int): string {
    if code in LABELS then LABELS[code] else IntToString(code)
  }

  /**
   * nexi_http_code_label: the label, and the store with 'debug.label_system'
   * holding it; no other key changes.
   */
  function HttpCodeLabel(code: int, c: Ctx.Store): (r: (string, Ctx.Store))
    ensures Ctx.Get(r.1, LABEL_KEY, NULL) == S(r.0)
    ensures forall k :: k != LABEL_KEY ==> (Ctx.Has(r.1, k) <==> Ctx.Has(c, k))
    ensures forall k, d :: k != LABEL_KEY ==> Ctx.Get(r.1, k, d) == Ctx.Get(c, k, d)
  {
    var text := Label(code);
    (text, Ctx.Set(c, LABEL_KEY, S(text)))
  }

  /** Every fixed label starts with a capital letter. */
  lemma ListedCapital(code: int)
    requires code in LABELS
    ensures |LABELS[code]| > 0 && 'A' <= LABELS[code][0] <= 'Z'
  {
  }

  /** The label is the bare decimal code exactly when the code is not listed. */
  lemma LabelIsCodeIff(code: int)
    ensures Label(code) == IntToString(code) <==> code !in LABELS
  {
    if code in LABELS {
      ListedCapital(code);
      var t := IntToString(code);
      if code >= 0 {
        assert IsDigit(NatToString(code)[0]);
      }
      assert t[0] == '-' || IsDigit(t[0]);
    }
  }

  /** An unlisted code's label reads back as the code. */
  lemma UnlistedLabelCasts(code: int)
    requires code !in LABELS
    ensures IntCast(Label(code)) == code
  {
    IntCastOfIntText(code);
  }

  lemma LabelExamples()
    ensures Label(422) == "Unprocessable Entity"
    ensures Label(404) == "Not Found"
  {
  }

  // ---------------------------------------------------------------
  // nexi_safe_extra_databases
  // ---------------------------------------------------------------

  /** `$db[$k] ?? '-'`: a missing or null field reads as '-'. */
  function FieldOrDash(db: Entries, k: string): (r: Val)
    ensures Lookup(db, k).Some? && !Lookup(db, k).value.IsNull() ==> r == Lookup(db, k).value
    ensures Lookup(db, k).None? || Lookup(db, k).value.IsNull() ==> r == S("-")
  {
    match Lookup(db, k)
    case Some(v) => if v.IsNull() then S("-") else v
    case None => S("-")
  }

  /** The key suffixes written for each database, with the field each is read from. */
  const FIELDS: seq<(string, string)> := [("TYPE", "type"), ("HOST", "host"), ("DB", "name"), ("LOG", "log")]

  /** A `databases` entry that contributes: not named 'default', and an array. */
  predicate Qualifies(e: (string, Val)) {
    e.0 != "default" && e.1.Arr?
  }

  function Prefix(name: string): string {
    Upper(name) + "_"
  }

  /**
   * The assignments of one loop round from field f on, in the source's
   * order: `$extra[$prefix . 'TYPE'] = $db['type'] ?? '-'` and so on.
   */
  function Fields(extra: Entries, p: string, db: Entries, f: nat): Entries
    requires f <= |FIELDS|
    decreases |FIELDS| - f
  {
    if f == |FIELDS| then extra
    else Fields(Put(extra, p + FIELDS[f].0, FieldOrDash(db, FIELDS[f].1)), p, db, f + 1)
  }

  /** One loop round over the database `name`. */
  function Summary(extra: Entries, name: string, db: Entries): Entries {
    Fields(extra, Prefix(name), db, 0)
  }

  /** One round of the loop: a non-contributing entry is skipped. */
  function Round(extra: Entries, e: (string, Val)): Entries {
    if Qualifies(e) then Summary(extra, e.0, e.1.es) else extra
  }

  /** The loop over the entries i.. of `databases`. */
  function SummaryFrom(extra: Entries, dbs: Entries, i: nat): Entries
    requires i <= |dbs|
    decreases |dbs| - i
  {
    if i == |dbs| then extra else SummaryFrom(Round(extra, dbs[i]), dbs, i + 1)
  }

  /** nexi_safe_extra_databases: null unless some extra database yields entries. */
  function SafeExtraDatabases(config: Entries): (r: Option<Entries>)
    ensures r.Some? ==> r.value != []
    ensures Lookup(config, "databases").None? ==> r.None?
    ensures Lookup(config, "databases").Some? && !Lookup(config, "databases").value.Arr? ==> r.None?
  {
    match Lookup(config, "databases")
    case None => None
    case Some(dbs) =>
      if !dbs.Arr? then None
      else
        var extra := SummaryFrom([], dbs.es, 0);
        if extra == [] then None else Some(extra)
  }

  /** Entry e of the summary is field f of database j, under its upper-cased name. */
  predicate FromDb(e: (string, Val), dbs: Entries, j: int, f: int) {
    0 <= j < |dbs| && Qualifies(dbs[j]) && 0 <= f < |FIELDS| &&
    e.0 == Prefix(dbs[j].0) + FIELDS[f].0 && e.1 == FieldOrDash(dbs[j].1.es, FIELDS[f].1)
  }

  /** An entry the field assignments add is one of the fields from f on. */
  lemma {:induction false} FieldsSound(extra: Entries, p: string, db: Entries, f: nat, e: (string, Val)) returns (g: nat)
    requires f <= |FIELDS| && e in Fields(extra, p, db, f)
    ensures e !in extra ==> f <= g < |FIELDS| && e == (p + FIELDS[g].0, FieldOrDash(db, FIELDS[g].1))
    decreases |FIELDS| - f
  {
    g := f;
    if f < |FIELDS| {
      var next := Put(extra, p + FIELDS[f].0, FieldOrDash(db, FIELDS[f].1));
      var g' := FieldsSound(next, p, db, f + 1, e);
      if e !in next {
        g := g';
      } else if e !in extra {
        PutMember(extra, p + FIELDS[f].0, FieldOrDash(db, FIELDS[f].1), e);
      }
    }
  }

  /** An entry a Summary adds is one of its four fields. */
  lemma SummarySound(extra: Entries, name: string, db: Entries, e: (string, Val)) returns (f: nat)
    requires e in Summary(extra, name, db)
    ensures e !in extra ==> f < |FIELDS| && e == (Prefix(name) + FIELDS[f].0, FieldOrDash(db, FIELDS[f].1))
  {
    f := FieldsSound(extra, Prefix(name), db, 0, e);
  }

  /** Every entry the loop adds comes from a contributing database: entry j's field f. */
  lemma {:induction false} SummaryFromSound(extra: Entries, dbs: Entries, i: nat, e: (string, Val)) returns (j: nat, f: nat)
    requires i <= |dbs| && e in SummaryFrom(extra, dbs, i)
    ensures e !in extra ==> i <= j && FromDb(e, dbs, j, f)
    decreases |dbs| - i
  {
    j, f := i, 0;
    if i < |dbs| {
      var next := Round(extra, dbs[i]);
      var j', f' := SummaryFromSound(next, dbs, i + 1, e);
      if e in next {
        if e !in extra {
          f := SummarySound(extra, dbs[i].0, dbs[i].1.es, e);
        }
      } else {
        j, f := j', f';
      }
    }
  }

  /** The field assignments keep every key already written. */
  lemma {:induction false} FieldsKeep(extra: Entries, p: string, db: Entries, f: nat, key: string)
    requires f <= |FIELDS| && Lookup(extra, key).Some?
    ensures Lookup(Fields(extra, p, db, f), key).Some?
    decreases |FIELDS| - f
  {
    if f < |FIELDS| {
      FieldsKeep(Put(extra, p + FIELDS[f].0, FieldOrDash(db, FIELDS[f].1)), p, db, f + 1, key);
    }
  }

  /** The field assignments from f on write every one of those keys. */
  lemma {:induction false} FieldsWrite(extra: Entries, p: string, db: Entries, f: nat, g: nat)
    requires f <= g < |FIELDS|
    ensures Lookup(Fields(extra, p, db, f), p + FIELDS[g].0).Some?
    decreases |FIELDS| - f
  {
    var next := Put(extra, p + FIELDS[f].0, FieldOrDash(db, FIELDS[f].1));
    if f < g {
      FieldsWrite(next, p, db, f + 1, g);
    } else {
      FieldsKeep(next, p, db, f + 1, p + FIELDS[g].0);
    }
  }

  /** A summary keeps every key already written. */
  lemma SummaryKeeps(extra: Entries, name: string, db: Entries, key: string)
    requires Lookup(extra, key).Some?
    ensures Lookup(Summary(extra, name, db), key).Some?
  {
    FieldsKeep(extra, Prefix(name), db, 0, key);
  }

  /** A summary writes all four keys of its database. */
  lemma SummaryWrites(extra: Entries, name: string, db: Entries, f: nat)
    requires f < |FIELDS|
    ensures Lookup(Summary(extra, name, db), Prefix(name) + FIELDS[f].0).Some?
  {
    FieldsWrite(extra, Prefix(name), db, 0, f);
  }

  lemma {:induction false} SummaryFromKeeps(extra: Entries, dbs: Entries, i: nat, key: string)
    requires i <= |dbs| && Lookup(extra, key).Some?
    ensures Lookup(SummaryFrom(extra, dbs, i), key).Some?
    decreases |dbs| - i
  {
    if i < |dbs| {
      if Qualifies(dbs[i]) {
        SummaryKeeps(extra, dbs[i].0, dbs[i].1.es, key);
      }
      SummaryFromKeeps(Round(extra, dbs[i]), dbs, i + 1, key);
    }
  }

  /** Every contributing database j from i on gets all four keys. */
  lemma {:induction false} SummaryFromComplete(extra: Entries, dbs: Entries, i: nat, j: nat, f: nat)
    requires i <= j < |dbs| && Qualifies(dbs[j]) && f < |FIELDS|
    ensures Lookup(SummaryFrom(extra, dbs, i), Prefix(dbs[j].0) + FIELDS[f].0).Some?
    decreases |dbs| - i
  {
    var next := Round(extra, dbs[i]);
    if i < j {
      SummaryFromComplete(next, dbs, i + 1, j, f);
    } else {
      SummaryWrites(extra, dbs[i].0, dbs[i].1.es, f);
      SummaryFromKeeps(next, dbs, i + 1, Prefix(dbs[j].0) + FIELDS[f].0);
    }
  }

  /** With no contributing database the loop writes nothing. */
  lemma {:induction false} SummaryFromNothing(extra: Entries, dbs: Entries, i: nat)
    requires i <= |dbs| && forall j :: i <= j < |dbs| ==> !Qualifies(dbs[j])
    ensures SummaryFrom(extra, dbs, i) == extra
    decreases |dbs| - i
  {
    if i < |dbs| {
      SummaryFromNothing(extra, dbs, i + 1);
    }
  }

  /**
   * The summary is null exactly when `databases` is missing, not an array,
   * or holds no array entry other than 'default'.
   */
  lemma ExtraNoneIff(config: Entries)
    ensures SafeExtraDatabases(config).None? <==>
      (Lookup(config, "databases").None? || !Lookup(config, "databases").value.Arr? ||
       forall j :: 0 <= j < |Lookup(config, "databases").value.es| ==> !Qualifies(Lookup(config, "databases").value.es[j]))
  {
    var v := Lookup(config, "databases");
    if v.Some? && v.value.Arr? {
      var dbs := v.value.es;
      if forall j :: 0 <= j < |dbs| ==> !Qualifies(dbs[j]) {
        SummaryFromNothing([], dbs, 0);
      } else {
        var j :| 0 <= j < |dbs| && Qualifies(dbs[j]);
        SummaryFromComplete([], dbs, 0, j, 0);
      }
    }
  }

  /**
   * Each entry of the summary is the type, host, name or log field (or '-')
   * of a contributing database, under that database's upper-cased name: no
   * other field, so neither 'user' nor 'password', is ever copied.
   */
  lemma ExtraSound(config: Entries, e: (string, Val)) returns (j: nat, f: nat)
    requires SafeExtraDatabases(config).Some? && e in SafeExtraDatabases(config).value
    ensures FromDb(e, Lookup(config, "databases").value.es, j, f)
    ensures FIELDS[f].1 != "user" && FIELDS[f].1 != "password"
  {
    var dbs := Lookup(config, "databases").value.es;
    j, f := SummaryFromSound([], dbs, 0, e);
  }

  /** Every contributing database has its four keys in the summary. */
  lemma ExtraComplete(config: Entries, j: nat, f: nat)
    requires Lookup(config, "databases").Some? && Lookup(config, "databases").value.Arr?
    requires j < |Lookup(config, "databases").value.es| && Qualifies(Lookup(config, "databases").value.es[j])
    requires f < |FIELDS|
    ensures SafeExtraDatabases(config).Some?
    ensures Lookup(SafeExtraDatabases(config).value, Prefix(Lookup(config, "databases").value.es[j].0) + FIELDS[f].0).Some?
  {
    var dbs := Lookup(config, "databases").value.es;
    SummaryFromComplete([], dbs, 0, j, f);
  }

  // ---------------------------------------------------------------
  // htmlspecialchars($s, ENT_QUOTES, 'UTF-8')
  // ---------------------------------------------------------------

  function EscapeChar(c: char): string {
    if c == '&' then "&amp;"
    else if c == '"' then "&quot;"
    else if c == '\'' then "&#039;"
    else if c == '<' then "&lt;"
    else if c == '>' then "&gt;"
    else [c]
  }

  /** The five special characters, each replaced by its entity. */
  function Escape(s: string): (r: string)
    ensures '<' !in r && '>' !in r && '"' !in r && '\'' !in r
  {
    if |s| == 0 then "" else EscapeChar(s[0]) + Escape(s[1..])
  }

  /**
   * htmlspecialchars with ENT_QUOTES and no ENT_SUBSTITUTE: a text that is
   * not valid UTF-8 gives the empty string. Validity is a parameter.
   */
  function HtmlSpecialChars(s: string, utf8: string -> bool): string {
    if utf8(s) then Escape(s) else ""
  }

  /** Reads the five entities back; any other text is kept. */
  function Unescape(r: string): string
    decreases |r|
  {
    if |r| >= 5 && r[..5] == "&amp;" then "&" + Unescape(r[5..])
    else if |r| >= 6 && r[..6] == "&quot;" then "\"" + Unescape(r[6..])
    else if |r| >= 6 && r[..6] == "&#039;" then "'" + Unescape(r[6..])
    else if |r| >= 4 && r[..4] == "&lt;" then "<" + Unescape(r[4..])
    else if |r| >= 4 && r[..4] == "&gt;" then ">" + Unescape(r[4..])
    else if |r| == 0 then ""
    else [r[0]] + Unescape(r[1..])
  }

  lemma EscapeCons(s: string)
    requires |s| > 0
    ensures Escape(s) == EscapeChar(s[0]) + Escape(s[1..])
  {
  }

  /** Text not starting with '&' is copied one character at a time. */
  lemma UnescapePlain(r: string)
    requires |r| > 0 && r[0] != '&'
    ensures Unescape(r) == [r[0]] + Unescape(r[1..])
  {
    if |r| >= 4 {
      assert r[..4][0] == r[0];
    }
    if |r| >= 5 {
      assert r[..5][0] == r[0];
    }
    if |r| >= 6 {
      assert r[..6][0] == r[0];
    }
  }

  /** One escaped character reads back as itself, ahead of whatever follows. */
  lemma UnescapeStep(c: char, rest: string)
    ensures Unescape(EscapeChar(c) + rest) == [c] + Unescape(rest)
  {
    var x := EscapeChar(c) + rest;
    var n := |EscapeChar(c)|;
    assert x[..n] == EscapeChar(c) && x[n..] == rest;
    if c == '"' || c == '\'' {
      assert x[..5][1] != 'a';
    } else if c == '<' || c == '>' {
      if |x| >= 5 {
        assert x[..5][1] != 'a';
      }
      if |x| >= 6 {
        assert x[..6][1] != 'q' && x[..6][1] != '#';
      }
    } else if c != '&' {
      assert x == [c] + rest;
      assert x[0] == c && x[1..] == rest;
      UnescapePlain(x);
    }
  }

  /** The escaped text decodes back to the original. */
  lemma {:induction false} UnescapeEscape(s: string)
    ensures Unescape(Escape(s)) == s
  {
    if |s| > 0 {
      EscapeCons(s);
      UnescapeStep(s[0], Escape(s[1..]));
      UnescapeEscape(s[1..]);
      assert s == [s[0]] + s[1..];
    }
  }

  // ---------------------------------------------------------------
  // nexi_render_error, nexi_http_response, nexi_render_error_safe
  // ---------------------------------------------------------------

  /** Where the request ends: a template of system/http_code/, or an echoed page. */
  datatype Page =
    | DebugPage
    | CodePage(code: int)
    | FallbackPage
    | Inline(html: string)

  /** The response an error ends the request with. */
  datatype Rendered = Rendered(status: int, page: Page, ctx: Ctx.Store)

  /**
   * What the renderers read from outside: the array `require config.php`
   * returns, the Config store (what `Config::get` reads, filled by the last
   * `Config::load`), which files exist in system/http_code/, the request
   * host and URI, the backtrace a missing trace stands for, and whether a
   * text is valid UTF-8.
   */
  datatype Site = Site(
    configFile: Entries,
    store: Entries,
    present: string -> bool,
    host: string,
    uri: string,
    backtrace: Val,
    utf8: string -> bool)

  /** `$config['debug'] ?? 'mute'` is 'display'. */
  predicate Display(config: Entries) {
    match Lookup(config, "debug")
    case None => false
    case Some(v) => v == S("display")
  }

  function CodeFile(code: int): string {
    IntToString(code) + ".php"
  }

  /** The keys nexi_render_error stores, in order. */
  function DebugEntries(code: int, title: string, message: string, file: string, line: int, trace: Val, route: Val): seq<(string, Val)> {
    [("debug.http_code", Leaf(Int(code))), ("debug.title", S(title)), ("debug.message", S(message)),
     ("debug.file", S(file)), ("debug.line", Leaf(Int(line))), ("debug.trace", trace), ("debug.route", route)]
  }

  /** The page echoed when no template exists. */
  function InlineError(code: int, message: string, utf8: string -> bool): string {
    "<h1>Errore " + IntToString(code) + "</h1><p>" + HtmlSpecialChars(message, utf8) + "</p>"
  }

  /**
   * The template nexi_render_error includes: debug.php in display mode when
   * it exists, else {code}.php, else fallback.php, else the inline page.
   */
  function ErrorPage(code: int, message: string, s: Site): Page {
    if Display(s.configFile) && s.present("debug.php") then DebugPage
    else if s.present(CodeFile(code)) then CodePage(code)
    else if s.present("fallback.php") then FallbackPage
    else Inline(InlineError(code, message, s.utf8))
  }

  /**
   * nexi_render_error: the status, the debug data and label in ctx, then
   * the page. Missing file, line and trace take the request URL, 0 and the
   * current backtrace.
   */
  function RenderError(title: string, message: string, code: int, file: Option<string>, line: Option<int>,
                       trace: Option<string>, route: Option<string>, s: Site, c: Ctx.Store): (r: Rendered)
    ensures r.status == code
  {
    var f := file.GetOr(s.host + s.uri);
    var ln := line.GetOr(0);
    var tr := if trace.Some? then S(trace.value) else s.backtrace;
    var rt := if route.Some? then S(route.value) else NULL;
    var c1 := Ctx.SetAll(c, DebugEntries(code, title, message, f, ln, tr, rt));
    var labelled := HttpCodeLabel(code, c1);
    Rendered(code, ErrorPage(code, message, s), labelled.1)
  }

  /** nexi_http_response: {code}.php, else fallback.php with ctx 'response.http_code', else a bare page. */
  function HttpResponse(code: int, s: Site, c: Ctx.Store): (r: Rendered)
    ensures r.status == code
  {
    if s.present(CodeFile(code)) then Rendered(code, CodePage(code), c)
    else if s.present("fallback.php") then Rendered(code, FallbackPage, Ctx.Set(c, "response.http_code", Leaf(Int(code))))
    else Rendered(code, Inline("<h1>HTTP " + IntToString(code) + "</h1>"), c)
  }

  /** nexi_render_error_safe: a full render unless Config::get('debug') is 'mute'. */
  function RenderErrorSafe(title: string, message: string, code: int, s: Site, c: Ctx.Store): (r: Rendered)
    ensures r.status == code
  {
    if ConfigStore.Get(s.store, "debug", NULL) != S("mute") then
      RenderError(title, message, code, None, None, None, None, s, c)
    else HttpResponse(code, s, c)
  }

  /** How a halted request is rendered: through the safe renderer or the full one. */
  function RenderHalt(h: Halt, s: Site, c: Ctx.Store): Rendered {
    if h.safe then RenderErrorSafe(h.title, h.message, h.code, s, c)
    else RenderError(h.title, h.message, h.code, None, None, None, None, s, c)
  }

  /** Whatever the route, a halt is answered with its own status code. */
  lemma HaltStatus(h: Halt, s: Site, c: Ctx.Store)
    ensures RenderHalt(h, s, c).status == h.code
  {
  }

  lemma SetAllRead(c: Ctx.Store, ws: seq<(string, Val)>, i: nat, d: Val)
    requires i < |ws| && forall k :: i < k < |ws| ==> ws[k].0 != ws[i].0
    ensures Ctx.Get(Ctx.SetAll(c, ws), ws[i].0, d) == if ws[i].1.IsNull() then d else ws[i].1
  {
    Ctx.SetAllLast(c, ws, i);
  }

  /**
   * After nexi_render_error the ctx holds the error's code, title, message,
   * file, line, trace, route and label under 'debug.*'; the route is stored
   * even when it is null, and then reads as absent.
   */
  lemma RenderErrorStores(title: string, message: string, code: int, file: Option<string>, line: Option<int>,
                          trace: Option<string>, route: Option<string>, s: Site, c: Ctx.Store, d: Val)
    ensures var r := RenderError(title, message, code, file, line, trace, route, s, c);
      Ctx.Get(r.ctx, "debug.http_code", d) == Leaf(Int(code)) &&
      Ctx.Get(r.ctx, "debug.title", d) == S(title) &&
      Ctx.Get(r.ctx, "debug.message", d) == S(message) &&
      Ctx.Get(r.ctx, "debug.file", d) == S(file.GetOr(s.host + s.uri)) &&
      Ctx.Get(r.ctx, "debug.line", d) == Leaf(Int(line.GetOr(0))) &&
      Ctx.Get(r.ctx, "debug.trace", d) == (if trace.Some? then S(trace.value) else if s.backtrace.IsNull() then d else s.backtrace) &&
      Ctx.Has(r.ctx, "debug.route") &&
      Ctx.Get(r.ctx, "debug.route", d) == (if route.Some? then S(route.value) else d) &&
      Ctx.Get(r.ctx, LABEL_KEY, d) == S(Label(code))
  {
    var f := file.GetOr(s.host + s.uri);
    var ln := line.GetOr(0);
    var tr := if trace.Some? then S(trace.value) else s.backtrace;
    var rt := if route.Some? then S(route.value) else NULL;
    var ws := DebugEntries(code, title, message, f, ln, tr, rt);
    var c1 := Ctx.SetAll(c, ws);
    DebugReads(c, ws, code, title, message, f, ln, tr, rt, d);
  }

  lemma DebugReads(c: Ctx.Store, ws: seq<(string, Val)>, code: int, title: string, message: string, f: string, ln: int,
                   tr: Val, rt: Val, d: Val)
    requires ws == DebugEntries(code, title, message, f, ln, tr, rt)
    ensures Ctx.Get(Ctx.SetAll(c, ws), "debug.http_code", d) == Leaf(Int(code))
    ensures Ctx.Get(Ctx.SetAll(c, ws), "debug.title", d) == S(title)
    ensures Ctx.Get(Ctx.SetAll(c, ws), "debug.message", d) == S(message)
    ensures Ctx.Get(Ctx.SetAll(c, ws), "debug.file", d) == S(f)
    ensures Ctx.Get(Ctx.SetAll(c, ws), "debug.line", d) == Leaf(Int(ln))
    ensures Ctx.Get(Ctx.SetAll(c, ws), "debug.trace", d) == if tr.IsNull() then d else tr
    ensures Ctx.Has(Ctx.SetAll(c, ws), "debug.route")
    ensures Ctx.Get(Ctx.SetAll(c, ws), "debug.route", d) == if rt.IsNull() then d else rt
  {
    SetAllRead(c, ws, 0, d);
    SetAllRead(c, ws, 1, d);
    SetAllRead(c, ws, 2, d);
    SetAllRead(c, ws, 3, d);
    SetAllRead(c, ws, 4, d);
    SetAllRead(c, ws, 5, d);
    SetAllRead(c, ws, 6, d);
    assert ws[6].0 == "debug.route";
  }

  /** The debug template is used exactly in display mode with debug.php present. */
  lemma DebugPageIff(title: string, message: string, code: int, s: Site, c: Ctx.Store)
    ensures RenderError(title, message, code, None, None, None, None, s, c).page == DebugPage <==>
      Display(s.configFile) && s.present("debug.php")
  {
  }

  /** The inline page appears only with no template at all, and shows the message escaped. */
  lemma InlineErrorPage(title: string, message: string, code: int, s: Site, c: Ctx.Store)
    ensures var p := RenderError(title, message, code, None, None, None, None, s, c).page;
      p.Inline? <==> !(Display(s.configFile) && s.present("debug.php")) && !s.present(CodeFile(code)) && !s.present("fallback.php")
    ensures var p := RenderError(title, message, code, None, None, None, None, s, c).page;
      p.Inline? && s.utf8(message) ==>
        exists esc :: p.html == "<h1>Errore " + IntToString(code) + "</h1><p>" + esc + "</p>" &&
          '<' !in esc && Unescape(esc) == message
  {
    var p := RenderError(title, message, code, None, None, None, None, s, c).page;
    if p.Inline? && s.utf8(message) {
      var esc := Escape(message);
      UnescapeEscape(message);
      assert p.html == "<h1>Errore " + IntToString(code) + "</h1><p>" + esc + "</p>";
    }
  }

  /**
   * In 'mute' mode the safe renderer only sends the HTTP page: no debug data
   * is stored, and ctx changes at most in 'response.http_code'.
   */
  lemma SafeMuteIsBare(title: string, message: string, code: int, s: Site, c: Ctx.Store)
    requires ConfigStore.Get(s.store, "debug", NULL) == S("mute")
    ensures RenderErrorSafe(title, message, code, s, c) == HttpResponse(code, s, c)
    ensures forall k, d :: k != "response.http_code" ==>
      Ctx.Get(RenderErrorSafe(title, message, code, s, c).ctx, k, d) == Ctx.Get(c, k, d)
  {
  }

  /** Otherwise the safe renderer stores the debug data like the full one. */
  lemma SafeOtherwiseFull(title: string, message: string, code: int, s: Site, c: Ctx.Store)
    requires ConfigStore.Get(s.store, "debug", NULL) != S("mute")
    ensures RenderErrorSafe(title, message, code, s, c) == RenderError(title, message, code, None, None, None, None, s, c)
    ensures Ctx.Get(RenderErrorSafe(title, message, code, s, c).ctx, "debug.message", NULL) == S(message)
  {
    RenderErrorStores(title, message, code, None, None, None, None, s, c, NULL);
  }

  /** nexi_http_response sets 'response.http_code' exactly when it falls back to fallback.php. */
  lemma HttpResponseFallback(code: int, s: Site, c: Ctx.Store)
    requires !Ctx.Has(c, "response.http_code")
    ensures var r := HttpResponse(code, s, c);
      (r.page == FallbackPage <==> Ctx.Has(r.ctx, "response.http_code")) &&
      (r.page == FallbackPage ==> Ctx.Get(r.ctx, "response.http_code", NULL) == Leaf(Int(code)))
    ensures HttpResponse(code, s, c).page == CodePage(code) <==> s.present(CodeFile(code))
  {
  }
}
