/**
 * nexi_load_routes_from_map: validates the declarative route map
 * (alias => [route, target, method?, required?]), normalises each entry,
 * compiles its route into the fragment list of an anchored regex, and
 * decides whether the cache on disk can be used instead.
 *
 * The first bad declaration calls nexi_render_error, which exits: the
 * whole run halts there, later entries are never looked at and no cache
 * is written.
 */
module RouteCompiler {
  import opened Base
  import opened Text
  import opened Php
  import opened Pcre

  // ---------------------------------------------------------------
  // Aliases and segments
  // ---------------------------------------------------------------

  /** `^@[a-zA-Z0-9_]+$`, where `$` also accepts a final "\n". */
  predicate ValidAlias(a: string) {
    |a| >= 1 && a[0] == '@' && NameRun(a, 1) >= 1 && DollarAt(a, 1 + NameRun(a, 1))
  }

  /** What one '/'-separated piece of the route becomes. */
  datatype Segment =
    | WildSeg                            // "*"
    | Typed(name: string, typ: string)   // ":name(type)"
    | Plain(name: string)                // ":name"
    | Literal(text: string)              // anything else

  /**
   * The compiler's tests in order: `=== '*'`, then
   * `^:([a-zA-Z0-9_]+)\(([^)]+)\)$`, then `^:([a-zA-Z0-9_]+)$`.
   */
  function Classify(seg: string): Segment {
    if seg == "*" then WildSeg
    else if |seg| >= 2 && seg[0] == ':' && NameRun(seg, 1) >= 1 then
      var p := 1 + NameRun(seg, 1);
      var name := seg[1..p];
      if p < |seg| && seg[p] == '(' && Run(seg, p + 1, ')') >= 1
         && p + 1 + Run(seg, p + 1, ')') < |seg|
         && DollarAt(seg, p + 2 + Run(seg, p + 1, ')'))
      then Typed(name, seg[p + 1..p + 1 + Run(seg, p + 1, ')')])
      else if DollarAt(seg, p) then Plain(name)
      else Literal(seg)
    else Literal(seg)
  }

  /** Reference reading of the two placeholder regexes. */
  predicate IsName(n: string) {
    |n| >= 1 && forall i :: 0 <= i < |n| ==> NameChar(n[i])
  }

  predicate IsTypedText(seg: string, n: string, t: string) {
    IsName(n) && |t| >= 1 && ')' !in t
    && (seg == ":" + n + "(" + t + ")" || seg == ":" + n + "(" + t + ")" + "\n")
  }

  predicate IsPlainText(seg: string, n: string) {
    IsName(n) && (seg == ":" + n || seg == ":" + n + "\n")
  }

  lemma {:induction false} NameRunExact(s: string, i: nat, m: nat)
    requires i + m <= |s|
    requires forall k :: i <= k < i + m ==> NameChar(s[k])
    requires i + m == |s| || !NameChar(s[i + m])
    ensures NameRun(s, i) == m
    decreases m
  {
    if m > 0 {
      NameRunExact(s, i + 1, m - 1);
    }
  }

  lemma {:induction false} RunExact(s: string, j: nat, stop: char, m: nat)
    requires j + m <= |s|
    requires forall k :: j <= k < j + m ==> s[k] != stop
    requires j + m == |s| || s[j + m] == stop
    ensures Run(s, j, stop) == m
    decreases m
  {
    if m > 0 {
      RunExact(s, j + 1, stop, m - 1);
    }
  }

  /** Classify recognises exactly the typed placeholders. */
  lemma ClassifyTyped(seg: string, n: string, t: string)
    ensures Classify(seg) == Typed(n, t) <==> IsTypedText(seg, n, t)
  {
    if IsTypedText(seg, n, t) {
      ClassifyTypedComplete(seg, n, t);
    }
    if Classify(seg) == Typed(n, t) {
      ClassifyTypedSound(seg, n, t);
    }
  }

  lemma ClassifyTypedComplete(seg: string, n: string, t: string)
    requires IsTypedText(seg, n, t)
    ensures Classify(seg) == Typed(n, t)
  {
    if seg == ":" + n + "(" + t + ")" {
      TypedShape(seg, n, t, "");
    } else {
      TypedShape(seg, n, t, "\n");
    }
  }

  lemma TypedShape(seg: string, n: string, t: string, tail: string)
    requires IsName(n) && |t| >= 1 && ')' !in t && (tail == "" || tail == "\n")
    requires seg == ":" + n + "(" + t + ")" + tail
    ensures Classify(seg) == Typed(n, t)
  {
    var p := 1 + |n|;
    var q := p + 1 + |t|;
    assert |seg| == q + 1 + |tail|;
    assert seg[0] == ':' && seg[p] == '(' && seg[q] == ')';
    forall k | 1 <= k < p ensures NameChar(seg[k]) {
      assert seg[k] == n[k - 1];
    }
    NameRunExact(seg, 1, |n|);
    forall k | p + 1 <= k < q ensures seg[k] != ')' {
      assert seg[k] == t[k - p - 1];
    }
    RunExact(seg, p + 1, ')', |t|);
    assert seg[1..p] == n;
    assert seg[p + 1..q] == t;
    assert DollarAt(seg, q + 1);
    assert seg != "*";
  }

  lemma ClassifyTypedSound(seg: string, n: string, t: string)
    requires Classify(seg) == Typed(n, t)
    ensures IsTypedText(seg, n, t)
  {
    var p := 1 + NameRun(seg, 1);
    var q := p + 1 + Run(seg, p + 1, ')');
    assert seg[1..p] == n;
    assert seg[p + 1..q] == t;
    SliceAvoids(seg, p + 1, q, ')');
    if q + 1 == |seg| {
      assert seg == ":" + n + "(" + t + ")";
    } else {
      assert seg == ":" + n + "(" + t + ")" + "\n";
    }
  }

  /** ...and exactly the plain ones. */
  lemma ClassifyPlain(seg: string, n: string)
    ensures Classify(seg) == Plain(n) <==> IsPlainText(seg, n)
  {
    if IsPlainText(seg, n) {
      var p := 1 + |n|;
      forall k | 1 <= k < p ensures NameChar(seg[k]) {
        assert seg[k] == n[k - 1];
      }
      NameRunExact(seg, 1, |n|);
      assert seg[1..p] == n;
      assert seg != "*";
    }
    if Classify(seg) == Plain(n) {
      var p := 1 + NameRun(seg, 1);
      assert seg[1..p] == n;
      if p == |seg| {
        assert seg == ":" + n;
      } else {
        assert seg == ":" + n + "\n";
      }
    }
  }

  /** The segments of a trimmed route, classified. */
  function Kinds(segs: seq<string>): (ks: seq<Segment>)
    ensures |ks| == |segs|
    ensures forall i :: 0 <= i < |segs| ==> ks[i] == Classify(segs[i])
  {
    seq(|segs|, i requires 0 <= i < |segs| => Classify(segs[i]))
  }

  /** The fragment a segment compiles to; a placeholder is optional unless the route is required. */
  function FragOf(k: Segment, required: bool): (f: Frag)
    ensures f.Wild? <==> k.WildSeg?
    ensures f.Lit? <==> k.Literal?
    ensures k.Literal? ==> f.text == k.text
    ensures (k.Typed? || k.Plain?) ==> f.Captures() && f.GroupName() == k.name && (f.Req? <==> required)
  {
    match k
    case WildSeg => Wild
    case Typed(n, _) => if required then Req(n) else Opt(n)
    case Plain(n) => if required then Req(n) else Opt(n)
    case Literal(t) => Lit(t)
  }

  /** One fragment per segment, in order; `*` does not end the loop. */
  function CompileSegments(ks: seq<Segment>, required: bool): (fs: seq<Frag>)
    ensures |fs| == |ks|
    ensures forall i :: 0 <= i < |ks| ==> fs[i] == FragOf(ks[i], required)
  {
    seq(|ks|, i requires 0 <= i < |ks| => FragOf(ks[i], required))
  }

  /** `$types[$param] = $type` for each typed placeholder, in segment order. */
  function TypesOf(ks: seq<Segment>): seq<(string, string)>
    decreases |ks|
  {
    if |ks| == 0 then [] else TypesStep(TypesOf(ks[..|ks| - 1]), ks[|ks| - 1])
  }

  function TypesStep(t: seq<(string, string)>, k: Segment): (r: seq<(string, string)>)
    ensures forall n :: Lookup(r, n) == if k.Typed? && k.name == n then Some(k.typ) else Lookup(t, n)
  {
    if k.Typed? then Put(t, k.name, k.typ) else t
  }

  predicate TypedAt(ks: seq<Segment>, i: int, n: string) {
    0 <= i < |ks| && ks[i].Typed? && ks[i].name == n
  }

  /** `types` has a key exactly for the names of typed placeholders. */
  lemma {:induction false} TypesOfKeys(ks: seq<Segment>, n: string)
    ensures HasKey(TypesOf(ks), n) <==> exists i :: TypedAt(ks, i, n)
    decreases |ks|
  {
    if |ks| > 0 {
      var pre := ks[..|ks| - 1];
      TypesOfKeys(pre, n);
      assert forall i :: 0 <= i < |pre| ==> pre[i] == ks[i];
      if !TypedAt(ks, |ks| - 1, n) {
        assert Lookup(TypesOf(ks), n) == Lookup(TypesOf(pre), n);
        if exists i :: TypedAt(ks, i, n) {
          var i :| TypedAt(ks, i, n);
          assert TypedAt(pre, i, n);
        }
        if HasKey(TypesOf(pre), n) {
          var i :| TypedAt(pre, i, n);
          assert TypedAt(ks, i, n);
        }
      }
    }
  }

  /** A name given a type twice keeps the last type. */
  lemma {:induction false} TypesOfLast(ks: seq<Segment>, i: nat, n: string)
    requires TypedAt(ks, i, n)
    requires forall j :: i < j < |ks| ==> !TypedAt(ks, j, n)
    ensures Lookup(TypesOf(ks), n) == Some(ks[i].typ)
    decreases |ks|
  {
    var pre := ks[..|ks| - 1];
    if i < |ks| - 1 {
      assert pre[i] == ks[i];
      forall j | i < j < |pre| ensures !TypedAt(pre, j, n) {
        assert pre[j] == ks[j];
        assert !TypedAt(ks, j, n);
      }
      TypesOfLast(pre, i, n);
      assert !TypedAt(ks, |ks| - 1, n);
      assert Lookup(TypesOf(ks), n) == Lookup(TypesOf(pre), n);
    }
  }

  // ---------------------------------------------------------------
  // One declaration
  // ---------------------------------------------------------------

  /** A compiled record as written to the cache; `Pattern` gives its 'pattern' text. */
  datatype Record = Record(
    alias: string,
    frags: seq<Frag>,
    original: string,
    httpMethod: string,
    target: string,
    types: seq<(string, string)>,
    required: bool)

  function Pattern(r: Record): string {
    Render(r.frags)
  }

  /** A target that names a namespace (holds ':') or is absolute (starts with '/'). */
  predicate Qualified(t: string) {
    HasChar(t, ':') || StartsWith(t, "/")
  }

  /**
   * A target without a namespace and not absolute is an `app:` target:
   * the result is always qualified, a qualified target is kept, and any
   * other target survives as the result's tail.
   */
  function NormTarget(t: string): (r: string)
    ensures Qualified(r)
    ensures Qualified(t) ==> r == t
    ensures !Qualified(t) ==> r == "app:" + t
    ensures EndsWith(r, t)
  {
    if HasChar(t, ':') || StartsWith(t, "/") then t else "app:" + LTrimChar(t, '/')
  }

  const ALIAS_TITLE := "Alias non valido"
  const CONFIG_TITLE := "Configurazione mancante"
  const MISSING_TITLE := "File mancante"

  function BadAlias(a: string): Halt {
    Halt(500, ALIAS_TITLE, "Alias '" + a + "' non conforme.", false)
  }

  function BadConfig(a: string): Halt {
    Halt(500, CONFIG_TITLE, "Alias " + a + ": 'route' e 'target' sono obbligatori.", false)
  }

  /** The checks of one declaration, in the compiler's order. */
  predicate DeclOk(a: string, cfg: Val) {
    ValidAlias(a) && cfg.Arr? && !Empty(Field(cfg, "route")) && !Empty(Field(cfg, "target"))
  }

  function CompileDecl(a: string, cfg: Val): (r: Flow<Record>)
    ensures !ValidAlias(a) ==> r == Stopped(BadAlias(a))
    ensures ValidAlias(a) && !DeclOk(a, cfg) ==> r == Stopped(BadConfig(a))
  {
    if !ValidAlias(a) then Stopped(BadAlias(a))
    else if !DeclOk(a, cfg) then Stopped(BadConfig(a))
    else
      var route := StrOf(Field(cfg, "route"));
      var m := Field(cfg, "method");
      var verb := if m.IsNull() then Some("GET") else StrOf(m);
      var target := StrOf(Field(cfg, "target"));
      if route.None? then Stopped(ExceptionHalt("trim(): Argument #1 ($string) must be of type string, array given"))
      else if verb.None? then Stopped(ExceptionHalt("strtoupper(): Argument #1 ($string) must be of type string, array given"))
      else if target.None? then Stopped(ExceptionHalt("str_contains(): Argument #1 ($haystack) must be of type string, array given"))
      else
        var original := TrimChar(route.value, '/');
        var required := !Empty(Field(cfg, "required"));
        var ks := Kinds(Split(original, '/'));
        Done(Record(a, CompileSegments(ks, required), original, Upper(verb.value),
                    NormTarget(target.value), TypesOf(ks), required))
  }

  /** Normalising a target twice changes nothing. */
  lemma NormTargetIdempotent(t: string)
    ensures NormTarget(NormTarget(t)) == NormTarget(t)
  {
  }

  /** The normalisation every compiled record satisfies: its checks passed and its header fields. */
  lemma CompileDeclFields(a: string, cfg: Val)
    requires CompileDecl(a, cfg).Done?
    ensures var r := CompileDecl(a, cfg).value;
      && DeclOk(a, cfg)
      && r.alias == a
      && Some(r.original) == (match StrOf(Field(cfg, "route")) case Some(s) => Some(TrimChar(s, '/')) case None => None)
      && (Field(cfg, "method").IsNull() ==> r.httpMethod == "GET")
      && (Field(cfg, "method").IsString() ==> r.httpMethod == Upper(Field(cfg, "method").x.s))
      && (r.required <==> !Empty(Field(cfg, "required")))
  {
    var m := Field(cfg, "method");
    var verb := if m.IsNull() then Some("GET") else StrOf(m);
    assert verb.Some?;
    var original := TrimChar(StrOf(Field(cfg, "route")).value, '/');
    var required := !Empty(Field(cfg, "required"));
    var ks := Kinds(Split(original, '/'));
    assert CompileDecl(a, cfg) == Done(Record(a, CompileSegments(ks, required), original, Upper(verb.value),
                                              NormTarget(StrOf(Field(cfg, "target")).value), TypesOf(ks), required));
  }

  /**
   * Every compiled record is normalised: its alias is well formed, its
   * route has no leading or trailing '/', its method is upper case and its
   * target is qualified.
   */
  lemma RecordNormalised(a: string, cfg: Val)
    requires CompileDecl(a, cfg).Done?
    ensures var r := CompileDecl(a, cfg).value;
      && ValidAlias(r.alias)
      && (|r.original| > 0 ==> r.original[0] != '/' && r.original[|r.original| - 1] != '/')
      && Upper(r.httpMethod) == r.httpMethod
      && Qualified(r.target)
  {
    var r := CompileDecl(a, cfg).value;
    CompileDeclFields(a, cfg);
    var m := Field(cfg, "method");
    var verb := if m.IsNull() then "GET" else StrOf(m).value;
    assert r.httpMethod == Upper(verb);
    UpperIdempotent(verb);
  }

  /**
   * A fragment reads back its segment: the wildcard comes exactly from
   * '*', a literal keeps the segment's text, and a placeholder group names
   * the placeholder the segment spells, plain or typed, and is required
   * exactly when the route is.
   */
  lemma FragReadsBack(seg: string, required: bool)
    ensures FragOf(Classify(seg), required).Wild? <==> seg == "*"
    ensures FragOf(Classify(seg), required).Lit? ==> FragOf(Classify(seg), required).text == seg
    ensures var f := FragOf(Classify(seg), required);
      (f.Req? || f.Opt?) ==>
        (f.Req? <==> required) && (IsPlainText(seg, f.name) || exists t :: IsTypedText(seg, f.name, t))
    ensures forall n :: IsPlainText(seg, n) ==>
      FragOf(Classify(seg), required).Captures() && FragOf(Classify(seg), required).GroupName() == n
    ensures forall n, t :: IsTypedText(seg, n, t) ==>
      FragOf(Classify(seg), required).Captures() && FragOf(Classify(seg), required).GroupName() == n
  {
    var k := Classify(seg);
    if k.Typed? {
      ClassifyTyped(seg, k.name, k.typ);
    }
    if k.Plain? {
      ClassifyPlain(seg, k.name);
    }
    forall n | IsPlainText(seg, n) ensures k == Plain(n) {
      ClassifyPlain(seg, n);
    }
    forall n, t | IsTypedText(seg, n, t) ensures k == Typed(n, t) {
      ClassifyTyped(seg, n, t);
    }
  }

  /** A compiled record's pattern and types come from its own trimmed route, one fragment per segment. */
  lemma CompileDeclFrags(a: string, cfg: Val)
    requires CompileDecl(a, cfg).Done?
    ensures var r := CompileDecl(a, cfg).value;
      && |r.frags| == |Split(r.original, '/')|
      && (forall i :: 0 <= i < |r.frags| ==> r.frags[i] == FragOf(Classify(Split(r.original, '/')[i]), r.required))
      && r.types == TypesOf(Kinds(Split(r.original, '/')))
  {
  }

  /**
   * The route text can be read back from a compiled record: fragment i
   * comes from segment i of the trimmed route, as `FragReadsBack` says.
   */
  lemma RecordReadsBack(a: string, cfg: Val)
    requires CompileDecl(a, cfg).Done?
    ensures var r := CompileDecl(a, cfg).value;
      var segs := Split(r.original, '/');
      |r.frags| == |segs|
      && forall i :: 0 <= i < |segs| ==>
           (r.frags[i].Wild? <==> segs[i] == "*")
           && (r.frags[i].Lit? ==> r.frags[i].text == segs[i])
           && ((r.frags[i].Req? || r.frags[i].Opt?) ==>
                 (r.frags[i].Req? <==> r.required)
                 && (IsPlainText(segs[i], r.frags[i].name) || exists t :: IsTypedText(segs[i], r.frags[i].name, t)))
  {
    var r := CompileDecl(a, cfg).value;
    var segs := Split(r.original, '/');
    CompileDeclFrags(a, cfg);
    forall i | 0 <= i < |segs|
      ensures (r.frags[i].Wild? <==> segs[i] == "*")
           && (r.frags[i].Lit? ==> r.frags[i].text == segs[i])
           && ((r.frags[i].Req? || r.frags[i].Opt?) ==>
                 (r.frags[i].Req? <==> r.required)
                 && (IsPlainText(segs[i], r.frags[i].name) || exists t :: IsTypedText(segs[i], r.frags[i].name, t)))
    {
      FragReadsBack(segs[i], r.required);
    }
  }

  // ---------------------------------------------------------------
  // The whole map
  // ---------------------------------------------------------------

  /** Each declaration compiled on its own. */
  function Steps(raw: Entries): (fs: seq<Flow<Record>>)
    ensures |fs| == |raw|
    ensures forall i :: 0 <= i < |raw| ==> fs[i] == CompileDecl(raw[i].0, raw[i].1)
  {
    seq(|raw|, i requires 0 <= i < |raw| => CompileDecl(raw[i].0, raw[i].1))
  }

  /** The foreach over the raw map, stopping at the first bad entry. */
  function CompileAll(raw: Entries): Flow<seq<Record>> {
    Collect(Steps(raw))
  }

  /** Success means every declaration was good, with one record each, in declaration order. */
  lemma CompileAllInOrder(raw: Entries)
    ensures CompileAll(raw).Done? <==> forall i :: 0 <= i < |raw| ==> CompileDecl(raw[i].0, raw[i].1).Done?
    ensures CompileAll(raw).Done? ==> |CompileAll(raw).value| == |raw|
    ensures CompileAll(raw).Done? ==>
      forall i :: 0 <= i < |raw| ==> CompileDecl(raw[i].0, raw[i].1) == Done(CompileAll(raw).value[i])
  {
    CollectDone(Steps(raw));
  }

  /** The run halts with the first bad entry's page; what follows it does not matter. */
  lemma CompileAllStopsAtFirstBad(raw: Entries, i: nat)
    requires i < |raw| && CompileDecl(raw[i].0, raw[i].1).Stopped?
    requires forall j :: 0 <= j < i ==> CompileDecl(raw[j].0, raw[j].1).Done?
    ensures CompileAll(raw) == Stopped(CompileDecl(raw[i].0, raw[i].1).halt)
  {
    CollectFirstHalt(Steps(raw), i);
  }

  /** Replacing everything after the first bad entry changes nothing. */
  lemma IgnoresRestAfterBad(raw: Entries, i: nat, rest: Entries)
    requires i < |raw| && CompileDecl(raw[i].0, raw[i].1).Stopped?
    requires forall j :: 0 <= j < i ==> CompileDecl(raw[j].0, raw[j].1).Done?
    ensures CompileAll(raw[..i + 1] + rest) == CompileAll(raw)
  {
    var r2 := raw[..i + 1] + rest;
    assert forall j :: 0 <= j <= i ==> r2[j] == raw[j];
    CollectFirstHalt(Steps(raw), i);
    CollectFirstHalt(Steps(r2), i);
  }

  /** A malformed alias anywhere in the map stops the run with 'Alias non valido'. */
  lemma BadAliasHalts(raw: Entries, i: nat)
    requires i < |raw| && !ValidAlias(raw[i].0)
    ensures CompileAll(raw).Stopped? && CompileAll(raw).halt.code == 500
  {
    var fs := Steps(raw);
    var k :| 0 <= k <= i && fs[k].Stopped? && forall j :: 0 <= j < k ==> fs[j].Done? by {
      FirstStopped(fs, i);
    }
    CollectFirstHalt(fs, k);
    DeclHaltIs500(raw[k].0, raw[k].1);
  }

  lemma {:induction false} FirstStopped<T>(fs: seq<Flow<T>>, i: nat)
    requires i < |fs| && fs[i].Stopped?
    ensures exists k :: 0 <= k <= i && fs[k].Stopped? && forall j :: 0 <= j < k ==> fs[j].Done?
    decreases i
  {
    if !(forall j :: 0 <= j < i ==> fs[j].Done?) {
      var j :| 0 <= j < i && !fs[j].Done?;
      FirstStopped(fs, j);
    }
  }

  /** Every page the compiler can stop with is a 500. */
  lemma DeclHaltIs500(a: string, cfg: Val)
    ensures CompileDecl(a, cfg).Stopped? ==> CompileDecl(a, cfg).halt.code == 500
  {
  }

  // ---------------------------------------------------------------
  // The cache rule and the cache file
  // ---------------------------------------------------------------

  /** What the file system says; mtimes are seconds as filemtime returns them. */
  datatype Files = Files(mapExists: bool, mapMtime: int, cacheExists: bool, cacheMtime: int)

  predicate CacheFresh(f: Files) {
    f.cacheExists && f.cacheMtime >= f.mapMtime
  }

  /**
   * The cache file as a request may find it. file_put_contents truncates
   * and then writes, so a request in between finds the file cut short:
   * Blank when nothing of the statement is there yet (`require` gives 1),
   * Partial when the cut leaves `return [...]` unfinished, so that the
   * file does not parse.
   */
  datatype CacheFile = Absent | Complete(records: seq<Record>) | Blank | Partial

  /** What `require` of a cut-short cache throws. */
  const PARSE_ERROR := "syntax error, unexpected end of file"

  /** The TypeError of the `array` return type when `require` gives 1. */
  const NOT_ARRAY := "nexi_load_routes_map_cache(): Return value must be of type array, int returned"

  /** nexi_load_routes_map_cache: `file_exists ? require : []`, with an `array` return type. */
  function ReadCache(c: CacheFile): (r: Result<seq<Record>>)
    ensures c.Absent? ==> r == Ok([])
    ensures c.Complete? ==> r == Ok(c.records)
    ensures c.Blank? ==> r == Fault(NOT_ARRAY)
    ensures c.Partial? ==> r == Fault(PARSE_ERROR)
  {
    match c
    case Absent => Ok([])
    case Complete(rs) => Ok(rs)
    case Blank => Fault(NOT_ARRAY)
    case Partial => Fault(PARSE_ERROR)
  }

  /** What a run of the loader leaves behind. */
  datatype Load =
    | KeptCache                     // the cache was fresh: required and left as it was
    | Wrote(records: seq<Record>)   // everything recompiled and the cache overwritten

  /**
   * nexi_load_routes_from_map. A fresh cache is `require`d on the spot,
   * so a cache that does not parse throws there, before any dispatch.
   * `raw` is whatever `require` of the map file gives; the foreach over
   * it warns unless it is an array.
   */
  function LoadRoutes(f: Files, cache: CacheFile, raw: Val): (r: Flow<Load>)
    ensures !f.mapExists ==> r.Stopped? && r.halt.title == MISSING_TITLE
    ensures f.mapExists ==> (r == Done(KeptCache) <==> CacheFresh(f) && !cache.Partial?)
    ensures f.mapExists && CacheFresh(f) && cache.Partial? ==> r == Stopped(ExceptionHalt(PARSE_ERROR))
    ensures f.mapExists && !CacheFresh(f) && !raw.Arr? ==> r == Stopped(WarningHalt(FOREACH_NOT_ARRAY))
    ensures f.mapExists && !CacheFresh(f) && raw.Arr? && CompileAll(raw.es).Done? ==>
      r == Done(Wrote(CompileAll(raw.es).value))
    ensures f.mapExists && !CacheFresh(f) && raw.Arr? && CompileAll(raw.es).Stopped? ==>
      r == Stopped(CompileAll(raw.es).halt)
  {
    if !f.mapExists then Stopped(Halt(500, MISSING_TITLE, "Il file routes.map.php non esiste.", false))
    else if CacheFresh(f) then
      if cache.Partial? then Stopped(ExceptionHalt(PARSE_ERROR)) else Done(KeptCache)
    else if !raw.Arr? then Stopped(WarningHalt(FOREACH_NOT_ARRAY))
    else
      match CompileAll(raw.es)
      case Stopped(h) => Stopped(h)
      case Done(rs) => Done(Wrote(rs))
  }

  /** With a fresh cache the map is not even read: a broken map goes unnoticed. */
  lemma FreshCacheIgnoresMap(f: Files, cache: CacheFile, raw1: Val, raw2: Val)
    requires f.mapExists && CacheFresh(f)
    ensures LoadRoutes(f, cache, raw1) == LoadRoutes(f, cache, raw2)
  {
  }

  /** Whatever stops the loader, the page is a 500. */
  lemma LoadHaltIs500(f: Files, cache: CacheFile, raw: Val)
    ensures LoadRoutes(f, cache, raw).Stopped? ==> LoadRoutes(f, cache, raw).halt.code == 500
  {
    if f.mapExists && !CacheFresh(f) && raw.Arr? && CompileAll(raw.es).Stopped? {
      var es := raw.es;
      CompileAllInOrder(es);
      var fs := Steps(es);
      var i :| 0 <= i < |es| && fs[i].Stopped?;
      var k :| 0 <= k <= i && fs[k].Stopped? && forall j :: 0 <= j < k ==> fs[j].Done? by {
        FirstStopped(fs, i);
      }
      CollectFirstHalt(fs, k);
      DeclHaltIs500(es[k].0, es[k].1);
    }
  }

  /**
   * The truncation already gives the cache a new mtime, so a second
   * request sees the cut-short file as fresh: a partial one stops the
   * loader with a 500, an empty one is kept and fails when it is read.
   */
  lemma TornCacheLooksFresh(f: Files, raw: Val, now: int)
    requires f.mapExists && f.mapMtime <= now
    ensures var g := f.(cacheExists := true, cacheMtime := now);
      && LoadRoutes(g, Partial, raw) == Stopped(ExceptionHalt(PARSE_ERROR))
      && LoadRoutes(g, Blank, raw) == Done(KeptCache) && ReadCache(Blank).Fault?
  {
  }
}
