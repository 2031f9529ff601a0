/**
 * The `routes` CLI command: every alias of routes.map.php is compared with
 * its record in routes.cache.php, and the command exits with 1 when a file
 * is missing or malformed or some alias disagrees, with 0 otherwise. The
 * console text is not modelled; each alias's verdict is.
 */
module RoutesCheck {
  import opened Base
  import opened Text
  import opened Php
  import RouteCompiler

  const ROUTE := "route mismatch"
  const TARGET := "target mismatch"
  const REQUIRED := "required mismatch"
  const METHOD := "method mismatch"

  const ILLEGAL_OFFSET := "Illegal offset type"
  const STRPOS_TYPE := "strpos(): Argument #1 ($haystack) must be of type string"
  const KEY_EXISTS_TYPE := "array_key_exists(): Argument #2 ($array) must be of type array"

  /** How one map alias fared: no cache record, or the mismatches found. */
  datatype Verdict = Missing | Compared(errors: seq<string>)

  /** The run: stopped before any comparison, or one verdict per map alias in map order. */
  datatype Report = Aborted(reason: string) | Checked(verdicts: seq<(string, Verdict)>)

  predicate Failed(v: Verdict) {
    v.Missing? || v.errors != []
  }

  /** `$hasErrors`, raised by the first failing alias. */
  function HasErrors(vs: seq<(string, Verdict)>): bool {
    |vs| > 0 && (Failed(vs[0].1) || HasErrors(vs[1..]))
  }

  function ExitCode(r: Report): int {
    if r.Aborted? || HasErrors(r.verdicts) then 1 else 0
  }

  /** The exit code is 0 exactly when every alias was found and matched. */
  lemma {:induction false} HasErrorsIff(vs: seq<(string, Verdict)>)
    ensures !HasErrors(vs) <==> forall i :: 0 <= i < |vs| ==> vs[i].1 == Compared([])
  {
    if |vs| > 0 {
      HasErrorsIff(vs[1..]);
      assert forall i :: 1 <= i < |vs| ==> vs[1..][i - 1] == vs[i];
    }
  }

  lemma ExitCodeIff(r: Report)
    ensures ExitCode(r) == 0 <==> r.Checked? && forall i :: 0 <= i < |r.verdicts| ==> r.verdicts[i].1 == Compared([])
  {
    if r.Checked? {
      HasErrorsIff(r.verdicts);
    }
  }

  // ---------------------------------------------------------------
  // $cacheByAlias
  // ---------------------------------------------------------------

  /** The array key `$a[$v] = …` writes under; an array offset is a TypeError. */
  function OffsetKey(v: Val): (r: Option<string>)
    ensures r.None? <==> v.Arr?
    ensures v.IsString() ==> r == Some(v.x.s)
    ensures v == Leaf(Null) ==> r == Some("")
    ensures v == Leaf(Bool(false)) ==> r == Some("0")
    ensures v == Leaf(Bool(true)) ==> r == Some("1")
  {
    match v
    case Arr(_) => None
    case Leaf(x) =>
      match x
      case Null => Some("")
      case Bool(b) => Some(if b then "1" else "0")
      case Int(i) => Some(IntToString(i))
      case Str(s) => Some(s)
  }

  /** `isset($r['alias'])`: false for a non-array record and for a null alias. */
  predicate Indexed(r: Val) {
    !Field(r, "alias").IsNull()
  }

  /** Cache record j is indexed under key k. */
  predicate KeyAt(cache: Entries, j: int, k: string) {
    0 <= j < |cache| && Indexed(cache[j].1) && OffsetKey(Field(cache[j].1, "alias")) == Some(k)
  }

  /** The first loop from record i on: later records with the same alias replace earlier ones. */
  function IndexFrom(cache: Entries, i: nat, idx: Entries): Result<Entries>
    requires i <= |cache|
    decreases |cache| - i
  {
    if i == |cache| then Ok(idx)
    else if !Indexed(cache[i].1) then IndexFrom(cache, i + 1, idx)
    else
      match OffsetKey(Field(cache[i].1, "alias"))
      case None => Fault(ILLEGAL_OFFSET)
      case Some(k) => IndexFrom(cache, i + 1, Put(idx, k, cache[i].1))
  }

  /** Indexing fails exactly when some indexed record has an array as its alias. */
  lemma {:induction false} IndexFaultIff(cache: Entries, i: nat, idx: Entries)
    requires i <= |cache|
    ensures IndexFrom(cache, i, idx).Fault? <==>
      exists j :: i <= j < |cache| && Indexed(cache[j].1) && Field(cache[j].1, "alias").Arr?
    decreases |cache| - i
  {
    if i < |cache| {
      var a := Field(cache[i].1, "alias");
      if Indexed(cache[i].1) && a.Arr? {
        assert IndexFrom(cache, i, idx).Fault?;
      } else {
        var next := if Indexed(cache[i].1) then Put(idx, OffsetKey(a).value, cache[i].1) else idx;
        assert IndexFrom(cache, i, idx) == IndexFrom(cache, i + 1, next);
        IndexFaultIff(cache, i + 1, next);
      }
    }
  }

  /** A key no record from i on carries keeps its old entry. */
  lemma {:induction false} IndexUntouched(cache: Entries, i: nat, idx: Entries, k: string)
    requires i <= |cache| && IndexFrom(cache, i, idx).Ok?
    requires forall j :: i <= j < |cache| ==> !KeyAt(cache, j, k)
    ensures Lookup(IndexFrom(cache, i, idx).value, k) == Lookup(idx, k)
    decreases |cache| - i
  {
    if i < |cache| {
      assert !KeyAt(cache, i, k);
      if Indexed(cache[i].1) {
        IndexUntouched(cache, i + 1, Put(idx, OffsetKey(Field(cache[i].1, "alias")).value, cache[i].1), k);
      } else {
        IndexUntouched(cache, i + 1, idx, k);
      }
    }
  }

  /** The index holds, under each key, the last record carrying it. */
  lemma {:induction false} IndexLast(cache: Entries, i: nat, idx: Entries, j: nat, k: string)
    requires i <= j && KeyAt(cache, j, k) && IndexFrom(cache, i, idx).Ok?
    requires forall j' :: j < j' < |cache| ==> !KeyAt(cache, j', k)
    ensures Lookup(IndexFrom(cache, i, idx).value, k) == Some(cache[j].1)
    decreases |cache| - i
  {
    var next := if Indexed(cache[i].1)
      then Put(idx, OffsetKey(Field(cache[i].1, "alias")).value, cache[i].1) else idx;
    if i < j {
      IndexLast(cache, i + 1, next, j, k);
    } else {
      IndexUntouched(cache, i + 1, next, k);
    }
  }

  /** Every record the index holds was indexed, so it is a non-empty array. */
  lemma {:induction false} IndexValues(cache: Entries, i: nat, idx: Entries, k: string)
    requires i <= |cache| && IndexFrom(cache, i, idx).Ok?
    requires Lookup(idx, k).Some? ==> Indexed(Lookup(idx, k).value)
    ensures Lookup(IndexFrom(cache, i, idx).value, k).Some? ==> Indexed(Lookup(IndexFrom(cache, i, idx).value, k).value)
    decreases |cache| - i
  {
    if i < |cache| {
      if Indexed(cache[i].1) {
        IndexValues(cache, i + 1, Put(idx, OffsetKey(Field(cache[i].1, "alias")).value, cache[i].1), k);
      } else {
        IndexValues(cache, i + 1, idx, k);
      }
    }
  }

  lemma IndexedNotEmpty(r: Val)
    requires Indexed(r)
    ensures !Empty(r)
  {
  }

  // ---------------------------------------------------------------
  // One alias
  // ---------------------------------------------------------------

  function RouteErrors(m: Val, c: Val): seq<string> {
    if Field(m, "route") != Field(c, "original") then [ROUTE] else []
  }

  /** A namespaced map target must match exactly; a bare one may also match as 'app:' + target. */
  function TargetErrors(m: Val, c: Val): Result<seq<string>> {
    var mt := Field(m, "target");
    var ct := Field(c, "target");
    if mt.IsNull() then Ok([])
    else if !mt.IsString() then Fault(STRPOS_TYPE)
    else
      var ok := if HasChar(mt.x.s, ':') then mt == ct else mt == ct || S("app:" + mt.x.s) == ct;
      Ok(if ok then [] else [TARGET])
  }

  /** 'required' is compared only when the map declares it. */
  function RequiredErrors(m: Val, c: Val): Result<seq<string>> {
    if !m.Arr? || !c.Arr? then Fault(KEY_EXISTS_TYPE)
    else if !HasKey(m.es, "required") then Ok([])
    else if !HasKey(c.es, "required") || Field(m, "required") != Field(c, "required") then Ok([REQUIRED])
    else Ok([])
  }

  /** `(string)$v`; an array reads as 'Array'. */
  function CastText(v: Val): string {
    match StrOf(v)
    case Some(s) => s
    case None => "Array"
  }

  /** 'method' is compared only when declared, not null and not GET in any case. */
  function MethodErrors(m: Val, c: Val): seq<string>
    requires m.Arr? && c.Arr?
  {
    var mm := Field(m, "method");
    if !HasKey(m.es, "method") || mm.IsNull() || Upper(CastText(mm)) == "GET" then []
    else if !HasKey(c.es, "method") || mm != Field(c, "method") then [METHOD]
    else []
  }

  /** The four comparisons of one alias, in the command's order. */
  function Compare(m: Val, c: Val): Result<seq<string>> {
    match TargetErrors(m, c)
    case Fault(e) => Fault(e)
    case Ok(t) =>
      match RequiredErrors(m, c)
      case Fault(e) => Fault(e)
      case Ok(q) => Ok(RouteErrors(m, c) + t + q + MethodErrors(m, c))
  }

  /** Each mismatch is reported exactly when its comparison fails. */
  lemma CompareErrors(m: Val, c: Val)
    requires Compare(m, c).Ok?
    ensures var errs := Compare(m, c).value;
      && m.Arr? && c.Arr?
      && (ROUTE in errs <==> Field(m, "route") != Field(c, "original"))
      && (TARGET in errs <==>
            Field(m, "target").IsString() && Field(m, "target") != Field(c, "target") &&
            (HasChar(Field(m, "target").x.s, ':') || S("app:" + Field(m, "target").x.s) != Field(c, "target")))
      && (REQUIRED in errs <==>
            HasKey(m.es, "required") && (!HasKey(c.es, "required") || Field(m, "required") != Field(c, "required")))
      && (METHOD in errs <==>
            HasKey(m.es, "method") && !Field(m, "method").IsNull() && Upper(CastText(Field(m, "method"))) != "GET" &&
            (!HasKey(c.es, "method") || Field(m, "method") != Field(c, "method")))
  {
  }

  /** `$cacheByAlias[$alias] ?? null`, then `!$c`. */
  function VerdictOf(m: Val, idx: Entries, alias: string): Result<Verdict> {
    var c := Lookup(idx, alias).GetOr(NULL);
    if Empty(c) then Ok(Missing)
    else
      match Compare(m, c)
      case Fault(e) => Fault(e)
      case Ok(errs) => Ok(Compared(errs))
  }

  /** The second loop, from map entry i on; a TypeError ends the command. */
  function VerdictsFrom(map_: Entries, idx: Entries, i: nat): Result<seq<(string, Verdict)>>
    requires i <= |map_|
    decreases |map_| - i
  {
    if i == |map_| then Ok([])
    else
      match VerdictOf(map_[i].1, idx, map_[i].0)
      case Fault(e) => Fault(e)
      case Ok(v) =>
        match VerdictsFrom(map_, idx, i + 1)
        case Fault(e) => Fault(e)
        case Ok(vs) => Ok([(map_[i].0, v)] + vs)
  }

  /** Without a TypeError there is one verdict per map alias, in map order. */
  lemma {:induction false} VerdictsInOrder(map_: Entries, idx: Entries, i: nat)
    requires i <= |map_| && VerdictsFrom(map_, idx, i).Ok?
    ensures |VerdictsFrom(map_, idx, i).value| == |map_| - i
    ensures forall j :: i <= j < |map_| ==>
      VerdictsFrom(map_, idx, i).value[j - i].0 == map_[j].0 &&
      VerdictOf(map_[j].1, idx, map_[j].0) == Ok(VerdictsFrom(map_, idx, i).value[j - i].1)
    decreases |map_| - i
  {
    if i < |map_| {
      VerdictsInOrder(map_, idx, i + 1);
    }
  }

  /** When every alias from i on matches, so does the loop. */
  lemma {:induction false} VerdictsAllMatch(map_: Entries, idx: Entries, i: nat)
    requires i <= |map_|
    requires forall j :: i <= j < |map_| ==> VerdictOf(map_[j].1, idx, map_[j].0) == Ok(Compared([]))
    ensures VerdictsFrom(map_, idx, i).Ok? && !HasErrors(VerdictsFrom(map_, idx, i).value)
    decreases |map_| - i
  {
    if i < |map_| {
      VerdictsAllMatch(map_, idx, i + 1);
      var vs := VerdictsFrom(map_, idx, i + 1).value;
      assert VerdictsFrom(map_, idx, i).value == [(map_[i].0, Compared([]))] + vs;
      assert ([(map_[i].0, Compared([]))] + vs)[1..] == vs;
    }
  }

  // ---------------------------------------------------------------
  // The command
  // ---------------------------------------------------------------

  /**
   * The command, given what `require` returned for each file (None when it
   * is not a file).
   */
  function Check(mapFile: Option<Val>, cacheFile: Option<Val>): (r: Result<Report>)
    ensures mapFile.None? ==> r == Ok(Aborted("routes.map.php not found"))
    ensures mapFile.Some? && cacheFile.None? ==> r == Ok(Aborted("routes.cache.php not found"))
    ensures mapFile.Some? && cacheFile.Some? && (!mapFile.value.Arr? || mapFile.value.es == []) ==>
      r == Ok(Aborted("routes.map.php empty or invalid"))
    ensures mapFile.Some? && cacheFile.Some? && mapFile.value.Arr? && mapFile.value.es != [] && !cacheFile.value.Arr? ==>
      r == Ok(Aborted("routes.cache.php invalid"))
    ensures r.Ok? && r.value.Checked? ==> mapFile.Some? && mapFile.value.Arr? && mapFile.value.es != []
  {
    if mapFile.None? then Ok(Aborted("routes.map.php not found"))
    else if cacheFile.None? then Ok(Aborted("routes.cache.php not found"))
    else
      var m := mapFile.value;
      var c := cacheFile.value;
      if !m.Arr? || Empty(m) then Ok(Aborted("routes.map.php empty or invalid"))
      else if !c.Arr? then Ok(Aborted("routes.cache.php invalid"))
      else
        match IndexFrom(c.es, 0, [])
        case Fault(e) => Fault(e)
        case Ok(idx) =>
          match VerdictsFrom(m.es, idx, 0)
          case Fault(e) => Fault(e)
          case Ok(vs) => Ok(Checked(vs))
  }

  /** An alias is reported missing exactly when no cache record carries it. */
  lemma MissingIff(m: Val, cache: Entries, alias: string)
    requires IndexFrom(cache, 0, []).Ok?
    ensures VerdictOf(m, IndexFrom(cache, 0, []).value, alias) == Ok(Missing) <==>
      forall j :: 0 <= j < |cache| ==> !KeyAt(cache, j, alias)
  {
    var idx := IndexFrom(cache, 0, []).value;
    IndexValues(cache, 0, [], alias);
    if forall j :: 0 <= j < |cache| ==> !KeyAt(cache, j, alias) {
      IndexUntouched(cache, 0, [], alias);
    } else {
      var j :| 0 <= j < |cache| && KeyAt(cache, j, alias);
      var last := LastKeyAt(cache, j, alias);
      IndexLast(cache, 0, [], last, alias);
      IndexedNotEmpty(cache[last].1);
    }
  }

  /** Some record carries the key last. */
  lemma {:induction false} LastKeyAt(cache: Entries, j: nat, k: string) returns (last: nat)
    requires KeyAt(cache, j, k)
    ensures j <= last && KeyAt(cache, last, k)
    ensures forall j' :: last < j' < |cache| ==> !KeyAt(cache, j', k)
    decreases |cache| - j
  {
    if exists j' :: j < j' < |cache| && KeyAt(cache, j', k) {
      var j' :| j < j' < |cache| && KeyAt(cache, j', k);
      last := LastKeyAt(cache, j', k);
    } else {
      last := j;
    }
  }

  // ---------------------------------------------------------------
  // Against the compiler
  // ---------------------------------------------------------------

  /** A compiled record as the route loader exports it to routes.cache.php. */
  function CacheEntry(r: RouteCompiler.Record): Val {
    Arr([("alias", S(r.alias)), ("pattern", S(RouteCompiler.Pattern(r))), ("original", S(r.original)),
         ("method", S(r.httpMethod)), ("target", S(r.target)),
         ("types", Arr(seq(|r.types|, i requires 0 <= i < |r.types| => (r.types[i].0, S(r.types[i].1))))),
         ("required", Leaf(Bool(r.required)))])
  }

  /** The exported list of records. */
  function CacheOf(recs: seq<RouteCompiler.Record>): (c: Entries)
    ensures |c| == |recs| && forall i :: 0 <= i < |recs| ==> c[i].1 == CacheEntry(recs[i])
  {
    ListOf(seq(|recs|, i requires 0 <= i < |recs| => CacheEntry(recs[i])))
  }

  lemma CacheEntryFields(r: RouteCompiler.Record)
    ensures var c := CacheEntry(r);
      && c.Arr? && HasKey(c.es, "required") && HasKey(c.es, "method")
      && Field(c, "alias") == S(r.alias) && Field(c, "original") == S(r.original)
      && Field(c, "method") == S(r.httpMethod) && Field(c, "target") == S(r.target)
      && Field(c, "required") == Leaf(Bool(r.required))
  {
    var es := CacheEntry(r).es;
    LookupFirst(es, 0);
    LookupFirst(es, 2);
    LookupFirst(es, 3);
    LookupFirst(es, 4);
    LookupFirst(es, 6);
  }

  /**
   * A declaration the compiler reproduces verbatim: a string route with no
   * surrounding '/', a string target, an upper-case method if any, and a
   * boolean 'required' if declared.
   */
  predicate Canonical(cfg: Val) {
    && cfg.Arr?
    && Field(cfg, "route").IsString() && TrimChar(Field(cfg, "route").x.s, '/') == Field(cfg, "route").x.s
    && Field(cfg, "target").IsString()
    && (Field(cfg, "method").IsNull() ||
        (Field(cfg, "method").IsString() && Upper(Field(cfg, "method").x.s) == Field(cfg, "method").x.s))
    && (HasKey(cfg.es, "required") ==> Field(cfg, "required").Leaf? && Field(cfg, "required").x.Bool?)
  }

  lemma TargetMatches(m: Val, c: Val, t: string)
    requires Field(m, "target") == S(t) && Field(c, "target") == S(RouteCompiler.NormTarget(t))
    ensures TargetErrors(m, c) == Ok([])
  {
  }

  lemma RequiredMatches(m: Val, c: Val, req: bool)
    requires m.Arr? && c.Arr? && HasKey(c.es, "required") && Field(c, "required") == Leaf(Bool(req))
    requires req <==> !Empty(Field(m, "required"))
    requires HasKey(m.es, "required") ==> Field(m, "required").Leaf? && Field(m, "required").x.Bool?
    ensures RequiredErrors(m, c) == Ok([])
  {
  }

  lemma MethodMatches(m: Val, c: Val, verb: string)
    requires m.Arr? && c.Arr? && HasKey(c.es, "method") && Field(c, "method") == S(verb)
    requires Field(m, "method").IsNull() ||
      (Field(m, "method").IsString() && Upper(Field(m, "method").x.s) == Field(m, "method").x.s &&
       verb == Upper(Field(m, "method").x.s))
    ensures MethodErrors(m, c) == []
  {
  }

  /** A canonical declaration matches its own compiled record. */
  lemma CanonicalMatches(a: string, cfg: Val)
    requires RouteCompiler.CompileDecl(a, cfg).Done? && Canonical(cfg)
    ensures Compare(cfg, CacheEntry(RouteCompiler.CompileDecl(a, cfg).value)) == Ok([])
  {
    var r := RouteCompiler.CompileDecl(a, cfg).value;
    var c := CacheEntry(r);
    RouteCompiler.CompileDeclFields(a, cfg);
    CacheEntryFields(r);
    TargetMatches(cfg, c, Field(cfg, "target").x.s);
    RequiredMatches(cfg, c, r.required);
    MethodMatches(cfg, c, r.httpMethod);
    assert RouteErrors(cfg, c) == [];
    assert TargetErrors(cfg, c) == Ok([]);
    assert RequiredErrors(cfg, c) == Ok([]);
    var none: seq<string> := [];
    assert none + none + none + none == none;
    assert Compare(cfg, c) == Ok(none);
  }

  /**
   * The cache the compiler writes for a map of canonical declarations with
   * distinct aliases passes the command with exit code 0.
   */
  lemma CompiledCachePasses(raw: Entries)
    requires |raw| > 0 && DistinctKeys(raw)
    requires RouteCompiler.CompileAll(raw).Done?
    requires forall i :: 0 <= i < |raw| ==> Canonical(raw[i].1)
    ensures var r := Check(Some(Arr(raw)), Some(Arr(CacheOf(RouteCompiler.CompileAll(raw).value))));
      r.Ok? && r.value.Checked? && ExitCode(r.value) == 0
  {
    var cache := CacheOf(RouteCompiler.CompileAll(raw).value);
    CacheKeys(raw);
    IndexFaultIff(cache, 0, []);
    var idx := IndexFrom(cache, 0, []).value;
    forall i | 0 <= i < |raw|
      ensures VerdictOf(raw[i].1, idx, raw[i].0) == Ok(Compared([]))
    {
      OwnRecord(raw, cache, i);
      CanonicalMatches(raw[i].0, raw[i].1);
      MatchedVerdict(raw[i].1, idx, raw[i].0, cache[i].1);
    }
    VerdictsAllMatch(raw, idx, 0);
  }

  /** The cache written from a compiled map holds record j under map alias j. */
  lemma CacheKeys(raw: Entries)
    requires RouteCompiler.CompileAll(raw).Done?
    ensures var cache := CacheOf(RouteCompiler.CompileAll(raw).value);
      && |cache| == |raw|
      && forall j :: 0 <= j < |raw| ==>
        && RouteCompiler.CompileDecl(raw[j].0, raw[j].1).Done?
        && cache[j].1 == CacheEntry(RouteCompiler.CompileDecl(raw[j].0, raw[j].1).value)
        && KeyAt(cache, j, raw[j].0)
  {
    var recs := RouteCompiler.CompileAll(raw).value;
    RouteCompiler.CompileAllInOrder(raw);
    forall j | 0 <= j < |raw|
      ensures KeyAt(CacheOf(recs), j, raw[j].0)
    {
      CacheEntryFields(recs[j]);
      RouteCompiler.CompileDeclFields(raw[j].0, raw[j].1);
    }
  }

  /** With distinct map aliases, the index holds record i under alias i. */
  lemma OwnRecord(raw: Entries, cache: Entries, i: nat)
    requires DistinctKeys(raw) && i < |raw| && |cache| == |raw|
    requires forall j :: 0 <= j < |raw| ==> KeyAt(cache, j, raw[j].0)
    requires IndexFrom(cache, 0, []).Ok?
    ensures Lookup(IndexFrom(cache, 0, []).value, raw[i].0) == Some(cache[i].1) && !Empty(cache[i].1)
  {
    OwnKeyLast(raw, cache, i);
    IndexLast(cache, 0, [], i, raw[i].0);
    IndexedNotEmpty(cache[i].1);
  }

  /** With distinct map aliases, no later cache record carries alias i. */
  lemma OwnKeyLast(raw: Entries, cache: Entries, i: nat)
    requires DistinctKeys(raw) && i < |raw| && |cache| == |raw|
    requires forall j :: 0 <= j < |raw| ==> KeyAt(cache, j, raw[j].0)
    ensures forall j' :: i < j' < |cache| ==> !KeyAt(cache, j', raw[i].0)
  {
    forall j' | i < j' < |cache|
      ensures !KeyAt(cache, j', raw[i].0)
    {
      assert KeyAt(cache, j', raw[j'].0);
    }
  }

  lemma MatchedVerdict(m: Val, idx: Entries, alias: string, c: Val)
    requires Lookup(idx, alias) == Some(c) && !Empty(c) && Compare(m, c) == Ok([])
    ensures VerdictOf(m, idx, alias) == Ok(Compared([]))
  {
  }

  /** A route written with a surrounding '/' is flagged against its own compiled record. */
  lemma SlashedRouteFlagged(a: string, cfg: Val)
    requires RouteCompiler.CompileDecl(a, cfg).Done?
    requires Field(cfg, "route").IsString() && TrimChar(Field(cfg, "route").x.s, '/') != Field(cfg, "route").x.s
    requires Compare(cfg, CacheEntry(RouteCompiler.CompileDecl(a, cfg).value)).Ok?
    ensures ROUTE in Compare(cfg, CacheEntry(RouteCompiler.CompileDecl(a, cfg).value)).value
  {
    var r := RouteCompiler.CompileDecl(a, cfg).value;
    RouteCompiler.CompileDeclFields(a, cfg);
    CacheEntryFields(r);
    CompareErrors(cfg, CacheEntry(r));
  }

  /** A method written in lower case (other than 'get') is flagged against its own compiled record. */
  lemma LowerMethodFlagged(a: string, cfg: Val)
    requires RouteCompiler.CompileDecl(a, cfg).Done?
    requires Field(cfg, "method").IsString()
    requires Upper(Field(cfg, "method").x.s) != Field(cfg, "method").x.s && Upper(Field(cfg, "method").x.s) != "GET"
    requires Compare(cfg, CacheEntry(RouteCompiler.CompileDecl(a, cfg).value)).Ok?
    ensures METHOD in Compare(cfg, CacheEntry(RouteCompiler.CompileDecl(a, cfg).value)).value
  {
    var r := RouteCompiler.CompileDecl(a, cfg).value;
    RouteCompiler.CompileDeclFields(a, cfg);
    CacheEntryFields(r);
    CompareErrors(cfg, CacheEntry(r));
    assert HasKey(cfg.es, "method");
  }
}
