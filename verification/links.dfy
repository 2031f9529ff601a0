/**
 * Link building and path aliases: rawurlencode, alias(), path_relative()
 * and _link().
 *
 * _link fills the placeholders of a route text with percent-encoded
 * values. The code does it with one `preg_replace(..., 1)` per
 * placeholder name, which replaces the first text that starts with
 * ':' + name, even when that is a longer placeholder. `FillAsWritten`
 * keeps that behaviour and `LinkAsWritten` is _link built on it; `Fill`
 * is the substitution token by token, and `Link`, which the rest of the
 * model uses, is _link built on that. They part where one placeholder
 * name is a prefix of a later one (`PrefixNameCounterexample`).
 */
module Links {
  import opened Base
  import opened Text
  import opened Php
  import opened Pcre
  import Ctx
  import opened RouteCompiler
  import opened RouteLookup

  // ---------------------------------------------------------------
  // rawurlencode (unreserved characters of section 2.3 of RFC 3986)
  // ---------------------------------------------------------------

  predicate Unreserved(c: char) {
    'A' <= c <= 'Z' || 'a' <= c <= 'z' || IsDigit(c) || c == '-' || c == '_' || c == '.' || c == '~'
  }

  function HexDigit(d: nat): (c: char)
    requires d < 16
    ensures Unreserved(c)
  {
    if d < 10 then DigitChar(d) else ('A' as int + d - 10) as char
  }

  predicate IsHex(c: char) {
    IsDigit(c) || 'A' <= c <= 'F' || 'a' <= c <= 'f'
  }

  function HexValue(c: char): nat
    requires IsHex(c)
  {
    if IsDigit(c) then c as int - '0' as int
    else if 'A' <= c <= 'F' then c as int - 'A' as int + 10
    else c as int - 'a' as int + 10
  }

  /** A byte as '%' and two upper-case hex digits. */
  function Escape(c: char): string {
    ['%', HexDigit((c as int / 16) % 16), HexDigit(c as int % 16)]
  }

  function RawUrlEncode(s: string): (r: string)
    ensures forall i :: 0 <= i < |r| ==> Unreserved(r[i]) || r[i] == '%'
    ensures (forall i :: 0 <= i < |s| ==> Unreserved(s[i])) ==> r == s
    ensures |r| >= |s|
  {
    if |s| == 0 then ""
    else (if Unreserved(s[0]) then [s[0]] else Escape(s[0])) + RawUrlEncode(s[1..])
  }

  /** Encoded text never holds a path separator or a placeholder colon. */
  lemma EncodedIsInert(s: string)
    ensures '/' !in RawUrlEncode(s) && ':' !in RawUrlEncode(s) && '?' !in RawUrlEncode(s)
  {
    var r := RawUrlEncode(s);
    forall i | 0 <= i < |r| ensures r[i] != '/' && r[i] != ':' && r[i] != '?' {
      assert Unreserved(r[i]) || r[i] == '%';
    }
  }

  /** rawurldecode, the partner of RawUrlEncode. */
  function RawUrlDecode(r: string): string
    decreases |r|
  {
    if |r| >= 3 && r[0] == '%' && IsHex(r[1]) && IsHex(r[2]) then
      [(HexValue(r[1]) * 16 + HexValue(r[2])) as char] + RawUrlDecode(r[3..])
    else if |r| == 0 then ""
    else [r[0]] + RawUrlDecode(r[1..])
  }

  predicate IsBytes(s: string) {
    forall i :: 0 <= i < |s| ==> s[i] as int < 256
  }

  lemma {:induction false} DecodeEncode(s: string)
    requires IsBytes(s)
    ensures RawUrlDecode(RawUrlEncode(s)) == s
  {
    if |s| > 0 {
      assert forall i :: 0 <= i < |s| - 1 ==> s[1..][i] == s[i + 1];
      DecodeEncode(s[1..]);
      EncodeCons(s);
      DecodeStep(s[0], RawUrlEncode(s[1..]));
      assert s == [s[0]] + s[1..];
    }
  }

  lemma EncodeCons(s: string)
    requires |s| > 0
    ensures RawUrlEncode(s) == (if Unreserved(s[0]) then [s[0]] else Escape(s[0])) + RawUrlEncode(s[1..])
  {
  }

  /** One encoded byte decodes back to itself, ahead of whatever follows. */
  lemma DecodeStep(c: char, rest: string)
    requires c as int < 256
    ensures RawUrlDecode((if Unreserved(c) then [c] else Escape(c)) + rest) == [c] + RawUrlDecode(rest)
  {
    if Unreserved(c) {
      var r := [c] + rest;
      assert r[0] == c && r[1..] == rest;
    } else {
      var e := Escape(c);
      var r := e + rest;
      assert r[0] == '%' && r[1] == e[1] && r[2] == e[2] && r[3..] == rest;
      var hi := (c as int / 16) % 16;
      var lo := c as int % 16;
      assert HexValue(e[1]) == hi && HexValue(e[2]) == lo;
      assert hi * 16 + lo == c as int;
    }
  }

  // ---------------------------------------------------------------
  // alias() and path_relative()
  // ---------------------------------------------------------------

  /** ctx 'alias.map': prefix => base directory, in insertion order. */
  type AliasMap = seq<(string, string)>

  /** The part of the key before its first '?'. */
  function StripQuery(key: string): (r: string)
    ensures |r| <= |key| && r == key[..|r|] && '?' !in r
    ensures |r| < |key| ==> key[|r|] == '?'
  {
    if |key| == 0 || key[0] == '?' then "" else [key[0]] + StripQuery(key[1..])
  }

  predicate PrefixAt(m: AliasMap, i: int, k: string) {
    0 <= i < |m| && StartsWith(k, m[i].0)
  }

  predicate FirstPrefixAt(m: AliasMap, i: int, k: string) {
    PrefixAt(m, i, k) && forall j :: 0 <= j < i ==> !PrefixAt(m, j, k)
  }

  /** The first prefix of the map the key starts with. */
  function FirstPrefix(m: AliasMap, k: string): (r: Option<nat>)
    ensures r.None? <==> forall i :: 0 <= i < |m| ==> !PrefixAt(m, i, k)
    ensures r.Some? ==> FirstPrefixAt(m, r.value, k)
  {
    if |m| == 0 then None
    else if StartsWith(k, m[0].0) then
      assert PrefixAt(m, 0, k);
      Some(0)
    else
      var r := FirstPrefix(m[1..], k);
      assert !PrefixAt(m, 0, k);
      assert forall i :: 1 <= i < |m| ==> (PrefixAt(m, i, k) <==> PrefixAt(m[1..], i - 1, k));
      if r.Some? then
        assert PrefixAt(m, r.value + 1, k);
        Some(r.value + 1)
      else None
  }

  /** path_relative: every occurrence of the root removed. */
  function PathRelative(p: string, root: string): string {
    ReplaceAll(p, root, "")
  }

  /**
   * alias($key, $relative): the first matching prefix is swapped for its
   * base; a relative result has the root replaced by '/'.
   */
  function Alias(m: AliasMap, key: string, relative: bool, root: string): (r: string)
    ensures FirstPrefix(m, StripQuery(key)).None? ==> r == StripQuery(key)
    ensures FirstPrefix(m, StripQuery(key)).Some? ==>
      var i := FirstPrefix(m, StripQuery(key)).value;
      var path := m[i].1 + StripQuery(key)[|m[i].0|..];
      r == if relative then ReplaceAll(path, root, "/") else path
  {
    var k := StripQuery(key);
    match FirstPrefix(m, k)
    case None => k
    case Some(i) =>
      var path := m[i].1 + k[|m[i].0|..];
      if relative then ReplaceAll(path, root, "/") else path
  }

  // ---------------------------------------------------------------
  // Placeholders: preg_match_all('/:([a-zA-Z0-9_]+)(\([^)]+\))?/')
  // ---------------------------------------------------------------

  /** A pattern read as characters and placeholders. */
  datatype Piece = Chr(c: char) | Hole(name: string, annot: string)

  /** Length of a `(...)` annotation at `k`, or 0. */
  function AnnotLen(s: string, k: nat): (n: nat)
    requires k <= |s|
    ensures k + n <= |s|
    ensures n > 0 ==> n >= 3 && s[k] == '(' && s[k + n - 1] == ')'
  {
    if k < |s| && s[k] == '(' && Run(s, k + 1, ')') >= 1 && k + 1 + Run(s, k + 1, ')') < |s|
    then Run(s, k + 1, ')') + 2
    else 0
  }

  /** `:name` starts the text. */
  predicate HoleStart(p: string) {
    |p| >= 2 && p[0] == ':' && NameRun(p, 1) >= 1
  }

  function NameEnd(p: string): (e: nat)
    requires HoleStart(p)
    ensures 2 <= e <= |p|
  {
    1 + NameRun(p, 1)
  }

  /** Length of the placeholder at the start: ':', the name, and any annotation. */
  function HoleLen(p: string): (n: nat)
    requires HoleStart(p)
    ensures NameEnd(p) <= n <= |p|
  {
    NameEnd(p) + AnnotLen(p, NameEnd(p))
  }

  function HoleAt(p: string): (h: Piece)
    requires HoleStart(p)
    ensures h.Hole? && p == ":" + h.name + h.annot + p[HoleLen(p)..]
  {
    var e := NameEnd(p);
    var h := Hole(p[1..e], p[e..HoleLen(p)]);
    assert p == ":" + h.name + h.annot + p[HoleLen(p)..];
    h
  }

  /** The scan left to right; after a placeholder it resumes behind it. */
  function Tok(p: string): (ps: seq<Piece>)
    decreases |p|
  {
    if |p| == 0 then []
    else if HoleStart(p) then [HoleAt(p)] + Tok(p[HoleLen(p)..])
    else [Chr(p[0])] + Tok(p[1..])
  }

  function PieceText(x: Piece): string {
    match x
    case Chr(c) => [c]
    case Hole(n, a) => ":" + n + a
  }

  function Untok(ps: seq<Piece>): string {
    if |ps| == 0 then "" else PieceText(ps[0]) + Untok(ps[1..])
  }

  lemma UntokCons(x: Piece, ps: seq<Piece>)
    ensures Untok([x] + ps) == PieceText(x) + Untok(ps)
  {
    assert ([x] + ps)[0] == x && ([x] + ps)[1..] == ps;
  }

  /** The scan loses nothing: the pieces spell the pattern again. */
  lemma {:induction false} UntokTok(p: string)
    ensures Untok(Tok(p)) == p
    decreases |p|
  {
    if |p| > 0 {
      if HoleStart(p) {
        var h := HoleAt(p);
        UntokTok(p[HoleLen(p)..]);
        UntokCons(h, Tok(p[HoleLen(p)..]));
      } else {
        UntokTok(p[1..]);
        UntokCons(Chr(p[0]), Tok(p[1..]));
        assert p == [p[0]] + p[1..];
      }
    }
  }

  function HoleNames(ps: seq<Piece>): seq<string> {
    if |ps| == 0 then []
    else (if ps[0].Hole? then [ps[0].name] else []) + HoleNames(ps[1..])
  }

  /** A character stands for itself, a placeholder for the value of its name. */
  function PieceValue(x: Piece, P: Entries): string {
    match x
    case Chr(c) => [c]
    case Hole(n, _) => ValueFor(P, n)
  }

  /** Every placeholder replaced by its value, every other character kept. */
  function SubstWith(ps: seq<Piece>, P: Entries): string {
    if |ps| == 0 then "" else PieceValue(ps[0], P) + SubstWith(ps[1..], P)
  }

  // ---------------------------------------------------------------
  // The code as written: one preg_replace(..., 1) per name
  // ---------------------------------------------------------------

  /** preg_replace('/:' . name . '(\([^)]+\))?/', v, s, 1). */
  function ReplaceFirst(s: string, name: string, v: string): (r: string)
    decreases |s|
  {
    var pat := ":" + name;
    if StartsWith(s, pat) then v + s[|pat| + AnnotLen(s, |pat|)..]
    else if |s| == 0 then ""
    else [s[0]] + ReplaceFirst(s[1..], name, v)
  }

  function ReplaceEach(s: string, names: seq<string>, P: Entries): string
    decreases |names|
  {
    if |names| == 0 then s else ReplaceEach(ReplaceFirst(s, names[0], ValueFor(P, names[0])), names[1..], P)
  }

  // ---------------------------------------------------------------
  // Parameters
  // ---------------------------------------------------------------

  /** _link's second argument: an already resolved path, or an array of parameters. */
  datatype LinkArg = Resolved(path: string) | Params(es: Entries)

  /** `$assoc[$name] = $params[$i] ?? null` for each placeholder, by position. */
  function PositionalAssoc(names: seq<string>, es: Entries): Entries
    decreases |names|
  {
    if |names| == 0 then []
    else
      var k := |names| - 1;
      Put(PositionalAssoc(names[..k], es), names[k], Lookup(es, NatToString(k)).GetOr(NULL))
  }

  /** Distinct placeholders take the list entry at their own position; missing ones read null. */
  lemma {:induction false} PositionalAssocAt(names: seq<string>, es: Entries, i: nat)
    requires i < |names|
    requires forall a, b :: 0 <= a < b < |names| ==> names[a] != names[b]
    ensures Lookup(PositionalAssoc(names, es), names[i]) == Some(Lookup(es, NatToString(i)).GetOr(NULL))
    decreases |names|
  {
    var k := |names| - 1;
    if i < k {
      var pre := names[..k];
      assert pre[i] == names[i];
      assert forall a, b :: 0 <= a < b < |pre| ==> pre[a] != pre[b] by {
        assert forall a :: 0 <= a < |pre| ==> pre[a] == names[a];
      }
      PositionalAssocAt(pre, es, i);
      assert names[k] != names[i];
    }
  }

  /** The parameters the substitution reads: a list is first turned into an assoc array. */
  function Effective(names: seq<string>, es: Entries): Entries {
    if IsList(es) then PositionalAssoc(names, es) else es
  }

  /** `(string)$params[$name]` warns on an array. */
  predicate Castable(names: seq<string>, ps: Entries) {
    forall i :: 0 <= i < |names| ==> Lookup(ps, names[i]).None? || !Lookup(ps, names[i]).value.Arr?
  }

  /** The encoded value, or ':' + name when the key is missing. */
  function ValueFor(ps: Entries, n: string): string {
    match Lookup(ps, n)
    case Some(v) => RawUrlEncode(StrOf(v).GetOr(""))
    case None => ":" + n
  }

  const ARRAY_TO_STRING := "Array to string conversion"

  function FillAsWritten(p: string, es: Entries): (r: Result<string>)
    ensures r.Ok? ==> StartsWith(r.value, "/")
  {
    var names := HoleNames(Tok(p));
    var ps := Effective(names, es);
    if !Castable(names, ps) then Fault(ARRAY_TO_STRING)
    else Ok("/" + LTrimChar(ReplaceEach(p, names, ps), '/'))
  }

  function Fill(p: string, es: Entries): (r: Result<string>)
    ensures r.Ok? ==> StartsWith(r.value, "/")
  {
    var names := HoleNames(Tok(p));
    var ps := Effective(names, es);
    if !Castable(names, ps) then Fault(ARRAY_TO_STRING)
    else Ok("/" + LTrimChar(SubstWith(Tok(p), ps), '/'))
  }

  // ---------------------------------------------------------------
  // #self
  // ---------------------------------------------------------------

  /** No override from index i on that lands on one of n segments is an array. */
  predicate NoArrayLands(n: nat, ov: seq<Val>, i: nat) {
    forall k :: i <= k < |ov| && n - |ov| + k >= 0 ==> !ov[k].Arr?
  }

  /**
   * The overrides from index i on laid over the last segments. An override
   * whose index falls before the first segment is skipped without being
   * cast; the others are cast to string and encoded, and an array among
   * them is the "Array to string conversion" warning.
   */
  function Override(parts: seq<string>, ov: seq<Val>, i: nat): (r: Result<seq<string>>)
    requires i <= |ov|
    ensures r.Ok? <==> NoArrayLands(|parts|, ov, i)
    ensures r.Ok? ==> |r.value| == |parts|
    decreases |ov| - i
  {
    if i == |ov| then Ok(parts)
    else
      var idx := |parts| - |ov| + i;
      if idx < 0 then Override(parts, ov, i + 1)
      else if ov[i].Arr? then Fault(ARRAY_TO_STRING)
      else Override(parts[idx := RawUrlEncode(StrOf(ov[i]).value)], ov, i + 1)
  }

  /** Where the overrides apply segment j holds the encoded value; elsewhere it is kept. */
  lemma {:induction false} OverrideAt(parts: seq<string>, ov: seq<Val>, i: nat, j: nat)
    requires i <= |ov| && j < |parts|
    requires Override(parts, ov, i).Ok?
    ensures j < |parts| - |ov| + i ==> Override(parts, ov, i).value[j] == parts[j]
    ensures j >= |parts| - |ov| + i ==> Override(parts, ov, i).value[j] == RawUrlEncode(StrOf(ov[j - |parts| + |ov|]).value)
    decreases |ov| - i
  {
    if i < |ov| {
      var idx := |parts| - |ov| + i;
      if idx < 0 {
        assert Override(parts, ov, i) == Override(parts, ov, i + 1);
        OverrideAt(parts, ov, i + 1, j);
      } else {
        var e := RawUrlEncode(StrOf(ov[i]).value);
        var next := parts[idx := e];
        assert Override(parts, ov, i) == Override(next, ov, i + 1);
        OverrideAt(next, ov, i + 1, j);
      }
    }
  }

  /** The current route path as _link('#self') reads it. */
  function CurrentPath(c: Ctx.Store): Result<string> {
    match StrOf(Ctx.Get(c, "route.resolve", Ctx.DEFAULT))
    case None => Fault(ARRAY_TO_STRING)
    case Some(s) => Ok(TrimChar(s, '/'))
  }

  function SelfLink(c: Ctx.Store, es: Entries): (r: Result<string>)
    ensures r.Ok? ==> StartsWith(r.value, "/")
    ensures CurrentPath(c) == Ok("") ==> r == Ok("/")
  {
    match CurrentPath(c)
    case Fault(e) => Fault(e)
    case Ok(cur) =>
      if cur == "" then Ok("/")
      else
        match Override(Split(cur, '/'), Values(es), 0)
        case Fault(e) => Fault(e)
        case Ok(parts) => Ok("/" + Join(parts, "/"))
  }

  /** A self link over a non-empty current path fails exactly when an array lands on a segment. */
  lemma SelfLinkFails(c: Ctx.Store, es: Entries)
    requires CurrentPath(c).Ok? && CurrentPath(c).value != ""
    ensures SelfLink(c, es).Ok? <==> NoArrayLands(|Split(CurrentPath(c).value, '/')|, Values(es), 0)
  {
    assert SelfLink(c, es).Ok? == Override(Split(CurrentPath(c).value, '/'), Values(es), 0).Ok?;
  }

  /** q is parts with the last segments replaced by the encoded values of vs, none of which is an array where it lands. */
  predicate Overridden(q: seq<string>, parts: seq<string>, vs: seq<Val>)
    requires NoArrayLands(|parts|, vs, 0)
  {
    |q| == |parts|
    && forall j :: 0 <= j < |parts| ==>
         q[j] == if j >= |parts| - |vs| then RawUrlEncode(StrOf(vs[j - |parts| + |vs|]).value) else parts[j]
  }

  /** A self link reads back as the current segments with the last ones replaced by the encoded overrides. */
  lemma SelfLinkSegments(c: Ctx.Store, es: Entries)
    requires CurrentPath(c).Ok? && CurrentPath(c).value != ""
    requires SelfLink(c, es).Ok?
    ensures NoArrayLands(|Split(CurrentPath(c).value, '/')|, Values(es), 0)
    ensures Overridden(Split(SelfLink(c, es).value[1..], '/'), Split(CurrentPath(c).value, '/'), Values(es))
  {
    var parts := Split(CurrentPath(c).value, '/');
    var vs := Values(es);
    assert SelfLink(c, es).Ok? == Override(parts, vs, 0).Ok?;
    var q := Override(parts, vs, 0).value;
    forall j | 0 <= j < |q|
      ensures q[j] == if j >= |parts| - |vs| then RawUrlEncode(StrOf(vs[j - |parts| + |vs|]).value) else parts[j]
      ensures '/' !in q[j]
    {
      OverrideAt(parts, vs, 0, j);
      if j >= |parts| - |vs| {
        EncodedIsInert(StrOf(vs[j - |parts| + |vs|]).value);
      }
    }
    assert Overridden(q, parts, vs);
    SplitJoin(q, '/');
    assert SelfLink(c, es).value[1..] == Join(q, "/");
  }

  // ---------------------------------------------------------------
  // _link
  // ---------------------------------------------------------------

  /** A route text PHP treats as false. */
  predicate Falsy(s: string) {
    s == "" || s == "0"
  }

  function LinkBy(pattern: string, arg: LinkArg, routes: seq<Record>, c: Ctx.Store,
                  fill: (string, Entries) -> Result<string>): Result<string>
  {
    match arg
    case Resolved(p) => Ok("/" + LTrimChar(p, '/'))
    case Params(es) =>
      if pattern == "#self" then SelfLink(c, es)
      else if |pattern| == 0 then Fault("Uninitialized string offset 0")
      else if pattern[0] == '@' then
        var rp := RoutePath(pattern, routes);
        if rp.None? || Falsy(rp.value) then Ok("/@INVALID_ROUTE") else fill(rp.value, es)
      else fill(pattern, es)
  }

  /** _link($pattern, $params) with the code's replacement loop. */
  function LinkAsWritten(pattern: string, arg: LinkArg, routes: seq<Record>, c: Ctx.Store): (r: Result<string>)
    ensures r.Ok? ==> StartsWith(r.value, "/")
    ensures arg.Resolved? ==> r == Ok("/" + LTrimChar(arg.path, '/'))
    ensures arg.Params? && pattern == "#self" ==> r == SelfLink(c, arg.es)
    ensures arg.Params? && pattern == "" ==> r.Fault?
    ensures arg.Params? && pattern != "#self" && |pattern| > 0 && pattern[0] == '@' ==>
      var rp := RoutePath(pattern, routes);
      r == if rp.None? || Falsy(rp.value) then Ok("/@INVALID_ROUTE") else FillAsWritten(rp.value, arg.es)
    ensures arg.Params? && pattern != "#self" && |pattern| > 0 && pattern[0] != '@' ==> r == FillAsWritten(pattern, arg.es)
  {
    LinkBy(pattern, arg, routes, c, FillAsWritten)
  }

  /** Both fills refuse the same parameters: an array where a placeholder takes its value. */
  lemma FillsFailAlike(p: string, es: Entries)
    ensures FillAsWritten(p, es).Ok? <==> Fill(p, es).Ok?
  {
  }

  /** _link($pattern, $params), placeholders filled token by token. */
  function Link(pattern: string, arg: LinkArg, routes: seq<Record>, c: Ctx.Store): (r: Result<string>)
    ensures r.Ok? ==> StartsWith(r.value, "/")
    ensures arg.Resolved? ==> r == Ok("/" + LTrimChar(arg.path, '/'))
    ensures arg.Params? && pattern == "#self" ==> r == SelfLink(c, arg.es)
    ensures arg.Params? && pattern == "" ==> r.Fault?
    ensures arg.Params? && pattern != "#self" && |pattern| > 0 && pattern[0] == '@' ==>
      var rp := RoutePath(pattern, routes);
      r == if rp.None? || Falsy(rp.value) then Ok("/@INVALID_ROUTE") else Fill(rp.value, arg.es)
    ensures arg.Params? && pattern != "#self" && |pattern| > 0 && pattern[0] != '@' ==> r == Fill(pattern, arg.es)
  {
    LinkBy(pattern, arg, routes, c, Fill)
  }

  // ---------------------------------------------------------------
  // What Fill does to a route text
  // ---------------------------------------------------------------

  /** A segment _link can read unambiguously: a placeholder, or a literal without ':'. */
  predicate LinkableSeg(seg: string) {
    '/' !in seg && '\n' !in seg && (Classify(seg).Typed? || Classify(seg).Plain? || ':' !in seg)
  }

  function SegSubst(seg: string, P: Entries): string {
    match Classify(seg)
    case Typed(n, _) => ValueFor(P, n)
    case Plain(n) => ValueFor(P, n)
    case _ => seg
  }

  function SegSubsts(segs: seq<string>, P: Entries): (r: seq<string>)
    ensures |r| == |segs| && forall i :: 0 <= i < |segs| ==> r[i] == SegSubst(segs[i], P)
  {
    seq(|segs|, i requires 0 <= i < |segs| => SegSubst(segs[i], P))
  }

  lemma SubstCons(x: Piece, ps: seq<Piece>, P: Entries)
    ensures SubstWith([x] + ps, P) == PieceValue(x, P) + SubstWith(ps, P)
  {
    assert ([x] + ps)[0] == x && ([x] + ps)[1..] == ps;
  }

  lemma {:induction false} TokLiteral(lit: string, rest: string, P: Entries)
    requires ':' !in lit
    ensures SubstWith(Tok(lit + rest), P) == lit + SubstWith(Tok(rest), P)
    decreases |lit|
  {
    if |lit| > 0 {
      var p := lit + rest;
      assert p[0] == lit[0] && p[1..] == lit[1..] + rest;
      assert !HoleStart(p);
      assert Tok(p) == [Chr(p[0])] + Tok(p[1..]);
      SubstCons(Chr(p[0]), Tok(p[1..]), P);
      assert ':' !in lit[1..];
      TokLiteral(lit[1..], rest, P);
      assert PieceValue(Chr(p[0]), P) == [lit[0]];
      assert SubstWith(Tok(p), P) == [lit[0]] + (lit[1..] + SubstWith(Tok(rest), P));
      assert lit == [lit[0]] + lit[1..];
    } else {
      assert lit + rest == rest;
    }
  }

  lemma TokHole(n: string, annot: string, rest: string, P: Entries)
    requires IsName(n) && (rest == "" || rest[0] == '/')
    requires annot == "" || (|annot| >= 3 && annot[0] == '(' && annot[|annot| - 1] == ')' && ')' !in annot[1..|annot| - 1])
    ensures SubstWith(Tok(":" + n + annot + rest), P) == ValueFor(P, n) + SubstWith(Tok(rest), P)
  {
    var p := ":" + n + annot + rest;
    HoleShape(p, n, annot, rest);
    var h := HoleAt(p);
    assert Tok(p) == [h] + Tok(p[HoleLen(p)..]);
    SubstCons(h, Tok(p[HoleLen(p)..]), P);
  }

  lemma HoleShape(p: string, n: string, annot: string, rest: string)
    requires IsName(n) && (rest == "" || rest[0] == '/')
    requires annot == "" || (|annot| >= 3 && annot[0] == '(' && annot[|annot| - 1] == ')' && ')' !in annot[1..|annot| - 1])
    requires p == ":" + n + annot + rest
    ensures HoleStart(p) && HoleAt(p) == Hole(n, annot) && p[HoleLen(p)..] == rest
  {
    var e := 1 + |n|;
    var tail := annot + rest;
    assert p == ":" + n + tail;
    HoleNameEnd(p, n, tail);
    HoleAnnotLen(p, e, annot, rest);
    assert p[1..e] == n;
    assert p[e..HoleLen(p)] == annot;
    assert p[HoleLen(p)..] == rest;
  }

  /** The name of a placeholder ends where a non-name character follows it. */
  lemma HoleNameEnd(p: string, n: string, tail: string)
    requires IsName(n) && (tail == "" || tail[0] == '(' || tail[0] == '/')
    requires p == ":" + n + tail
    ensures HoleStart(p) && NameEnd(p) == 1 + |n|
  {
    var e := 1 + |n|;
    forall k | 1 <= k < e ensures NameChar(p[k]) {
      assert p[k] == n[k - 1];
    }
    NameRunExact(p, 1, |n|);
  }

  /** The annotation after the name, if any, is measured up to its ')'. */
  lemma HoleAnnotLen(p: string, e: nat, annot: string, rest: string)
    requires annot == "" || (|annot| >= 3 && annot[0] == '(' && annot[|annot| - 1] == ')' && ')' !in annot[1..|annot| - 1])
    requires rest == "" || rest[0] == '/'
    requires e <= |p| && p[e..] == annot + rest
    ensures AnnotLen(p, e) == |annot|
  {
    if annot != "" {
      var t := |annot| - 2;
      forall k | e + 1 <= k < e + 1 + t ensures p[k] != ')' {
        assert p[k] == p[e..][k - e] == annot[k - e];
        assert annot[k - e] == annot[1..|annot| - 1][k - e - 1];
      }
      assert p[e + 1 + t] == p[e..][1 + t] == ')';
      RunExact(p, e + 1, ')', t);
    } else if e < |p| {
      assert p[e] == p[e..][0] == '/';
    }
  }

  lemma TokSeg(seg: string, rest: string, P: Entries)
    requires LinkableSeg(seg) && (rest == "" || rest[0] == '/')
    ensures SubstWith(Tok(seg + rest), P) == SegSubst(seg, P) + SubstWith(Tok(rest), P)
  {
    var k := Classify(seg);
    if k.Typed? {
      TokTyped(seg, k.name, k.typ, rest, P);
    } else if k.Plain? {
      TokPlain(seg, k.name, rest, P);
    } else {
      TokLiteral(seg, rest, P);
    }
  }

  lemma TokTyped(seg: string, n: string, t: string, rest: string, P: Entries)
    requires Classify(seg) == Typed(n, t) && '\n' !in seg && (rest == "" || rest[0] == '/')
    ensures SubstWith(Tok(seg + rest), P) == ValueFor(P, n) + SubstWith(Tok(rest), P)
  {
    ClassifyTypedSound(seg, n, t);
    TypedHole(seg, n, t, rest, P);
  }

  lemma TypedHole(seg: string, n: string, t: string, rest: string, P: Entries)
    requires IsTypedText(seg, n, t) && '\n' !in seg && (rest == "" || rest[0] == '/')
    ensures SubstWith(Tok(seg + rest), P) == ValueFor(P, n) + SubstWith(Tok(rest), P)
  {
    var annot := "(" + t + ")";
    assert annot[1..|annot| - 1] == t;
    assert seg + rest == ":" + n + annot + rest;
    TokHole(n, annot, rest, P);
  }

  lemma TokPlain(seg: string, n: string, rest: string, P: Entries)
    requires Classify(seg) == Plain(n) && '\n' !in seg && (rest == "" || rest[0] == '/')
    ensures SubstWith(Tok(seg + rest), P) == ValueFor(P, n) + SubstWith(Tok(rest), P)
  {
    ClassifyPlain(seg, n);
    PlainHole(seg, n, rest, P);
  }

  lemma PlainHole(seg: string, n: string, rest: string, P: Entries)
    requires IsPlainText(seg, n) && '\n' !in seg && (rest == "" || rest[0] == '/')
    ensures SubstWith(Tok(seg + rest), P) == ValueFor(P, n) + SubstWith(Tok(rest), P)
  {
    assert seg + rest == ":" + n + "" + rest;
    TokHole(n, "", rest, P);
  }

  /** Over linkable segments, the substitution works segment by segment. */
  lemma {:induction false} SubstBySegments(segs: seq<string>, P: Entries)
    requires |segs| >= 1 && forall i :: 0 <= i < |segs| ==> LinkableSeg(segs[i])
    ensures SubstWith(Tok(Join(segs, "/")), P) == Join(SegSubsts(segs, P), "/")
    decreases |segs|
  {
    if |segs| == 1 {
      var out := SegSubsts(segs, P);
      TokSeg(segs[0], "", P);
      assert segs[0] + "" == segs[0];
      assert Join(out, "/") == out[0];
    } else {
      assert forall i :: 0 <= i < |segs| - 1 ==> segs[1..][i] == segs[i + 1];
      SubstBySegments(segs[1..], P);
      SubstSegStep(segs, P);
    }
  }

  /** The first segment's substitution, then '/', then the rest's. */
  lemma SubstSegStep(segs: seq<string>, P: Entries)
    requires |segs| >= 2 && LinkableSeg(segs[0])
    requires SubstWith(Tok(Join(segs[1..], "/")), P) == Join(SegSubsts(segs[1..], P), "/")
    ensures SubstWith(Tok(Join(segs, "/")), P) == Join(SegSubsts(segs, P), "/")
  {
    var rest := Join(segs[1..], "/");
    var out := SegSubsts(segs, P);
    assert out[1..] == SegSubsts(segs[1..], P);
    JoinCons(segs, "/");
    TokSeg(segs[0], "/" + rest, P);
    TokLiteral("/", rest, P);
    JoinCons(out, "/");
  }

  lemma JoinCons(xs: seq<string>, sep: string)
    requires |xs| >= 2
    ensures Join(xs, sep) == xs[0] + (sep + Join(xs[1..], sep))
  {
  }

  /**
   * The link of a route whose segments are all linkable: each placeholder
   * segment becomes its parameter's value (or ':name'), each literal is
   * kept, and the '/' between them are kept.
   */
  lemma FillBySegments(original: string, es: Entries)
    requires forall i :: 0 <= i < |Split(original, '/')| ==> LinkableSeg(Split(original, '/')[i])
    ensures var names := HoleNames(Tok(original));
      var ps := Effective(names, es);
      Castable(names, ps) ==>
        Fill(original, es) == Ok("/" + LTrimChar(Join(SegSubsts(Split(original, '/'), ps), "/"), '/'))
  {
    var names := HoleNames(Tok(original));
    var ps := Effective(names, es);
    JoinSplit(original, '/');
    SubstBySegments(Split(original, '/'), ps);
  }

  // ---------------------------------------------------------------
  // The discrepancy, on one input
  // ---------------------------------------------------------------

  /**
   * For ':ab/:a' with only 'a' given, the code replaces the start of ':ab'
   * with a's value and leaves ':a' untouched; filled token by token, ':ab'
   * stays visible and ':a' gets the value.
   */
  lemma PrefixNameCounterexample()
    ensures FillAsWritten(":ab/:a", [("a", S("x"))]) == Ok("/xb/:a")
    ensures Fill(":ab/:a", [("a", S("x"))]) == Ok("/:ab/x")
  {
    ExampleFills(":ab/:a", [("a", S("x"))]);
  }

  lemma ExampleFills(p: string, es: Entries)
    requires p == ":ab/:a" && es == [("a", S("x"))]
    ensures FillAsWritten(p, es) == Ok("/xb/:a")
    ensures Fill(p, es) == Ok("/:ab/x")
  {
    var names := HoleNames(Tok(p));
    var ps := Effective(names, es);
    var w := ReplaceEach(p, names, ps);
    var f := SubstWith(Tok(p), ps);
    assert names == ["ab", "a"] && ps == es && Castable(names, ps) && w == "xb/:a" && f == ":ab/x" by {
      ExampleSetup();
      ExampleReplace();
      ExampleSubst();
      ExampleTok();
    }
    ExampleSlash(w, f);
  }

  lemma ExampleSlash(w: string, f: string)
    requires w == "xb/:a" && f == ":ab/x"
    ensures "/" + LTrimChar(w, '/') == "/xb/:a"
    ensures "/" + LTrimChar(f, '/') == "/:ab/x"
  {
    assert LTrimChar(w, '/') == w by {
      assert w[0] != '/';
    }
    assert LTrimChar(f, '/') == f by {
      assert f[0] != '/';
    }
  }

  lemma ExampleSetup()
    ensures HoleNames(Tok(":ab/:a")) == ["ab", "a"]
    ensures Effective(["ab", "a"], [("a", S("x"))]) == [("a", S("x"))]
    ensures Castable(["ab", "a"], [("a", S("x"))])
  {
    ExampleTok();
    ExampleNames();
    var es: Entries := [("a", S("x"))];
    assert NatToString(0) == "0";
    assert !IsList(es);
    assert Lookup(es, "ab") == None;
    assert Lookup(es, "a") == Some(S("x"));
  }

  lemma ExampleTok()
    ensures Tok(":ab/:a") == [Hole("ab", ""), Chr('/'), Hole("a", "")]
  {
    var p := ":ab/:a";
    assert p == ":" + "ab" + "" + "/:a";
    HoleShape(p, "ab", "", "/:a");
    assert ("/:a")[1..] == ":a";
    assert !HoleStart("/:a");
    assert Tok("/:a") == [Chr('/')] + Tok(":a");
    assert ":a" == ":" + "a" + "" + "";
    HoleShape(":a", "a", "", "");
    assert Tok(":a") == [Hole("a", "")] + Tok("");
  }

  lemma ExampleNames()
    ensures HoleNames([Hole("ab", ""), Chr('/'), Hole("a", "")]) == ["ab", "a"]
  {
    assert HoleNames([Hole("a", "")]) == ["a"];
    assert [Chr('/'), Hole("a", "")][1..] == [Hole("a", "")];
    assert HoleNames([Chr('/'), Hole("a", "")]) == ["a"];
    assert [Hole("ab", ""), Chr('/'), Hole("a", "")][1..] == [Chr('/'), Hole("a", "")];
  }

  lemma ExampleValues()
    ensures ValueFor([("a", S("x"))], "ab") == ":ab" && ValueFor([("a", S("x"))], "a") == "x"
  {
    var es: Entries := [("a", S("x"))];
    assert Lookup(es, "ab") == None;
    assert Lookup(es, "a") == Some(S("x"));
    assert RawUrlEncode("x") == "x";
  }

  lemma ExampleReplace()
    ensures ReplaceEach(":ab/:a", ["ab", "a"], [("a", S("x"))]) == "xb/:a"
  {
    ExampleValues();
    assert StartsWith(":ab/:a", ":ab");
    assert AnnotLen(":ab/:a", 3) == 0;
    assert ReplaceFirst(":ab/:a", "ab", ":ab") == ":ab/:a";
    assert StartsWith(":ab/:a", ":a");
    assert AnnotLen(":ab/:a", 2) == 0;
    assert ReplaceFirst(":ab/:a", "a", "x") == "xb/:a";
    assert ["ab", "a"][1..] == ["a"];
  }

  lemma ExampleSubst()
    ensures SubstWith([Hole("ab", ""), Chr('/'), Hole("a", "")], [("a", S("x"))]) == ":ab/x"
  {
    var es: Entries := [("a", S("x"))];
    ExampleValues();
    assert SubstWith([Hole("a", "")], es) == "x";
    assert [Chr('/'), Hole("a", "")][1..] == [Hole("a", "")];
    assert SubstWith([Chr('/'), Hole("a", "")], es) == "/x";
    assert [Hole("ab", ""), Chr('/'), Hole("a", "")][1..] == [Chr('/'), Hole("a", "")];
  }
}
