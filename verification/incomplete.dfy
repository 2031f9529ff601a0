/**
 * Why the check after a match (router-engine.php, "ROUTE_INCOMPLETE_POST_MATCH")
 * cannot fire for an ordinary required route: every fragment of such a
 * route eats one '/' of the path and a non-empty piece behind it, so the
 * path has at least as many parts as the route, while the route has at
 * most one ':' per part after its leading literals.
 *
 * "Ordinary" means no `*` segment, no ':' inside a literal segment and no
 * ':' inside a type annotation; a wildcard body may end in '/', and a
 * stray ':' counts as one more expected part.
 */
module IncompleteCheck {
  import opened Base
  import opened Text
  import opened Php
  import opened Pcre
  import opened RouteCompiler
  import opened Dispatch

  // ---------------------------------------------------------------
  // The path side
  // ---------------------------------------------------------------

  /** A fragment whose consumed text holds no '/' besides its leading one. */
  predicate SlashFree(f: Frag) {
    f.Req? || (f.Lit? && '/' !in f.text)
  }

  predicate FragsSlashFree(fs: seq<Frag>) {
    forall j :: 0 <= j < |fs| ==> SlashFree(fs[j])
  }

  /** A fragment that always consumes something after its '/'. */
  predicate Solid(f: Frag) {
    f.Req? || (f.Lit? && f.text != "")
  }

  /** What the first fragment of a parse consumes after its '/'. */
  lemma FirstPiece(fs: seq<Frag>, s: string, i: nat, caps: Captures) returns (b: string, rest: Captures)
    requires i <= |s| && |fs| >= 1 && SlashFree(fs[0]) && Parses(fs, s, i, caps)
    ensures i + 1 + |b| <= |s| && s[i] == '/' && s[i + 1..i + 1 + |b|] == b && '/' !in b
    ensures Solid(fs[0]) ==> |b| >= 1
    ensures Parses(fs[1..], s, i + 1 + |b|, rest)
  {
    if fs[0].Lit? {
      b, rest := fs[0].text, caps;
      var j := i + 1 + |b|;
      assert s[i..j] == "/" + b;
      assert s[i] == s[i..j][0];
      assert s[i + 1..j] == s[i..j][1..];
    } else {
      b, rest := caps[0].value, caps[1..];
    }
  }

  /**
   * A parse over slash-free fragments whose last one is solid: the
   * consumed text holds a '/' per fragment, plus one more when it ends
   * with '/', and never ends with "//".
   */
  lemma {:induction false} SlashCount(fs: seq<Frag>, s: string, i: nat, caps: Captures)
    requires i <= |s| && Parses(fs, s, i, caps)
    requires |fs| >= 1 && FragsSlashFree(fs) && Solid(fs[|fs| - 1])
    ensures |s| - i >= 2
    ensures CountChar(s[i..], '/') >= |fs| + (if s[|s| - 1] == '/' then 1 else 0)
    ensures s[|s| - 1] == '/' ==> s[|s| - 2] != '/'
    decreases |fs|
  {
    var b, rest := FirstPiece(fs, s, i, caps);
    var j := i + 1 + |b|;
    assert s[i..] == [s[i]] + s[i + 1..j] + s[j..];
    CountCharAppend([s[i]] + s[i + 1..j], s[j..], '/');
    CountCharAppend([s[i]], s[i + 1..j], '/');
    assert CountChar(s[i + 1..j], '/') == 0;
    if |fs| == 1 {
      assert |b| >= 1 && s[j - 1] == b[|b| - 1];
      assert EndAt(s, j);
      if j < |s| {
        assert s[j..] == [s[j]] + s[j + 1..];
        CountCharAppend([s[j]], s[j + 1..], '/');
      }
    } else {
      assert forall k :: 0 <= k < |fs| - 1 ==> fs[1..][k] == fs[k + 1];
      SlashCount(fs[1..], s, j, rest);
    }
  }

  lemma LTrimOne(s: string, c: char)
    requires |s| >= 2 && s[0] == c && s[1] != c
    ensures LTrimChar(s, c) == s[1..]
  {
    assert LTrimChar(s[1..], c) == s[1..];
  }

  lemma RTrimOne(x: string, c: char)
    requires |x| >= 2 && x[|x| - 1] == c && x[|x| - 2] != c
    ensures RTrimChar(x, c) == x[..|x| - 1]
  {
    var y := x[..|x| - 1];
    assert y[|y| - 1] != c;
    assert RTrimChar(y, c) == y;
  }

  /** trim(s, '/') of such a path drops exactly its first '/' and at most one final '/'. */
  lemma TrimCount(s: string)
    requires |s| >= 2 && s[0] == '/' && s[1] != '/'
    requires s[|s| - 1] == '/' ==> s[|s| - 2] != '/'
    ensures CountChar(TrimChar(s, '/'), '/') + 1 + (if s[|s| - 1] == '/' then 1 else 0) == CountChar(s, '/')
  {
    var x := s[1..];
    LTrimOne(s, '/');
    assert s == [s[0]] + x;
    CountCharAppend([s[0]], x, '/');
    if s[|s| - 1] == '/' {
      RTrimOne(x, '/');
      var y := x[..|x| - 1];
      assert x == y + [x[|x| - 1]];
      CountCharAppend(y, [x[|x| - 1]], '/');
    } else {
      assert RTrimChar(x, '/') == x;
    }
  }

  /** A path matched by slash-free fragments, solid at both ends, has at least one part per fragment. */
  lemma PartsOfMatch(fs: seq<Frag>, page: string, caps: Captures)
    requires Parses(fs, page, 0, caps)
    requires |fs| >= 1 && FragsSlashFree(fs) && Solid(fs[0]) && Solid(fs[|fs| - 1])
    ensures |Parts(page)| >= |fs|
  {
    var b, rest := FirstPiece(fs, page, 0, caps);
    SlashCount(fs, page, 0, caps);
    assert page[1] == b[0];
    TrimCount(page);
  }

  // ---------------------------------------------------------------
  // The route side
  // ---------------------------------------------------------------

  /** A segment whose ':' are exactly the one that opens a placeholder. */
  predicate ColonSafe(seg: string) {
    match Classify(seg)
    case WildSeg => false
    case Literal(_) => ':' !in seg
    case Typed(_, t) => ':' !in t
    case Plain(_) => true
  }

  predicate NoStrayColon(original: string) {
    forall j :: 0 <= j < |Split(original, '/')| ==> ColonSafe(Split(original, '/')[j])
  }

  lemma NameNoColon(n: string)
    requires IsName(n)
    ensures CountChar(n, ':') == 0
  {
    assert ':' !in n by {
      assert forall i :: 0 <= i < |n| ==> NameChar(n[i]);
    }
  }

  /** A colon-safe segment holds one ':' if it is a placeholder and none otherwise. */
  lemma SegColons(seg: string)
    requires ColonSafe(seg)
    ensures CountChar(seg, ':') == (if StartsWith(seg, ":") then 1 else 0)
  {
    match Classify(seg)
    case Typed(n, t) =>
      ClassifyTypedSound(seg, n, t);
      NameNoColon(n);
      var base := ":" + n + "(" + t + ")";
      CountCharAppend(":" + n + "(", t + ")", ':');
      CountCharAppend(":" + n, "(", ':');
      CountCharAppend(":", n, ':');
      CountCharAppend(t, ")", ':');
      assert base == (":" + n + "(") + (t + ")");
      CountCharAppend(base, "\n", ':');
    case Plain(n) =>
      ClassifyPlain(seg, n);
      NameNoColon(n);
      CountCharAppend(":", n, ':');
      CountCharAppend(":" + n, "\n", ':');
    case Literal(_) =>
      assert !StartsWith(seg, ":") by {
        if |seg| >= 1 {
          assert seg[0] in seg;
        }
      }
  }

  /** The ':' of colon-safe parts fit in the parts after the leading literals. */
  lemma {:induction false} ColonsBound(segs: seq<string>)
    requires forall j :: 0 <= j < |segs| ==> ColonSafe(segs[j])
    ensures SumCount(segs, ':') + StaticCount(segs) <= |segs|
    decreases |segs|
  {
    if |segs| > 0 {
      SegColons(segs[0]);
      assert forall j :: 0 <= j < |segs| - 1 ==> segs[1..][j] == segs[j + 1];
      ColonsBound(segs[1..]);
      if StartsWith(segs[0], ":") {
        ColonsAtMostParts(segs[1..]);
      }
    }
  }

  lemma {:induction false} ColonsAtMostParts(segs: seq<string>)
    requires forall j :: 0 <= j < |segs| ==> ColonSafe(segs[j])
    ensures SumCount(segs, ':') <= |segs|
    decreases |segs|
  {
    if |segs| > 0 {
      SegColons(segs[0]);
      assert forall j :: 0 <= j < |segs| - 1 ==> segs[1..][j] == segs[j + 1];
      ColonsAtMostParts(segs[1..]);
    }
  }

  /** The fragments a required, colon-safe route compiles to are slash-free, and solid at the ends. */
  lemma FragsOfSafeRoute(original: string, fs: seq<Frag>)
    requires |original| > 0 && original[0] != '/' && original[|original| - 1] != '/'
    requires NoStrayColon(original)
    requires |fs| == |Split(original, '/')|
    requires forall i :: 0 <= i < |fs| ==> fs[i] == FragOf(Classify(Split(original, '/')[i]), true)
    ensures |fs| >= 1 && FragsSlashFree(fs) && Solid(fs[0]) && Solid(fs[|fs| - 1])
  {
    var segs := Split(original, '/');
    SplitEnds(original, '/');
    forall j | 0 <= j < |fs| ensures SlashFree(fs[j]) && (segs[j] != "" ==> Solid(fs[j])) {
      SafeSegFrag(segs[j]);
    }
  }

  /** The required fragment of one colon-safe segment. */
  lemma SafeSegFrag(seg: string)
    requires '/' !in seg && ColonSafe(seg)
    ensures SlashFree(FragOf(Classify(seg), true))
    ensures seg != "" ==> Solid(FragOf(Classify(seg), true))
  {
    var k := Classify(seg);
    if k.Literal? {
      assert k.text == seg;
    }
  }

  /** The route-level argument, on the fields a compiled required record has. */
  lemma {:induction false} SafeRouteMatch(original: string, fs: seq<Frag>, page: string)
    requires |original| == 0 || (original[0] != '/' && original[|original| - 1] != '/')
    requires NoStrayColon(original)
    requires |fs| == |Split(original, '/')|
    requires forall i :: 0 <= i < |fs| ==> fs[i] == FragOf(Classify(Split(original, '/')[i]), true)
    requires Match(fs, page).Some?
    ensures !TooShort(page, original)
  {
    var segs := Split(original, '/');
    TrimCharNoop(original, '/');
    assert Parts(original) == segs;
    CountSplit(original, '/', ':');
    ColonsBound(segs);
    if |original| > 0 {
      FragsOfSafeRoute(original, fs);
      MatchIffParses(fs, page);
      PartsOfMatch(fs, page, Match(fs, page).value);
    }
  }

  /**
   * For a required route compiled from the map, with no `*` and no stray
   * ':', a successful match never leaves the path short of parts: the
   * post-match 422 cannot fire.
   */
  lemma RequiredMatchNeverIncomplete(a: string, cfg: Val, page: string)
    requires CompileDecl(a, cfg).Done? && CompileDecl(a, cfg).value.required
    requires NoStrayColon(CompileDecl(a, cfg).value.original)
    requires Match(CompileDecl(a, cfg).value.frags, page).Some?
    ensures !TooShort(page, CompileDecl(a, cfg).value.original)
  {
    var r := CompileDecl(a, cfg).value;
    CompileDeclFields(a, cfg);
    assert |r.original| == 0 || (r.original[0] != '/' && r.original[|r.original| - 1] != '/');
    SafeRouteMatch(r.original, r.frags, page);
  }
}
