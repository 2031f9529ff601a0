/**
 * The compiled route regex. The route compiler only ever emits
 *   '#^' Frag* '/?$#'
 * where each Frag is one of four fixed shapes, so instead of a general
 * regex engine the model keeps the fragment list and matches it with a
 * backtracking search that tries alternatives in exactly PCRE's order
 * (greedy quantifiers longest first, an optional group before skipping it).
 *
 * Two PCRE details are kept: `$` without the D modifier also matches just
 * before a final "\n", and `.` (the wildcard body) does not match "\n"
 * while `[^/]` does.
 */
module Pcre {
  import opened Base
  import opened Text

  datatype Frag =
    | Lit(text: string)   // '/' + preg_quote(text)
    | Req(name: string)   // '/(?P<name>[^/]+)'
    | Opt(name: string)   // '(?:/(?P<name>[^/]+))?'
    | Wild                // '/(?P<wildcard>.*)'
  {
    predicate Captures() { !Lit? }

    function GroupName(): string
      requires Captures()
    {
      if Wild? then "wildcard" else name
    }
  }

  /** One entry per capturing fragment, in order; None = the group did not take part. */
  type Captures = seq<Option<string>>

  function CaptureCount(fs: seq<Frag>): nat {
    if |fs| == 0 then 0 else (if fs[0].Captures() then 1 else 0) + CaptureCount(fs[1..])
  }

  // ---------------------------------------------------------------
  // Anchors and character runs
  // ---------------------------------------------------------------

  /** PCRE `$` (no D modifier): end of subject, or just before a final newline. */
  predicate DollarAt(s: string, j: nat)
    requires j <= |s|
  {
    j == |s| || (j == |s| - 1 && s[j] == '\n')
  }

  /** The closing `/?$`: the optional slash is tried first. */
  predicate EndAt(s: string, i: nat)
    requires i <= |s|
  {
    (i < |s| && s[i] == '/' && DollarAt(s, i + 1)) || DollarAt(s, i)
  }

  /** Length of the run of characters other than `stop` starting at `j`. */
  function Run(s: string, j: nat, stop: char): (n: nat)
    requires j <= |s|
    ensures j + n <= |s|
    ensures forall k :: j <= k < j + n ==> s[k] != stop
    ensures j + n < |s| ==> s[j + n] == stop
    decreases |s| - j
  {
    if j < |s| && s[j] != stop then 1 + Run(s, j + 1, stop) else 0
  }

  lemma RunBound(s: string, j: nat, stop: char, m: nat)
    requires j + m <= |s|
    requires forall k :: j <= k < j + m ==> s[k] != stop
    ensures m <= Run(s, j, stop)
  {
  }

  lemma SliceAvoids(s: string, a: nat, b: nat, c: char)
    requires a <= b <= |s|
    requires forall k :: a <= k < b ==> s[k] != c
    ensures c !in s[a..b]
  {
  }

  // ---------------------------------------------------------------
  // The backtracking matcher
  // ---------------------------------------------------------------

  /**
   * Matches `fs` then `/?$` against `s` from position `i`, returning the
   * captures of the first success in PCRE's search order.
   */
  function MatchAt(fs: seq<Frag>, s: string, i: nat): Option<Captures>
    requires i <= |s|
    decreases |fs|, 1, 0
  {
    if |fs| == 0 then
      (if EndAt(s, i) then Some([]) else None)
    else
      match fs[0]
      case Lit(t) =>
        var w := "/" + t;
        if i + |w| <= |s| && s[i..i + |w|] == w then MatchAt(fs[1..], s, i + |w|) else None
      case Req(_) =>
        if i < |s| && s[i] == '/' then TryLen(fs, s, i + 1, Run(s, i + 1, '/'), 1) else None
      case Opt(_) =>
        var taken := if i < |s| && s[i] == '/' then TryLen(fs, s, i + 1, Run(s, i + 1, '/'), 1) else None;
        if taken.Some? then taken
        else
          (match MatchAt(fs[1..], s, i)
           case Some(c) => Some([None] + c)
           case None => None)
      case Wild =>
        if i < |s| && s[i] == '/' then TryLen(fs, s, i + 1, Run(s, i + 1, '\n'), 0) else None
  }

  /** Tries the group of `fs[0]` with lengths n, n-1, ..., lo, longest first. */
  function TryLen(fs: seq<Frag>, s: string, start: nat, n: nat, lo: nat): Option<Captures>
    requires |fs| > 0 && start + n <= |s|
    decreases |fs|, 0, n
  {
    if n < lo then None
    else
      match MatchAt(fs[1..], s, start + n)
      case Some(c) => Some([Some(s[start..start + n])] + c)
      case None => if n == 0 then None else TryLen(fs, s, start, n - 1, lo)
  }

  /** `preg_match` of the anchored pattern against the request path. */
  function Match(fs: seq<Frag>, s: string): Option<Captures> {
    MatchAt(fs, s, 0)
  }

  // ---------------------------------------------------------------
  // Reference definition: what it means for `caps` to be a parse
  // ---------------------------------------------------------------

  /** `v` can stand for a group body starting at `j` that stops before `stop`. */
  ghost predicate BodyAt(s: string, j: nat, v: string, stop: char) {
    j + |v| <= |s| && s[j..j + |v|] == v && stop !in v
  }

  ghost predicate Parses(fs: seq<Frag>, s: string, i: nat, caps: Captures)
    requires i <= |s|
    decreases |fs|
  {
    if |fs| == 0 then caps == [] && EndAt(s, i)
    else
      match fs[0]
      case Lit(t) =>
        i + 1 + |t| <= |s| && s[i..i + 1 + |t|] == "/" + t && Parses(fs[1..], s, i + 1 + |t|, caps)
      case Req(_) =>
        |caps| > 0 && caps[0].Some? && |caps[0].value| >= 1
        && i < |s| && s[i] == '/' && BodyAt(s, i + 1, caps[0].value, '/')
        && Parses(fs[1..], s, i + 1 + |caps[0].value|, caps[1..])
      case Opt(_) =>
        |caps| > 0
        && (caps[0].None? ==> Parses(fs[1..], s, i, caps[1..]))
        && (caps[0].Some? ==>
              |caps[0].value| >= 1 && i < |s| && s[i] == '/' && BodyAt(s, i + 1, caps[0].value, '/')
              && Parses(fs[1..], s, i + 1 + |caps[0].value|, caps[1..]))
      case Wild =>
        |caps| > 0 && caps[0].Some?
        && i < |s| && s[i] == '/' && BodyAt(s, i + 1, caps[0].value, '\n')
        && Parses(fs[1..], s, i + 1 + |caps[0].value|, caps[1..])
  }

  /** Soundness: whatever the search returns is a parse. */
  lemma {:induction false} MatchAtSound(fs: seq<Frag>, s: string, i: nat)
    requires i <= |s|
    ensures MatchAt(fs, s, i).Some? ==> Parses(fs, s, i, MatchAt(fs, s, i).value)
    decreases |fs|, 2, 0
  {
    if |fs| > 0 {
      if fs[0].Lit? {
        LitSound(fs, s, i);
      } else if fs[0].Opt? {
        OptSound(fs, s, i);
      } else {
        GroupSound(fs, s, i);
      }
    }
  }

  lemma {:induction false} LitSound(fs: seq<Frag>, s: string, i: nat)
    requires i <= |s| && |fs| > 0 && fs[0].Lit?
    ensures MatchAt(fs, s, i).Some? ==> Parses(fs, s, i, MatchAt(fs, s, i).value)
    decreases |fs|, 1, 0
  {
    var j := i + 1 + |fs[0].text|;
    if j <= |s| {
      MatchAtSound(fs[1..], s, j);
    }
  }

  /** A required placeholder or the wildcard: the group must take part. */
  lemma {:induction false} GroupSound(fs: seq<Frag>, s: string, i: nat)
    requires i <= |s| && |fs| > 0 && (fs[0].Req? || fs[0].Wild?)
    ensures MatchAt(fs, s, i).Some? ==> Parses(fs, s, i, MatchAt(fs, s, i).value)
    decreases |fs|, 1, 0
  {
    if i < |s| && s[i] == '/' {
      if fs[0].Req? {
        TryLenSound(fs, s, i + 1, Run(s, i + 1, '/'), 1, '/');
      } else {
        TryLenSound(fs, s, i + 1, Run(s, i + 1, '\n'), 0, '\n');
      }
    }
  }

  /** An optional placeholder: the group is tried first, then skipped. */
  lemma {:induction false} OptSound(fs: seq<Frag>, s: string, i: nat)
    requires i <= |s| && |fs| > 0 && fs[0].Opt?
    ensures MatchAt(fs, s, i).Some? ==> Parses(fs, s, i, MatchAt(fs, s, i).value)
    decreases |fs|, 1, 0
  {
    if i < |s| && s[i] == '/' {
      TryLenSound(fs, s, i + 1, Run(s, i + 1, '/'), 1, '/');
    }
    MatchAtSound(fs[1..], s, i);
    var r := MatchAt(fs[1..], s, i);
    if r.Some? {
      assert ([None] + r.value)[1..] == r.value;
    }
  }

  lemma {:induction false} TryLenSound(fs: seq<Frag>, s: string, start: nat, n: nat, lo: nat, stop: char)
    requires |fs| > 0 && start + n <= |s|
    requires forall k :: start <= k < start + n ==> s[k] != stop
    ensures var r := TryLen(fs, s, start, n, lo);
      r.Some? ==>
        |r.value| > 0 && r.value[0].Some? && lo <= |r.value[0].value|
        && BodyAt(s, start, r.value[0].value, stop)
        && Parses(fs[1..], s, start + |r.value[0].value|, r.value[1..])
    decreases |fs|, 0, n
  {
    if n >= lo {
      var m := MatchAt(fs[1..], s, start + n);
      MatchAtSound(fs[1..], s, start + n);
      if m.Some? {
        var c := [Some(s[start..start + n])] + m.value;
        assert c[1..] == m.value;
        SliceAvoids(s, start, start + n, stop);
      } else if n > 0 {
        TryLenSound(fs, s, start, n - 1, lo, stop);
      }
    }
  }

  /** Completeness: if any parse exists, the search finds one. */
  lemma {:induction false} MatchAtComplete(fs: seq<Frag>, s: string, i: nat, caps: Captures)
    requires i <= |s|
    requires Parses(fs, s, i, caps)
    ensures MatchAt(fs, s, i).Some?
    decreases |fs|, 1, 0
  {
    if |fs| > 0 {
      match fs[0]
      case Lit(t) =>
        MatchAtComplete(fs[1..], s, i + 1 + |t|, caps);
      case Req(_) =>
        var v := caps[0].value;
        MatchAtComplete(fs[1..], s, i + 1 + |v|, caps[1..]);
        BodyRun(s, i + 1, v, '/');
        TryLenComplete(fs, s, i + 1, Run(s, i + 1, '/'), 1, |v|);
      case Opt(_) =>
        if caps[0].Some? {
          var v := caps[0].value;
          MatchAtComplete(fs[1..], s, i + 1 + |v|, caps[1..]);
          BodyRun(s, i + 1, v, '/');
          TryLenComplete(fs, s, i + 1, Run(s, i + 1, '/'), 1, |v|);
        } else {
          MatchAtComplete(fs[1..], s, i, caps[1..]);
        }
      case Wild =>
        var v := caps[0].value;
        MatchAtComplete(fs[1..], s, i + 1 + |v|, caps[1..]);
        BodyRun(s, i + 1, v, '\n');
        TryLenComplete(fs, s, i + 1, Run(s, i + 1, '\n'), 0, |v|);
    }
  }

  lemma BodyRun(s: string, j: nat, v: string, stop: char)
    requires j <= |s| && BodyAt(s, j, v, stop)
    ensures |v| <= Run(s, j, stop)
  {
    forall k | j <= k < j + |v| ensures s[k] != stop {
      assert s[k] == v[k - j];
    }
    RunBound(s, j, stop, |v|);
  }

  lemma {:induction false} TryLenComplete(fs: seq<Frag>, s: string, start: nat, n: nat, lo: nat, m: nat)
    requires |fs| > 0 && start + n <= |s|
    requires lo <= m <= n
    requires MatchAt(fs[1..], s, start + m).Some?
    ensures TryLen(fs, s, start, n, lo).Some?
    decreases n
  {
    if n > m && MatchAt(fs[1..], s, start + n).None? {
      TryLenComplete(fs, s, start, n - 1, lo, m);
    }
  }

  /** The search succeeds exactly when a parse exists. */
  lemma MatchIffParses(fs: seq<Frag>, s: string)
    ensures Match(fs, s).Some? ==> Parses(fs, s, 0, Match(fs, s).value)
    ensures (exists caps :: Parses(fs, s, 0, caps)) ==> Match(fs, s).Some?
  {
    MatchAtSound(fs, s, 0);
    if Match(fs, s).Some? {
      var c := Match(fs, s).value;
      assert Parses(fs, s, 0, c);
    }
    if exists caps :: Parses(fs, s, 0, caps) {
      var caps :| Parses(fs, s, 0, caps);
      MatchAtComplete(fs, s, 0, caps);
    }
  }

  // ---------------------------------------------------------------
  // Which patterns PCRE accepts at all
  // ---------------------------------------------------------------

  function GroupNames(fs: seq<Frag>): seq<string> {
    if |fs| == 0 then []
    else (if fs[0].Captures() then [fs[0].GroupName()] else []) + GroupNames(fs[1..])
  }

  /**
   * PCRE refuses to compile a pattern with two groups of the same name or
   * a group name that starts with a digit; `preg_match` then warns and
   * returns false.
   */
  predicate Compiles(fs: seq<Frag>) {
    var names := GroupNames(fs);
    && (forall i, j :: 0 <= i < j < |names| ==> names[i] != names[j])
    && (forall i :: 0 <= i < |names| ==> |names[i]| > 0 && !IsDigit(names[i][0]))
  }

  /**
   * The named entries PHP puts in `$matches`: every group up to the last
   * one that took part, with "" for a group that did not; trailing groups
   * that did not take part are left out.
   */
  function NamedParams(fs: seq<Frag>, caps: Captures): seq<(string, string)> {
    var names := GroupNames(fs);
    var last := LastSet(caps);
    var n := if last < |names| then last else |names|;
    seq(n, k requires 0 <= k < n => (names[k], if k < |caps| && caps[k].Some? then caps[k].value else ""))
  }

  /** 1 + index of the last Some in `caps`, or 0. */
  function LastSet(caps: Captures): (n: nat)
    ensures n <= |caps|
    ensures n > 0 ==> caps[n - 1].Some?
    ensures forall k :: n <= k < |caps| ==> caps[k].None?
  {
    if |caps| == 0 then 0
    else if caps[|caps| - 1].Some? then |caps|
    else LastSet(caps[..|caps| - 1])
  }

  // ---------------------------------------------------------------
  // Regex text: what the cache file stores as 'pattern'
  // ---------------------------------------------------------------

  /** The characters `preg_quote` escapes (PHP >= 7.3, '#' included). */
  predicate QuoteMeta(c: char) {
    c in ".\\+*?[^]$(){}=!<>|:-#"
  }

  /** `preg_quote(s, '#')`. */
  function PregQuote(s: string): (r: string)
    ensures |r| >= |s|
  {
    if |s| == 0 then ""
    else if s[0] == '\0' then "\\000" + PregQuote(s[1..])
    else if QuoteMeta(s[0]) then ['\\', s[0]] + PregQuote(s[1..])
    else [s[0]] + PregQuote(s[1..])
  }

  /** Reads an escaped literal back; the partner of PregQuote. */
  function Unquote(r: string): string
    decreases |r|
  {
    if |r| == 0 then ""
    else if r[0] == '\\' && |r| >= 4 && r[1..4] == "000" then "\0" + Unquote(r[4..])
    else if r[0] == '\\' && |r| >= 2 then [r[1]] + Unquote(r[2..])
    else [r[0]] + Unquote(r[1..])
  }

  lemma {:induction false} UnquotePregQuote(s: string)
    ensures Unquote(PregQuote(s)) == s
  {
    if |s| > 0 {
      UnquotePregQuote(s[1..]);
      var q := PregQuote(s);
      if s[0] == '\0' {
        assert q == "\\000" + PregQuote(s[1..]);
        assert q[4..] == PregQuote(s[1..]);
      } else if QuoteMeta(s[0]) {
        assert q[2..] == PregQuote(s[1..]);
        assert s[0] != '0';
      } else {
        assert q[1..] == PregQuote(s[1..]);
        assert s == [s[0]] + s[1..];
      }
    }
  }

  function FragText(f: Frag): string {
    match f
    case Lit(t) => "/" + PregQuote(t)
    case Req(n) => "/(?P<" + n + ">[^/]+)"
    case Opt(n) => "(?:/(?P<" + n + ">[^/]+))?"
    case Wild => "/(?P<wildcard>.*)"
  }

  function FragsText(fs: seq<Frag>): string {
    if |fs| == 0 then "" else FragText(fs[0]) + FragsText(fs[1..])
  }

  /** The delimited pattern string: '#^' + fragments in order + '/?$#'. */
  function Render(fs: seq<Frag>): (r: string)
    ensures StartsWith(r, "#^") && EndsWith(r, "/?$#")
  {
    "#^" + FragsText(fs) + "/?$#"
  }

  lemma {:induction false} FragsTextAppend(a: seq<Frag>, b: seq<Frag>)
    ensures FragsText(a + b) == FragsText(a) + FragsText(b)
  {
    if |a| == 0 {
      assert a + b == b;
    } else {
      assert (a + b)[1..] == a[1..] + b;
      FragsTextAppend(a[1..], b);
    }
  }
}
