/**
 * Shared vocabulary: an Option type and the PHP string primitives the
 * routing core is written with (explode/implode, trim, strtoupper,
 * substr_count, str_replace, integer casts). Strings are PHP byte strings:
 * each `char` holds one byte.
 */
module Base {

  datatype Option<+T> = None | Some(value: T) {
    function GetOr(default: T): T {
      match this
      case Some(v) => v
      case None => default
    }
  }

  /**
   * A computation that may stop the request: at run time every PHP
   * warning, uncaught exception or TypeError ends in the error page.
   */
  datatype Result<+T> = Ok(value: T) | Fault(reason: string)

  /**
   * How a request stops early. Every renderer ends with `exit`, so a Halt
   * is final. `safe` records that it went through nexi_render_error_safe
   * rather than nexi_render_error.
   */
  datatype Halt = Halt(code: int, title: string, message: string, safe: bool)

  /** A step of the request that either finishes or halts it. */
  datatype Flow<+T> = Done(value: T) | Stopped(halt: Halt)

  /** nexi_error_handler: a PHP warning becomes a 500 page. */
  function WarningHalt(message: string): Halt {
    Halt(500, "Server Error - Critical", message, false)
  }

  /** nexi_exception_handler: an uncaught Throwable becomes a 500 page. */
  function ExceptionHalt(message: string): Halt {
    Halt(500, "Unhandled exception (Eccezione non gestita)[nexi]", message, false)
  }

  function FaultHalt<T>(r: Result<T>): Halt
    requires r.Fault?
  {
    WarningHalt(r.reason)
  }

  /** A foreach whose body may halt: the first halt ends the loop. */
  function Collect<T>(fs: seq<Flow<T>>): Flow<seq<T>>
    decreases |fs|
  {
    if |fs| == 0 then Done([])
    else if fs[0].Stopped? then Stopped(fs[0].halt)
    else
      match Collect(fs[1..])
      case Stopped(h) => Stopped(h)
      case Done(vs) => Done([fs[0].value] + vs)
  }

  /** No halt: every step's value, in order. */
  lemma {:induction false} CollectDone<T>(fs: seq<Flow<T>>)
    ensures Collect(fs).Done? <==> forall i :: 0 <= i < |fs| ==> fs[i].Done?
    ensures Collect(fs).Done? ==> |Collect(fs).value| == |fs|
    ensures Collect(fs).Done? ==> forall i :: 0 <= i < |fs| ==> fs[i] == Done(Collect(fs).value[i])
    decreases |fs|
  {
    if |fs| > 0 {
      CollectDone(fs[1..]);
      assert forall i :: 1 <= i < |fs| ==> fs[1..][i - 1] == fs[i];
    }
  }

  /** Some halt: the result is the first one, whatever follows it. */
  lemma {:induction false} CollectFirstHalt<T>(fs: seq<Flow<T>>, i: nat)
    requires i < |fs| && fs[i].Stopped?
    requires forall j :: 0 <= j < i ==> fs[j].Done?
    ensures Collect(fs) == Stopped(fs[i].halt)
    decreases i
  {
    if i > 0 {
      assert forall j :: 0 <= j < i - 1 ==> fs[1..][j] == fs[j + 1];
      assert fs[1..][i - 1] == fs[i];
      CollectFirstHalt(fs[1..], i - 1);
    }
  }
}

module Text {
  import opened Base

  predicate StartsWith(s: string, p: string) {
    |p| <= |s| && s[..|p|] == p
  }

  predicate EndsWith(s: string, p: string) {
    |p| <= |s| && s[|s| - |p|..] == p
  }

  /** `str_contains`: `sub` occurs somewhere in `s`. */
  predicate Contains(s: string, sub: string)
    decreases |s|
  {
    StartsWith(s, sub) || (|s| > 0 && Contains(s[1..], sub))
  }

  predicate HasChar(s: string, c: char) {
    c in s
  }

  /** `substr_count` for a one-character needle. */
  function CountChar(s: string, c: char): (n: nat)
    ensures n <= |s|
    ensures n == 0 <==> c !in s
  {
    if |s| == 0 then 0
    else (if s[0] == c then 1 else 0) + CountChar(s[1..], c)
  }

  lemma {:induction false} CountCharAppend(a: string, b: string, c: char)
    ensures CountChar(a + b, c) == CountChar(a, c) + CountChar(b, c)
  {
    if |a| == 0 {
      assert a + b == b;
    } else {
      assert (a + b)[1..] == a[1..] + b;
      CountCharAppend(a[1..], b, c);
    }
  }

  // ---------------------------------------------------------------
  // explode / implode with a one-character delimiter
  // ---------------------------------------------------------------

  /** `explode(d, s)`: always at least one piece; no piece contains `d`. */
  function Split(s: string, d: char): (parts: seq<string>)
    ensures |parts| >= 1
    ensures forall i :: 0 <= i < |parts| ==> d !in parts[i]
    ensures |parts| == CountChar(s, d) + 1
    decreases |s|
  {
    if |s| == 0 then [""]
    else
      var rest := Split(s[1..], d);
      if s[0] == d then [""] + rest
      else [[s[0]] + rest[0]] + rest[1..]
  }

  /** `implode(sep, parts)`. */
  function Join(parts: seq<string>, sep: string): string
  {
    if |parts| == 0 then ""
    else if |parts| == 1 then parts[0]
    else parts[0] + sep + Join(parts[1..], sep)
  }

  /** implode(d, explode(d, s)) == s: the two are inverse. */
  lemma {:induction false} JoinSplit(s: string, d: char)
    ensures Join(Split(s, d), [d]) == s
    decreases |s|
  {
    if |s| > 0 {
      var rest := Split(s[1..], d);
      JoinSplit(s[1..], d);
      if s[0] == d {
        assert Split(s, d) == [""] + rest;
        assert s == [d] + s[1..];
      } else {
        assert Split(s, d) == [[s[0]] + rest[0]] + rest[1..];
        JoinHead(rest, [d], [s[0]]);
        assert [s[0]] + s[1..] == s;
      }
    }
  }

  /** Gluing `x` onto the first part glues it onto the whole text. */
  lemma JoinHead(parts: seq<string>, sep: string, x: string)
    requires |parts| >= 1
    ensures Join([x + parts[0]] + parts[1..], sep) == x + Join(parts, sep)
  {
    var ps := [x + parts[0]] + parts[1..];
    if |parts| > 1 {
      assert ps[1..] == parts[1..];
      assert Join(ps, sep) == (x + parts[0]) + sep + Join(parts[1..], sep);
      assert Join(parts, sep) == parts[0] + sep + Join(parts[1..], sep);
    }
  }

  lemma {:induction false} SplitNoDelim(s: string, d: char)
    requires d !in s
    ensures Split(s, d) == [s]
  {
    if |s| > 0 {
      assert d !in s[1..];
      SplitNoDelim(s[1..], d);
      assert s == [s[0]] + s[1..];
    }
  }

  /** A delimiter after a delimiter-free piece closes exactly that piece. */
  lemma {:induction false} SplitConcat(a: string, d: char, b: string)
    requires d !in a
    ensures Split(a + [d] + b, d) == [a] + Split(b, d)
    decreases |a|
  {
    var s := a + [d] + b;
    if |a| == 0 {
      assert s == [d] + b;
      assert s[1..] == b;
    } else {
      assert s[0] == a[0];
      assert s[1..] == a[1..] + [d] + b;
      assert d !in a[1..];
      SplitConcat(a[1..], d, b);
      assert [a[0]] + a[1..] == a;
    }
  }

  /** explode(d, implode(d, parts)) == parts when no part holds d. */
  lemma {:induction false} SplitJoin(parts: seq<string>, d: char)
    requires |parts| >= 1
    requires forall i :: 0 <= i < |parts| ==> d !in parts[i]
    ensures Split(Join(parts, [d]), d) == parts
    decreases |parts|
  {
    if |parts| == 1 {
      SplitNoDelim(parts[0], d);
    } else {
      SplitJoin(parts[1..], d);
      SplitConcat(parts[0], d, Join(parts[1..], [d]));
    }
  }

  /** How many `c` the parts hold together. */
  function SumCount(parts: seq<string>, c: char): nat {
    if |parts| == 0 then 0 else CountChar(parts[0], c) + SumCount(parts[1..], c)
  }

  /** Splitting on another character loses none of `c`. */
  lemma {:induction false} CountSplit(s: string, d: char, c: char)
    requires c != d
    ensures CountChar(s, c) == SumCount(Split(s, d), c)
    decreases |s|
  {
    if |s| > 0 {
      var rest := Split(s[1..], d);
      CountSplit(s[1..], d, c);
      if s[0] != d {
        var parts := Split(s, d);
        assert parts[0] == [s[0]] + rest[0] && parts[1..] == rest[1..];
        assert ([s[0]] + rest[0])[1..] == rest[0];
      } else {
        assert Split(s, d)[1..] == rest;
      }
    }
  }

  /** A text that does not start (end) with the delimiter has a non-empty first (last) part. */
  lemma {:induction false} SplitEnds(s: string, d: char)
    requires |s| > 0
    ensures s[0] != d ==> Split(s, d)[0] != ""
    ensures s[|s| - 1] != d ==> Split(s, d)[|Split(s, d)| - 1] != ""
    decreases |s|
  {
    var rest := Split(s[1..], d);
    if |s| > 1 {
      SplitEnds(s[1..], d);
      assert s[1..][|s[1..]| - 1] == s[|s| - 1];
    }
  }

  // ---------------------------------------------------------------
  // trim family
  // ---------------------------------------------------------------

  function LTrimChar(s: string, c: char): (r: string)
    ensures |r| <= |s| && r == s[|s| - |r|..]
    ensures |r| > 0 ==> r[0] != c
    ensures forall i :: 0 <= i < |s| - |r| ==> s[i] == c
  {
    if |s| > 0 && s[0] == c then LTrimChar(s[1..], c) else s
  }

  function RTrimChar(s: string, c: char): (r: string)
    ensures |r| <= |s| && r == s[..|r|]
    ensures |r| > 0 ==> r[|r| - 1] != c
    ensures forall i :: |r| <= i < |s| ==> s[i] == c
  {
    if |s| > 0 && s[|s| - 1] == c then RTrimChar(s[..|s| - 1], c) else s
  }

  /** `trim(s, c)` for a single character. */
  function TrimChar(s: string, c: char): (r: string)
    ensures |r| <= |s|
    ensures |r| > 0 ==> r[0] != c && r[|r| - 1] != c
    ensures c !in s ==> r == s
  {
    RTrimChar(LTrimChar(s, c), c)
  }

  lemma TrimCharNoop(s: string, c: char)
    requires |s| == 0 || (s[0] != c && s[|s| - 1] != c)
    ensures TrimChar(s, c) == s
  {
  }

  /** The characters PHP's `trim()` strips by default. */
  predicate TrimSpace(c: char) {
    c == ' ' || c == '\t' || c == '\n' || c == '\r' || c == '\0' || c == '\U{B}'
  }

  /** PCRE `\s`: space, \t, \n, \v, \f, \r. */
  predicate RegexSpace(c: char) {
    c == ' ' || c == '\t' || c == '\n' || c == '\U{B}' || c == '\U{C}' || c == '\r'
  }

  function TrimDefault(s: string): (r: string)
    ensures |r| <= |s|
    ensures |r| > 0 ==> !TrimSpace(r[0]) && !TrimSpace(r[|r| - 1])
    decreases |s|
  {
    if |s| > 0 && TrimSpace(s[0]) then TrimDefault(s[1..])
    else if |s| > 0 && TrimSpace(s[|s| - 1]) then TrimDefault(s[..|s| - 1])
    else s
  }

  lemma TrimDefaultNoop(s: string)
    requires |s| == 0 || (!TrimSpace(s[0]) && !TrimSpace(s[|s| - 1]))
    ensures TrimDefault(s) == s
  {
  }

  // ---------------------------------------------------------------
  // ASCII case mapping (PHP 8 strtoupper / strtolower)
  // ---------------------------------------------------------------

  function UpperChar(c: char): char {
    if 'a' <= c <= 'z' then (c as int - 32) as char else c
  }

  function LowerChar(c: char): char {
    if 'A' <= c <= 'Z' then (c as int + 32) as char else c
  }

  function Upper(s: string): (r: string)
    ensures |r| == |s|
    ensures forall i :: 0 <= i < |s| ==> r[i] == UpperChar(s[i])
  {
    if |s| == 0 then "" else [UpperChar(s[0])] + Upper(s[1..])
  }

  function Lower(s: string): (r: string)
    ensures |r| == |s|
    ensures forall i :: 0 <= i < |s| ==> r[i] == LowerChar(s[i])
  {
    if |s| == 0 then "" else [LowerChar(s[0])] + Lower(s[1..])
  }

  lemma UpperIdempotent(s: string)
    ensures Upper(Upper(s)) == Upper(s)
  {
    assert forall i :: 0 <= i < |s| ==> UpperChar(UpperChar(s[i])) == UpperChar(s[i]);
  }

  // ---------------------------------------------------------------
  // Decimal integers
  // ---------------------------------------------------------------

  predicate IsDigit(c: char) {
    '0' <= c <= '9'
  }

  /** The regex class `[a-zA-Z0-9_]` used for aliases and placeholder names. */
  predicate NameChar(c: char) {
    'a' <= c <= 'z' || 'A' <= c <= 'Z' || IsDigit(c) || c == '_'
  }

  /** Length of the longest run of name characters starting at `i`. */
  function NameRun(s: string, i: nat): (n: nat)
    requires i <= |s|
    ensures i + n <= |s|
    ensures forall k :: i <= k < i + n ==> NameChar(s[k])
    ensures i + n < |s| ==> !NameChar(s[i + n])
    decreases |s| - i
  {
    if i < |s| && NameChar(s[i]) then 1 + NameRun(s, i + 1) else 0
  }

  function DigitChar(d: nat): char
    requires d < 10
  {
    ('0' as int + d) as char
  }

  function NatToString(n: nat): (s: string)
    ensures |s| >= 1
    ensures forall i :: 0 <= i < |s| ==> IsDigit(s[i])
    decreases n
  {
    if n < 10 then [DigitChar(n)] else NatToString(n / 10) + [DigitChar(n % 10)]
  }

  /** PHP's "$n" for an int. */
  function IntToString(n: int): (s: string)
    ensures |s| >= 1
    ensures n < 0 <==> s[0] == '-'
  {
    if n < 0 then "-" + NatToString(-n) else NatToString(n)
  }

  function DigitsValue(s: string): nat
    requires forall i :: 0 <= i < |s| ==> IsDigit(s[i])
  {
    if |s| == 0 then 0
    else
      assert IsDigit(s[|s| - 1]);
      DigitsValue(s[..|s| - 1]) * 10 + (s[|s| - 1] as int - '0' as int)
  }

  /** Reading back the decimal text of `n` gives `n`. */
  lemma {:induction false} DigitsValueNatToString(n: nat)
    ensures DigitsValue(NatToString(n)) == n
    decreases n
  {
    if n >= 10 {
      var s := NatToString(n);
      assert s[..|s| - 1] == NatToString(n / 10);
      DigitsValueNatToString(n / 10);
    }
  }

  /** Length of the longest prefix of `s` made of digits. */
  function DigitRun(s: string): (n: nat)
    ensures n <= |s|
    ensures forall i :: 0 <= i < n ==> IsDigit(s[i])
    ensures n < |s| ==> !IsDigit(s[n])
  {
    if |s| > 0 && IsDigit(s[0]) then 1 + DigitRun(s[1..]) else 0
  }

  /**
   * PHP's `(int)` cast of a string, for the decimal forms: optional leading
   * whitespace, an optional sign, then the longest digit run; no digits
   * gives 0.
   */
  function IntCast(s: string): (r: int)
    ensures |s| == 0 ==> r == 0
    ensures |s| > 0 && !RegexSpace(s[0]) && !IsDigit(s[0]) && s[0] != '-' && s[0] != '+' ==> r == 0
  {
    var t := SkipLeadingSpace(s);
    var neg := |t| > 0 && t[0] == '-';
    var u := if |t| > 0 && (t[0] == '-' || t[0] == '+') then t[1..] else t;
    var n := DigitRun(u);
    var v: int := DigitsValue(u[..n]);
    if neg then -v else v
  }

  /** Drops the leading run of `\s` characters (the same set leads a numeric string). */
  function SkipLeadingSpace(s: string): (r: string)
    ensures |r| <= |s| && r == s[|s| - |r|..]
    ensures |r| > 0 ==> !RegexSpace(r[0])
  {
    if |s| > 0 && RegexSpace(s[0]) then SkipLeadingSpace(s[1..]) else s
  }

  /** A sign before the digits: '-' negates the value and '+' leaves it. */
  lemma IntCastSign(t: string)
    requires |t| > 0 && IsDigit(t[0])
    ensures IntCast("-" + t) == -IntCast(t)
    ensures IntCast("+" + t) == IntCast(t)
  {
    SkipNoSpace(t);
    assert SkipLeadingSpace("-" + t) == "-" + t;
    assert SkipLeadingSpace("+" + t) == "+" + t;
    assert ("-" + t)[1..] == t;
    assert ("+" + t)[1..] == t;
  }

  lemma IntCastOfNatText(n: nat)
    ensures IntCast(NatToString(n)) == n
  {
    var s := NatToString(n);
    assert IsDigit(s[0]);
    SkipNoSpace(s);
    IntCastOfDigits(s);
    DigitsValueNatToString(n);
  }

  /** PHP's "$n" casts back to n, negative or not. */
  lemma IntCastOfIntText(n: int)
    ensures IntCast(IntToString(n)) == n
  {
    if n >= 0 {
      IntCastOfNatText(n);
    } else {
      var d := NatToString(-n);
      var s := IntToString(n);
      assert s == "-" + d && s[1..] == d;
      assert SkipLeadingSpace(s) == s;
      DigitRunAllDigits(d);
      assert d[..|d|] == d;
      DigitsValueNatToString(-n);
    }
  }

  lemma SkipNoSpace(s: string)
    requires |s| > 0 && IsDigit(s[0])
    ensures SkipLeadingSpace(s) == s
  {
  }

  /** A digit string casts to its value. */
  lemma IntCastOfDigits(s: string)
    requires |s| > 0 && forall i :: 0 <= i < |s| ==> IsDigit(s[i])
    requires SkipLeadingSpace(s) == s
    ensures IntCast(s) == DigitsValue(s)
  {
    DigitRunAllDigits(s);
    assert s[..|s|] == s;
  }

  lemma {:induction false} DigitRunAllDigits(s: string)
    requires forall i :: 0 <= i < |s| ==> IsDigit(s[i])
    ensures DigitRun(s) == |s|
  {
    if |s| > 0 {
      DigitRunAllDigits(s[1..]);
    }
  }

  // ---------------------------------------------------------------
  // str_replace (all occurrences, left to right, non-overlapping)
  // ---------------------------------------------------------------

  function ReplaceAll(s: string, from: string, to: string): (r: string)
    decreases |s|
  {
    if |from| == 0 then s
    else if |s| < |from| then s
    else if s[..|from|] == from then
      var rest := ReplaceAll(s[|from|..], from, to);
      to + rest
    else
      var rest := ReplaceAll(s[1..], from, to);
      [s[0]] + rest
  }

  /** With no occurrence of `from`, str_replace changes nothing. */
  lemma {:induction false} ReplaceAllAbsent(s: string, from: string, to: string)
    requires |from| > 0 && !Contains(s, from)
    ensures ReplaceAll(s, from, to) == s
    decreases |s|
  {
    if |s| >= |from| {
      ReplaceAllAbsent(s[1..], from, to);
      assert [s[0]] + s[1..] == s;
    }
  }

  /** A first character that cannot open `from` is copied and the scan moves on. */
  lemma ReplaceAllSkip(s: string, from: string, to: string)
    requires |from| > 0 && |s| > 0 && s[0] != from[0]
    ensures ReplaceAll(s, from, to) == [s[0]] + ReplaceAll(s[1..], from, to)
  {
    if |s| < |from| {
      assert [s[0]] + s[1..] == s;
    } else {
      assert s[..|from|][0] == s[0];
    }
  }

  lemma ShorterNeverContains(s: string, sub: string)
    requires |s| < |sub|
    ensures !Contains(s, sub)
    decreases |s|
  {
    if |s| > 0 {
      ShorterNeverContains(s[1..], sub);
    }
  }
}
