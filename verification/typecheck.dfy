/**
 * validate_type: the checks a typed placeholder's captured value must
 * pass. Each regex is one character class repeated, anchored with `^`
 * and `$`; as everywhere in PCRE without the D modifier, `$` also accepts
 * a single final "\n", which the class itself never contains.
 */
module TypeCheck {
  import opened Text
  import opened Pcre

  datatype CharClass =
    | Word        // [a-zA-Z0-9\-_]
    | LowerDash   // [a-z\-]
    | UpperDash   // [A-Z\-]
    | Slug        // [a-z0-9\-]
    | HexDash     // [a-f0-9\-] under /i
    | Ident       // [A-Za-z0-9_\.], the ORM's identifier check

  predicate Lower(c: char) { 'a' <= c <= 'z' }
  predicate UpperCase(c: char) { 'A' <= c <= 'Z' }

  predicate InClass(k: CharClass, c: char) {
    match k
    case Word => Lower(c) || UpperCase(c) || IsDigit(c) || c == '-' || c == '_'
    case LowerDash => Lower(c) || c == '-'
    case UpperDash => UpperCase(c) || c == '-'
    case Slug => Lower(c) || IsDigit(c) || c == '-'
    case HexDash => ('a' <= c <= 'f') || ('A' <= c <= 'F') || IsDigit(c) || c == '-'
    case Ident => Lower(c) || UpperCase(c) || IsDigit(c) || c == '_' || c == '.'
  }

  lemma NewlineInNoClass(k: CharClass)
    ensures !InClass(k, '\n')
  {
  }

  /** How far the class repeats from `i` (the greedy `+`). */
  function ClassRun(s: string, i: nat, k: CharClass): (n: nat)
    requires i <= |s|
    ensures i + n <= |s|
    ensures forall j :: i <= j < i + n ==> InClass(k, s[j])
    ensures i + n < |s| ==> !InClass(k, s[i + n])
    decreases |s| - i
  {
    if i < |s| && InClass(k, s[i]) then 1 + ClassRun(s, i + 1, k) else 0
  }

  /** `preg_match('/^[class]+$/', s)`. */
  predicate PlusMatch(s: string, k: CharClass) {
    ClassRun(s, 0, k) >= 1 && DollarAt(s, ClassRun(s, 0, k))
  }

  /** `preg_match('/^[class]{n}$/', s)`. */
  predicate ExactMatch(s: string, k: CharClass, n: nat) {
    ClassRun(s, 0, k) == n && DollarAt(s, n)
  }

  /** `(?!\d+$)` at the start. */
  predicate AllDigitsAhead(s: string) {
    DigitRun(s) >= 1 && DollarAt(s, DigitRun(s))
  }

  /** `ctype_digit`: a non-empty string of decimal digits. */
  predicate CtypeDigit(s: string) {
    |s| >= 1 && forall i :: 0 <= i < |s| ==> IsDigit(s[i])
  }

  predicate IsBoolWord(s: string) {
    Text.Lower(s) == "true" || Text.Lower(s) == "false"
  }

  /** validate_type; `isNumeric` stands for PHP's is_numeric. */
  predicate ValidateType(typ: string, v: string, isNumeric: string -> bool) {
    if typ == "int" then CtypeDigit(v)
    else if typ == "dbl" then isNumeric(v)
    else if typ == "string" then !AllDigitsAhead(v) && PlusMatch(v, Word)
    else if typ == "string-lower" then PlusMatch(v, LowerDash)
    else if typ == "string-upper" then PlusMatch(v, UpperDash)
    else if typ == "bool" then IsBoolWord(v)
    else if typ == "slug" then PlusMatch(v, Slug)
    else if typ == "uuid" then ExactMatch(v, HexDash, 36)
    else false
  }

  // ---------------------------------------------------------------
  // Reference reading: the value without its optional final "\n"
  // ---------------------------------------------------------------

  function Body(s: string): (b: string)
    ensures |b| <= |s| && b == s[..|b|]
  {
    if |s| > 0 && s[|s| - 1] == '\n' then s[..|s| - 1] else s
  }

  predicate AllIn(s: string, k: CharClass) {
    forall i :: 0 <= i < |s| ==> InClass(k, s[i])
  }

  lemma {:induction false} ClassRunAll(s: string, i: nat, k: CharClass)
    requires i <= |s|
    requires forall j :: i <= j < |s| ==> InClass(k, s[j])
    ensures ClassRun(s, i, k) == |s| - i
    decreases |s| - i
  {
    if i < |s| {
      ClassRunAll(s, i + 1, k);
    }
  }

  /** The regex test is exactly "the body is non-empty and all in the class". */
  lemma PlusMatchMeans(s: string, k: CharClass)
    ensures PlusMatch(s, k) <==> |Body(s)| >= 1 && AllIn(Body(s), k)
  {
    NewlineInNoClass(k);
    var b := Body(s);
    if |b| >= 1 && AllIn(b, k) {
      ClassRunAll(b, 0, k);
      assert forall j :: 0 <= j < |b| ==> s[j] == b[j];
      if |b| < |s| {
        assert s[|b|] == '\n';
      }
      assert ClassRun(s, 0, k) == |b|;
    }
    if PlusMatch(s, k) {
      var n := ClassRun(s, 0, k);
      assert b == s[..n];
    }
  }

  lemma ExactMatchMeans(s: string, k: CharClass, n: nat)
    ensures ExactMatch(s, k, n) <==> |Body(s)| == n && AllIn(Body(s), k)
  {
    NewlineInNoClass(k);
    var b := Body(s);
    if |b| == n && AllIn(b, k) {
      ClassRunAll(b, 0, k);
      assert forall j :: 0 <= j < |b| ==> s[j] == b[j];
      if |b| < |s| {
        assert s[|b|] == '\n';
      }
      assert ClassRun(s, 0, k) == |b|;
    }
    if ExactMatch(s, k, n) {
      assert b == s[..n];
    }
  }

  lemma {:induction false} DigitRunPrefix(s: string, m: nat)
    requires m <= |s|
    requires forall j :: 0 <= j < m ==> IsDigit(s[j])
    requires m == |s| || !IsDigit(s[m])
    ensures DigitRun(s) == m
    decreases m
  {
    if m > 0 {
      DigitRunPrefix(s[1..], m - 1);
    }
  }

  /** The lookahead rejects exactly the values whose body is all digits. */
  lemma AllDigitsAheadMeans(s: string)
    ensures AllDigitsAhead(s) <==> CtypeDigit(Body(s))
  {
    var b := Body(s);
    if CtypeDigit(b) {
      DigitRunPrefix(s, |b|);
    }
    if AllDigitsAhead(s) {
      assert b == s[..DigitRun(s)];
    }
  }

  /** What each type name accepts; an unknown name accepts nothing. */
  lemma ValidateTypeMeans(typ: string, v: string, isNumeric: string -> bool)
    ensures typ == "int" ==> (ValidateType(typ, v, isNumeric) <==> CtypeDigit(v))
    ensures typ == "dbl" ==> (ValidateType(typ, v, isNumeric) <==> isNumeric(v))
    ensures typ == "string" ==> (ValidateType(typ, v, isNumeric) <==>
      |Body(v)| >= 1 && AllIn(Body(v), Word) && !CtypeDigit(Body(v)))
    ensures typ == "string-lower" ==> (ValidateType(typ, v, isNumeric) <==> |Body(v)| >= 1 && AllIn(Body(v), LowerDash))
    ensures typ == "string-upper" ==> (ValidateType(typ, v, isNumeric) <==> |Body(v)| >= 1 && AllIn(Body(v), UpperDash))
    ensures typ == "bool" ==> (ValidateType(typ, v, isNumeric) <==> Text.Lower(v) in {"true", "false"})
    ensures typ == "slug" ==> (ValidateType(typ, v, isNumeric) <==> |Body(v)| >= 1 && AllIn(Body(v), Slug))
    ensures typ == "uuid" ==> (ValidateType(typ, v, isNumeric) <==> |Body(v)| == 36 && AllIn(Body(v), HexDash))
    ensures typ !in {"int", "dbl", "string", "string-lower", "string-upper", "bool", "slug", "uuid"} ==>
      !ValidateType(typ, v, isNumeric)
  {
    PlusMatchMeans(v, Word);
    PlusMatchMeans(v, LowerDash);
    PlusMatchMeans(v, UpperDash);
    PlusMatchMeans(v, Slug);
    ExactMatchMeans(v, HexDash, 36);
    AllDigitsAheadMeans(v);
  }
}
