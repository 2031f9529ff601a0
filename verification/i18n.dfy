/**
 * nexi_i18n: the dot-flattening of a locale section and the Laravel-style
 * plural choice over the flattened strings.
 */
module I18n {
  import opened Base
  import opened Text
  import opened Php
  import TypeCheck

  // ---------------------------------------------------------------
  // flatten
  // ---------------------------------------------------------------

  /** `array_merge` of arrays with string keys: later entries overwrite in place or append. */
  function Merge(a: Entries, b: Entries): Entries
    decreases |b|
  {
    if |b| == 0 then a
    else Merge(Put(a, b[0].0, b[0].1), b[1..])
  }

  /** The merged array has exactly the keys of both. */
  lemma {:induction false} MergeKeys(a: Entries, b: Entries, k: string)
    ensures HasKey(Merge(a, b), k) <==> HasKey(a, k) || HasKey(b, k)
    decreases |b|
  {
    if |b| > 0 {
      HasKeyCons(b, k);
      MergeKeys(Put(a, b[0].0, b[0].1), b[1..], k);
      assert HasKey(Put(a, b[0].0, b[0].1), k) <==> HasKey(a, k) || k == b[0].0 by {
        assert Lookup(Put(a, b[0].0, b[0].1), b[0].0).Some?;
        if k != b[0].0 {
          assert Lookup(Put(a, b[0].0, b[0].1), k) == Lookup(a, k);
        }
      }
    }
  }

  /** The flattened entries of `v`'s entries i.., added to `out`. */
  function FlatFrom(p: string, v: Val, i: nat, out: Entries): Entries
    requires v.Arr? && i <= |v.es|
    decreases v, |v.es| - i
  {
    if i == |v.es| then out else FlatFrom(p, v, i + 1, Next(p, v, i, out))
  }

  /** `flatten($prefix, $arr)`. */
  function Flatten(p: string, v: Val): Entries
    requires v.Arr?
    decreases v, |v.es| + 1
  {
    FlatFrom(p, v, 0, [])
  }

  /** The key and value of one scalar leaf of `v`, reached through entry i. */
  ghost predicate EntryLeaf(p: string, v: Val, i: nat, key: string, x: Val)
    requires v.Arr? && i < |v.es|
    decreases v, 0
  {
    var y := v.es[i].1;
    var kp := p + "." + v.es[i].0;
    if y.Arr? then IsLeaf(kp, y, key, x) else key == kp && x == y
  }

  /** `key` is "p.k1.….kn" for a path to the non-array leaf x. */
  ghost predicate IsLeaf(p: string, v: Val, key: string, x: Val)
    requires v.Arr?
    decreases v, 1
  {
    exists i :: 0 <= i < |v.es| && EntryLeaf(p, v, i, key, x)
  }

  lemma LeafIsScalar(p: string, v: Val, key: string, x: Val)
    requires v.Arr? && IsLeaf(p, v, key, x)
    ensures !x.Arr?
    decreases v
  {
    var i :| 0 <= i < |v.es| && EntryLeaf(p, v, i, key, x);
    if v.es[i].1.Arr? {
      LeafIsScalar(p + "." + v.es[i].0, v.es[i].1, key, x);
    }
  }

  lemma {:induction false} MergeMember(a: Entries, b: Entries, e: (string, Val))
    requires e in Merge(a, b)
    ensures e in a || e in b
    decreases |b|
  {
    if |b| > 0 {
      MergeMember(Put(a, b[0].0, b[0].1), b[1..], e);
      if e in Put(a, b[0].0, b[0].1) {
        PutMember(a, b[0].0, b[0].1, e);
      }
    }
  }

  /** What flatten's loop holds after entry i. */
  function Next(p: string, v: Val, i: nat, out: Entries): Entries
    requires v.Arr? && i < |v.es|
    decreases v, 0
  {
    var y := v.es[i].1;
    var kp := p + "." + v.es[i].0;
    if y.Arr? then Merge(out, Flatten(kp, y)) else Put(out, kp, y)
  }

  /** One step of the loop adds only leaves reached through entry i. */
  lemma NextSound(p: string, v: Val, i: nat, out: Entries, e: (string, Val))
    requires v.Arr? && i < |v.es| && e in Next(p, v, i, out)
    ensures e in out || EntryLeaf(p, v, i, e.0, e.1)
    decreases v, 0
  {
    var y := v.es[i].1;
    var kp := p + "." + v.es[i].0;
    if y.Arr? {
      MergeMember(out, Flatten(kp, y), e);
      if e in Flatten(kp, y) {
        FlattenSound(kp, y, e);
      }
    } else {
      PutMember(out, kp, y, e);
    }
  }

  /** Every entry flatten adds is a scalar leaf of the input under its dotted path: entry j's. */
  lemma {:induction false} FlatFromSound(p: string, v: Val, i: nat, out: Entries, e: (string, Val)) returns (j: nat)
    requires v.Arr? && i <= |v.es| && e in FlatFrom(p, v, i, out)
    ensures e !in out ==> i <= j < |v.es| && EntryLeaf(p, v, j, e.0, e.1)
    decreases v, |v.es| - i
  {
    j := i;
    if i < |v.es| {
      var next := Next(p, v, i, out);
      if e in next {
        NextSound(p, v, i, out, e);
      } else {
        j := FlatFromSound(p, v, i + 1, next, e);
      }
    }
  }

  lemma FlattenSound(p: string, v: Val, e: (string, Val))
    requires v.Arr? && e in Flatten(p, v)
    ensures IsLeaf(p, v, e.0, e.1)
    decreases v, |v.es| + 1
  {
    var j := FlatFromSound(p, v, 0, [], e);
    assert EntryLeaf(p, v, j, e.0, e.1);
  }

  /** Keys already present stay present. */
  lemma {:induction false} FlatFromKeeps(p: string, v: Val, i: nat, out: Entries, key: string)
    requires v.Arr? && i <= |v.es| && Lookup(out, key).Some?
    ensures Lookup(FlatFrom(p, v, i, out), key).Some?
    decreases |v.es| - i
  {
    if i < |v.es| {
      NextKeeps(p, v, i, out, key);
      FlatFromKeeps(p, v, i + 1, Next(p, v, i, out), key);
    }
  }

  lemma NextKeeps(p: string, v: Val, i: nat, out: Entries, key: string)
    requires v.Arr? && i < |v.es| && Lookup(out, key).Some?
    ensures Lookup(Next(p, v, i, out), key).Some?
  {
    var y := v.es[i].1;
    var kp := p + "." + v.es[i].0;
    if y.Arr? {
      MergeKeys(out, Flatten(kp, y), key);
    } else if kp != key {
      assert Lookup(Put(out, kp, y), key) == Lookup(out, key);
    }
  }

  /** Step i adds the dotted path of every leaf reached through entry i. */
  lemma NextAdds(p: string, v: Val, i: nat, out: Entries, key: string, x: Val)
    requires v.Arr? && i < |v.es| && EntryLeaf(p, v, i, key, x)
    ensures Lookup(Next(p, v, i, out), key).Some?
    decreases v, 0
  {
    var y := v.es[i].1;
    var kp := p + "." + v.es[i].0;
    if y.Arr? {
      FlattenComplete(kp, y, key, x);
      MergeKeys(out, Flatten(kp, y), key);
    } else {
      assert Lookup(Put(out, kp, y), key) == Some(x);
    }
  }

  /** Every leaf's dotted path is a key of the result. */
  lemma {:induction false} FlatFromComplete(p: string, v: Val, i: nat, out: Entries, j: nat, key: string, x: Val)
    requires v.Arr? && i <= j < |v.es| && EntryLeaf(p, v, j, key, x)
    ensures HasKey(FlatFrom(p, v, i, out), key)
    decreases v, |v.es| - i
  {
    var next := Next(p, v, i, out);
    if j > i {
      FlatFromComplete(p, v, i + 1, next, j, key, x);
    } else {
      NextAdds(p, v, i, out, key, x);
      FlatFromKeeps(p, v, i + 1, next, key);
    }
  }

  lemma FlattenComplete(p: string, v: Val, key: string, x: Val)
    requires v.Arr? && IsLeaf(p, v, key, x)
    ensures HasKey(Flatten(p, v), key)
    decreases v, |v.es| + 1
  {
    var j :| 0 <= j < |v.es| && EntryLeaf(p, v, j, key, x);
    FlatFromComplete(p, v, 0, [], j, key, x);
  }

  /** No array survives flattening. */
  lemma FlattenNoArrays(p: string, v: Val)
    requires v.Arr?
    ensures forall j :: 0 <= j < |Flatten(p, v)| ==> !Flatten(p, v)[j].1.Arr?
  {
    forall j | 0 <= j < |Flatten(p, v)| ensures !Flatten(p, v)[j].1.Arr? {
      var e := Flatten(p, v)[j];
      FlattenSound(p, v, e);
      LeafIsScalar(p, v, e.0, e.1);
    }
  }

  // ---------------------------------------------------------------
  // get / set / has on the flattened store
  // ---------------------------------------------------------------

  /** `$data[$key] ?? $default`: a stored null counts as missing. */
  function Get(data: Entries, key: string, default: Val): (r: Val)
    ensures Lookup(data, key).None? ==> r == default
    ensures Lookup(data, key).Some? && !Lookup(data, key).value.IsNull() ==> r == Lookup(data, key).value
  {
    match Lookup(data, key)
    case Some(v) => if v.IsNull() then default else v
    case None => default
  }

  /** `set` then `get` on the same key gives the value back, and leaves other keys alone. */
  lemma SetThenGet(data: Entries, key: string, v: Val, other: string, default: Val)
    requires !v.IsNull() && other != key
    ensures Get(Put(data, key, v), key, default) == v
    ensures Get(Put(data, other, v), key, default) == Get(data, key, default)
  {
  }

  // ---------------------------------------------------------------
  // choice
  // ---------------------------------------------------------------

  /** A segment that fits `^\s*([{[])([^}\]]+)[}\]]\s*(.+)$`: its three groups. */
  datatype Seg = Seg(open: char, range: string, text: string)

  /** Length of the leading run of characters other than '}' and ']'. */
  function RangeRun(s: string): (n: nat)
    ensures n <= |s|
    ensures '}' !in s[..n] && ']' !in s[..n]
    ensures n < |s| ==> s[n] == '}' || s[n] == ']'
  {
    if |s| > 0 && s[0] != '}' && s[0] != ']' then
      var m := RangeRun(s[1..]);
      assert s[..1 + m] == [s[0]] + s[1..][..m];
      1 + m
    else 0
  }

  /**
   * Group 3 of the match, from what follows the closer: `(.+)$` ends at
   * the end or before one final "\n", and `.` takes no "\n"; when only
   * whitespace is left, the greedy `\s*` leaves the last character to it.
   */
  function TextGroup(rest: string): (r: Option<string>)
    ensures r.Some? ==> r.value != "" && '\n' !in r.value
  {
    var r0 := if |rest| > 0 && rest[|rest| - 1] == '\n' then rest[..|rest| - 1] else rest;
    if |r0| == 0 then None
    else
      var lead := SkipLeadingSpace(r0);
      var text := if |lead| == 0 then r0[|r0| - 1..] else lead;
      if '\n' in text then None else Some(text)
  }

  /** The regex match of one segment; the range is forced to be the whole run before the first closer. */
  function ParseSegment(seg: string): (r: Option<Seg>)
    ensures r.Some? ==> (r.value.open == '{' || r.value.open == '[')
    ensures r.Some? ==> r.value.range != "" && '}' !in r.value.range && ']' !in r.value.range
    ensures r.Some? ==> r.value.text != "" && '\n' !in r.value.text
  {
    var t := SkipLeadingSpace(seg);
    if |t| == 0 || (t[0] != '{' && t[0] != '[') then None
    else
      var n := RangeRun(t[1..]);
      if n == 0 || 1 + n >= |t| then None
      else
        match TextGroup(t[2 + n..])
        case None => None
        case Some(text) => Some(Seg(t[0], t[1..][..n], text))
  }

  lemma TextGroupSpaced(text: string)
    requires text != "" && '\n' !in text && !RegexSpace(text[0])
    ensures TextGroup(" " + text) == Some(text)
  {
    var rest := " " + text;
    assert rest[|rest| - 1] == text[|text| - 1];
    assert text[|text| - 1] in text;
    assert rest[1..] == text;
    assert SkipLeadingSpace(text) == text;
  }

  /** A well-formed segment, written the usual way, parses back into its parts. */
  lemma ParseRendered(open: char, range: string, close: char, text: string)
    requires open == '{' || open == '['
    requires close == '}' || close == ']'
    requires range != "" && '}' !in range && ']' !in range
    requires text != "" && '\n' !in text && !RegexSpace(text[0])
    ensures ParseSegment([open] + range + [close] + " " + text) == Some(Seg(open, range, text))
  {
    var tail := [close] + " " + text;
    var body := range + tail;
    var seg := [open] + body;
    assert seg[1..] == body;
    assert seg == [open] + range + [close] + " " + text;
    assert !RegexSpace(seg[0]);
    RangeRunOf(range, tail);
    var n := |range|;
    assert body[..n] == range;
    assert seg[2 + n..] == body[n + 1..] == " " + text;
    TextGroupSpaced(text);
  }

  lemma {:induction false} RangeRunOf(range: string, tail: string)
    requires '}' !in range && ']' !in range
    requires |tail| > 0 && (tail[0] == '}' || tail[0] == ']')
    ensures RangeRun(range + tail) == |range|
    decreases |range|
  {
    if |range| > 0 {
      assert (range + tail)[1..] == range[1..] + tail;
      RangeRunOf(range[1..], tail);
    } else {
      assert range + tail == tail;
    }
  }

  const MISSING_END := "Undefined array key 1"

  /** One bound of a `[a,b]` range: '*' is open, anything else is read with `(int)`. */
  predicate Bound(b: string, count: int, lower: bool) {
    b == "*" || (if lower then count >= IntCast(b) else count <= IntCast(b))
  }

  /**
   * Whether a parsed segment selects `count`. A `[...]` range without ','
   * leaves `$end` undefined: the warning, which the error handler turns
   * into a halt, is the Fault.
   */
  function Selects(g: Seg, count: int): (r: Result<bool>)
    ensures r.Fault? <==> g.open != '{' && ',' !in g.range
    ensures g.open == '{' ==> r == Ok(TypeCheck.CtypeDigit(g.range) && DigitsValue(g.range) == count)
    ensures g.open != '{' && ',' in g.range ==>
      var parts := Split(g.range, ',');
      r == Ok(Bound(TrimDefault(parts[0]), count, true) && Bound(TrimDefault(parts[1]), count, false))
  {
    if g.open == '{' then
      Ok(TypeCheck.CtypeDigit(g.range) && DigitsValue(g.range) == count)
    else
      var parts := Split(g.range, ',');
      if |parts| < 2 then
        assert ',' !in g.range;
        Fault(MISSING_END)
      else
        assert ',' in g.range by {
          assert CountChar(g.range, ',') > 0;
        }
        var start := TrimDefault(parts[0]);
        var end := TrimDefault(parts[1]);
        Ok(Bound(start, count, true) && Bound(end, count, false))
  }

  /** What one raw segment does in the loop: select a text, pass, or fault. */
  function Verdict(seg: string, count: int): (r: Result<Option<string>>)
    ensures ParseSegment(seg).None? ==> r == Ok(None)
  {
    match ParseSegment(seg)
    case None => Ok(None)
    case Some(g) =>
      match Selects(g, count)
      case Fault(e) => Fault(e)
      case Ok(hit) => Ok(if hit then Some(TrimDefault(g.text)) else None)
  }

  /** Each segment's verdict, in order. */
  function Verdicts(segs: seq<string>, count: int): (vs: seq<Result<Option<string>>>)
    ensures |vs| == |segs|
    ensures forall k :: 0 <= k < |segs| ==> vs[k] == Verdict(segs[k], count)
  {
    seq(|segs|, k requires 0 <= k < |segs| => Verdict(segs[k], count))
  }

  /** A verdict that ends the loop. */
  predicate Stops(v: Result<Option<string>>) {
    v.Fault? || v.value.Some?
  }

  /**
   * The loop over the verdicts: the first that selects, or faults, stops
   * it, so verdicts after it are never reached.
   */
  function Pick(vs: seq<Result<Option<string>>>): Result<Option<string>>
  {
    if |vs| == 0 then Ok(None)
    else if Stops(vs[0]) then vs[0] else Pick(vs[1..])
  }

  /** The first stopping verdict, after verdicts that all pass, is the outcome. */
  lemma {:induction false} PickFirst(vs: seq<Result<Option<string>>>, j: nat)
    requires j < |vs| && Stops(vs[j])
    requires forall k :: 0 <= k < j ==> vs[k] == Ok(None)
    ensures Pick(vs) == vs[j]
    decreases j
  {
    if j > 0 {
      assert vs[0] == Ok(None);
      assert forall k :: 0 <= k < j - 1 ==> vs[1..][k] == vs[k + 1];
      PickFirst(vs[1..], j - 1);
    }
  }

  /** When every verdict passes, nothing is picked. */
  lemma {:induction false} PickNone(vs: seq<Result<Option<string>>>)
    requires forall k :: 0 <= k < |vs| ==> vs[k] == Ok(None)
    ensures Pick(vs) == Ok(None)
    decreases |vs|
  {
    if |vs| > 0 {
      assert vs[0] == Ok(None);
      assert forall k :: 0 <= k < |vs| - 1 ==> vs[1..][k] == vs[k + 1];
      PickNone(vs[1..]);
    }
  }

  const TYPE_ERROR := "str_replace(): Argument #2 ($replace) must be of type string when argument #1 ($search) is a string"

  /**
   * Passing null as the replacement is deprecated from PHP 8.1 on, and the
   * installed error handler turns the notice into a 500 page.
   */
  const NULL_DEPRECATED := "str_replace(): Passing null to parameter #2 ($replace) of type array|string is deprecated"

  /** Every replacement value is a string, a number or a boolean. */
  predicate Replaceable(reps: Entries) {
    forall i :: 0 <= i < |reps| ==> !reps[i].1.Arr? && !reps[i].1.IsNull()
  }

  /**
   * `str_replace(':' . $k, $v, ...)` for each replacement in order; an
   * array value is a TypeError and a null one the deprecation notice.
   */
  function Substitute(s: string, reps: Entries): (r: Result<string>)
    ensures r.Fault? <==> !Replaceable(reps)
    decreases |reps|
  {
    if |reps| == 0 then Ok(s)
    else if reps[0].1.IsNull() then Fault(NULL_DEPRECATED)
    else
      match StrOf(reps[0].1)
      case None => Fault(TYPE_ERROR)
      case Some(t) =>
        var r := Substitute(ReplaceAll(s, ":" + reps[0].0, t), reps[1..]);
        assert Replaceable(reps) <==> Replaceable(reps[1..]) by {
          assert forall i :: 0 < i < |reps| ==> reps[1..][i - 1] == reps[i];
        }
        r
  }

  lemma {:induction false} NoColonNoMatch(s: string, sub: string)
    requires ':' !in s && |sub| > 0 && sub[0] == ':'
    ensures !Contains(s, sub)
    decreases |s|
  {
    if |s| > 0 {
      assert s[0] != ':';
      NoColonNoMatch(s[1..], sub);
    }
  }

  /** A text with no ':' holds no placeholder: substituting leaves it as it is. */
  lemma {:induction false} SubstituteNoColon(s: string, reps: Entries)
    requires ':' !in s && Replaceable(reps)
    ensures Substitute(s, reps) == Ok(s)
    decreases |reps|
  {
    if |reps| > 0 {
      NoColonNoMatch(s, ":" + reps[0].0);
      ReplaceAllAbsent(s, ":" + reps[0].0, StrOf(reps[0].1).value);
      assert Replaceable(reps[1..]) by {
        assert forall i :: 0 < i < |reps| ==> reps[1..][i - 1] == reps[i];
      }
      SubstituteNoColon(s, reps[1..]);
    }
  }

  /** The last raw segment, trimmed, range prefix and all. */
  function Fallback(segs: seq<string>): string
    requires |segs| >= 1
  {
    TrimDefault(segs[|segs| - 1])
  }

  /** `nexi_i18n::choice($key, $count, $replacements)`. */
  function Choice(data: Entries, key: string, count: int, reps: Entries): (r: Result<string>)
    ensures !Get(data, key, Leaf(Null)).IsString() ==> r == Ok("")
    ensures Get(data, key, Leaf(Null)).IsString() && '|' !in Get(data, key, Leaf(Null)).x.s ==>
      r == Ok(Get(data, key, Leaf(Null)).x.s)
  {
    var raw := Get(data, key, Leaf(Null));
    if !raw.IsString() then Ok("")
    else if '|' !in raw.x.s then Ok(raw.x.s)
    else
      var segs := Split(raw.x.s, '|');
      match Pick(Verdicts(segs, count))
      case Fault(e) => Fault(e)
      case Ok(picked) =>
        Substitute(picked.GetOr(Fallback(segs)), Put(reps, "count", Leaf(Int(count))))
  }

  /**
   * With a plural string, choice substitutes into the text of the first
   * selecting segment when all before it pass, and into the trimmed last
   * segment when all pass.
   */
  lemma ChoiceSelected(data: Entries, key: string, count: int, reps: Entries, raw: string, j: nat, t: string)
    requires Get(data, key, Leaf(Null)) == S(raw) && '|' in raw
    requires j < |Split(raw, '|')| && Verdict(Split(raw, '|')[j], count) == Ok(Some(t))
    requires forall k :: 0 <= k < j ==> Verdict(Split(raw, '|')[k], count) == Ok(None)
    ensures Choice(data, key, count, reps) == Substitute(t, Put(reps, "count", Leaf(Int(count))))
  {
    var vs := Verdicts(Split(raw, '|'), count);
    PickFirst(vs, j);
    ChoicePicked(data, key, count, reps, raw, Some(t));
  }

  /** The outcome of the segment loop decides what choice substitutes into. */
  lemma ChoicePicked(data: Entries, key: string, count: int, reps: Entries, raw: string, picked: Option<string>)
    requires Get(data, key, Leaf(Null)) == S(raw) && '|' in raw
    requires Pick(Verdicts(Split(raw, '|'), count)) == Ok(picked)
    ensures Choice(data, key, count, reps) ==
      Substitute(picked.GetOr(Fallback(Split(raw, '|'))), Put(reps, "count", Leaf(Int(count))))
  {
  }

  lemma ChoiceFallback(data: Entries, key: string, count: int, reps: Entries, raw: string)
    requires Get(data, key, Leaf(Null)) == S(raw) && '|' in raw
    requires forall k :: 0 <= k < |Split(raw, '|')| ==> Verdict(Split(raw, '|')[k], count) == Ok(None)
    ensures Choice(data, key, count, reps) ==
      Substitute(Fallback(Split(raw, '|')), Put(reps, "count", Leaf(Int(count))))
  {
    PickNone(Verdicts(Split(raw, '|'), count));
    ChoicePicked(data, key, count, reps, raw, None);
  }

  // ---------------------------------------------------------------
  // The shipped '_shared.items' string (application/locale/en.php)
  // ---------------------------------------------------------------

  const ITEMS_NONE := "{0} Nessun elemento"
  const ITEMS_ONE := "{1} :count elemento"
  const ITEMS_MANY := "[2,*] :count elementi"
  /** The three segments joined by '|', as the locale file writes them on one line. */
  const ITEMS := ITEMS_NONE + "|" + (ITEMS_ONE + "|" + ITEMS_MANY)

  lemma SplitThree(a: string, b: string, c: string)
    requires '|' !in a && '|' !in b && '|' !in c
    ensures Split(a + "|" + (b + "|" + c), '|') == [a, b, c]
  {
    SplitConcat(b, '|', c);
    SplitNoDelim(c, '|');
    SplitConcat(a, '|', b + "|" + c);
  }

  lemma ItemsPipeFree()
    ensures '|' !in ITEMS_NONE && '|' !in ITEMS_ONE && '|' !in ITEMS_MANY
  {
  }

  lemma ItemsSegments()
    ensures Split(ITEMS, '|') == [ITEMS_NONE, ITEMS_ONE, ITEMS_MANY]
  {
    ItemsPipeFree();
    SplitThree(ITEMS_NONE, ITEMS_ONE, ITEMS_MANY);
  }

  /** The verdict on a segment written the usual way. */
  lemma RenderedVerdict(open: char, range: string, close: char, text: string, count: int)
    requires open == '{' || open == '['
    requires close == '}' || close == ']'
    requires range != "" && '}' !in range && ']' !in range
    requires text != "" && '\n' !in text && !RegexSpace(text[0])
    ensures var sel := Selects(Seg(open, range, text), count);
      Verdict([open] + range + [close] + " " + text, count) ==
        if sel.Fault? then Fault(sel.reason) else Ok(if sel.value then Some(TrimDefault(text)) else None)
  {
    ParseRendered(open, range, close, text);
  }

  lemma NoneShape()
    ensures ITEMS_NONE == ['{'] + "0" + ['}'] + " " + "Nessun elemento"
    ensures TypeCheck.CtypeDigit("0") && DigitsValue("0") == 0
  {
    assert "0"[..0] == "";
  }

  lemma OneShape()
    ensures ITEMS_ONE == ['{'] + "1" + ['}'] + " " + ":count elemento"
    ensures TypeCheck.CtypeDigit("1") && DigitsValue("1") == 1
  {
    assert "1"[..0] == "";
  }

  lemma DigitParts(range: string, text: string)
    requires (range == "0" && text == "Nessun elemento") || (range == "1" && text == ":count elemento")
    ensures range != "" && '}' !in range && ']' !in range
    ensures text != "" && !RegexSpace(text[0])
  {
  }

  /** A '{n}' segment selects its text for the count n alone. */
  lemma ExactVerdict(seg: string, range: string, text: string, count: int)
    requires seg == ['{'] + range + ['}'] + " " + text
    requires range != "" && '}' !in range && ']' !in range
    requires text != "" && '\n' !in text && !RegexSpace(text[0]) && TrimDefault(text) == text
    ensures var hit := TypeCheck.CtypeDigit(range) && DigitsValue(range) == count;
      Verdict(seg, count) == if hit then Ok(Some(text)) else Ok(None)
  {
    RenderedVerdict('{', range, '}', text, count);
  }

  lemma ManyShape()
    ensures ITEMS_MANY == ['['] + "2,*" + [']'] + " " + ":count elementi"
  {
  }

  /** A segment text with no newline, and nothing for trim() to strip at either end. */
  lemma PlainText(t: string)
    requires t == "Nessun elemento" || t == ":count elemento" || t == ":count elementi"
    ensures '\n' !in t && TrimDefault(t) == t
  {
    TrimDefaultNoop(t);
  }

  lemma ManyParts(range: string, text: string)
    requires range == "2,*" && text == ":count elementi"
    ensures range != "" && '}' !in range && ']' !in range
    ensures text != "" && !RegexSpace(text[0])
  {
  }

  lemma ItemsRangeSplit()
    ensures Split("2,*", ',') == ["2", "*"]
  {
    assert "2,*" == "2" + [','] + "*";
    SplitConcat("2", ',', "*");
    SplitNoDelim("*", ',');
  }

  lemma ItemsRangeBounds()
    ensures TrimDefault("2") == "2" && TrimDefault("*") == "*"
  {
  }

  lemma ItemsRangeStart()
    ensures IntCast("2") == 2
  {
    assert NatToString(2) == "2";
    IntCastOfNatText(2);
  }

  /** The '[2,*]' range selects exactly the counts from 2 on. */
  lemma ItemsRangeSelects(count: int)
    ensures Selects(Seg('[', "2,*", ":count elementi"), count) == Ok(count >= 2)
  {
    ItemsRangeSplit();
    ItemsRangeBounds();
    ItemsRangeStart();
    assert ',' in "2,*" by {
      assert "2,*"[1] == ',';
    }
  }

  lemma ItemsNone(count: int)
    ensures Verdict(ITEMS_NONE, count) == if count == 0 then Ok(Some("Nessun elemento")) else Ok(None)
  {
    NoneShape();
    PlainText("Nessun elemento");
    DigitParts("0", "Nessun elemento");
    ExactVerdict(ITEMS_NONE, "0", "Nessun elemento", count);
  }

  lemma ItemsOne(count: int)
    ensures Verdict(ITEMS_ONE, count) == if count == 1 then Ok(Some(":count elemento")) else Ok(None)
  {
    OneShape();
    PlainText(":count elemento");
    DigitParts("1", ":count elemento");
    ExactVerdict(ITEMS_ONE, "1", ":count elemento", count);
  }

  lemma ItemsMany(count: int)
    ensures Verdict(ITEMS_MANY, count) == if count >= 2 then Ok(Some(":count elementi")) else Ok(None)
  {
    ManyShape();
    PlainText(":count elementi");
    ManyParts("2,*", ":count elementi");
    ItemsRangeSelects(count);
    OpenRangeVerdict(ITEMS_MANY, "2,*", ":count elementi", count);
  }

  /** A '[..]' segment whose range selects the counts from 2 on. */
  lemma OpenRangeVerdict(seg: string, range: string, text: string, count: int)
    requires seg == ['['] + range + [']'] + " " + text
    requires range != "" && '}' !in range && ']' !in range
    requires text != "" && '\n' !in text && !RegexSpace(text[0]) && TrimDefault(text) == text
    requires Selects(Seg('[', range, text), count) == Ok(count >= 2)
    ensures Verdict(seg, count) == if count >= 2 then Ok(Some(text)) else Ok(None)
  {
    RenderedVerdict('[', range, ']', text, count);
  }

  lemma {:induction false} ReplaceAfterPlain(pre: string, s: string, from: string, to: string)
    requires ':' !in pre && |from| > 0 && from[0] == ':'
    ensures ReplaceAll(pre + s, from, to) == pre + ReplaceAll(s, from, to)
    decreases |pre|
  {
    if |pre| > 0 {
      var x := pre + s;
      assert x[0] == pre[0] != ':';
      ReplaceAllSkip(x, from, to);
      assert x[1..] == pre[1..] + s;
      ReplaceAfterPlain(pre[1..], s, from, to);
    } else {
      assert pre + s == s;
    }
  }

  /** ':count' at the head of a colon-free text becomes the decimal count. */
  lemma ReplaceCountHead(post: string, n: string)
    requires ':' !in post
    ensures ReplaceAll(":count" + post, ":count", n) == n + post
  {
    var x := ":count" + post;
    assert x[..6] == ":count";
    assert x[6..] == post;
    NoColonNoMatch(post, ":count");
    ReplaceAllAbsent(post, ":count", n);
  }

  /** ':count' at the head of a colon-free text becomes the decimal count. */
  lemma SubstituteCountHead(post: string, count: int)
    requires ':' !in post
    ensures Substitute(":count" + post, Put([], "count", Leaf(Int(count)))) == Ok(IntToString(count) + post)
  {
    ItemsCountRep(count);
    var n := IntToString(count);
    ReplaceCountHead(post, n);
    var reps := [("count", Leaf(Int(count)))];
    assert ":" + reps[0].0 == ":count";
    assert StrOf(reps[0].1) == Some(n);
    assert reps[1..] == [];
    assert Substitute(":count" + post, reps) == Substitute(n + post, []);
  }

  /** ':count' between two colon-free texts becomes the decimal count. */
  lemma SubstituteCount(pre: string, post: string, count: int)
    requires ':' !in pre && ':' !in post
    ensures Substitute(pre + ":count" + post, Put([], "count", Leaf(Int(count)))) == Ok(pre + IntToString(count) + post)
  {
    ItemsCountRep(count);
    var n := IntToString(count);
    var x := pre + ":count" + post;
    assert x == pre + (":count" + post);
    ReplaceAfterPlain(pre, ":count" + post, ":count", n);
    ReplaceCountHead(post, n);
    assert ReplaceAll(x, ":count", n) == pre + n + post;
    var reps := [("count", Leaf(Int(count)))];
    assert ":" + reps[0].0 == ":count";
    assert StrOf(reps[0].1) == Some(n);
    assert reps[1..] == [];
    assert Substitute(x, reps) == Substitute(pre + n + post, []);
  }

  lemma ItemsHasPipe()
    ensures '|' in ITEMS
  {
    assert ITEMS[|ITEMS_NONE|] == '|';
  }

  lemma ItemsCountRep(count: int)
    ensures Put([], "count", Leaf(Int(count))) == [("count", Leaf(Int(count)))]
  {
  }

  /** A plural string of three segments: which segment choice substitutes into, from the three verdicts. */
  lemma ChoiceOfThree(data: Entries, key: string, count: int, a: string, b: string, c: string, j: nat, t: string)
    requires Get(data, key, Leaf(Null)) == S(a + "|" + (b + "|" + c))
    requires '|' !in a && '|' !in b && '|' !in c
    requires j < 3 && Verdict([a, b, c][j], count) == Ok(Some(t))
    requires j >= 1 ==> Verdict(a, count) == Ok(None)
    requires j >= 2 ==> Verdict(b, count) == Ok(None)
    ensures Choice(data, key, count, []) == Substitute(t, Put([], "count", Leaf(Int(count))))
  {
    var raw := a + "|" + (b + "|" + c);
    SplitThree(a, b, c);
    assert raw[|a|] == '|';
    PassedOfThree(a, b, c, count, j);
    ChoiceSelected(data, key, count, [], raw, j, t);
  }

  lemma PassedOfThree(a: string, b: string, c: string, count: int, j: nat)
    requires j <= 3
    requires j >= 1 ==> Verdict(a, count) == Ok(None)
    requires j >= 2 ==> Verdict(b, count) == Ok(None)
    requires j >= 3 ==> Verdict(c, count) == Ok(None)
    ensures forall k :: 0 <= k < j ==> Verdict([a, b, c][k], count) == Ok(None)
  {
    forall k | 0 <= k < j ensures Verdict([a, b, c][k], count) == Ok(None) {
      if k == 0 {
        assert [a, b, c][k] == a;
      } else if k == 1 {
        assert [a, b, c][k] == b;
      } else {
        assert [a, b, c][k] == c;
      }
    }
  }

  lemma ChoiceNoneOfThree(data: Entries, key: string, count: int, a: string, b: string, c: string)
    requires Get(data, key, Leaf(Null)) == S(a + "|" + (b + "|" + c))
    requires '|' !in a && '|' !in b && '|' !in c
    requires Verdict(a, count) == Ok(None) && Verdict(b, count) == Ok(None) && Verdict(c, count) == Ok(None)
    ensures Choice(data, key, count, []) == Substitute(TrimDefault(c), Put([], "count", Leaf(Int(count))))
  {
    var raw := a + "|" + (b + "|" + c);
    SplitThree(a, b, c);
    assert raw[|a|] == '|';
    PassedOfThree(a, b, c, count, 3);
    ChoiceFallback(data, key, count, [], raw);
    assert Fallback([a, b, c]) == TrimDefault(c);
  }

  lemma ItemsPickNone(data: Entries, key: string, count: int)
    requires Get(data, key, Leaf(Null)) == S(ITEMS)
    requires Verdict(ITEMS_NONE, count) == Ok(None) && Verdict(ITEMS_ONE, count) == Ok(None)
    requires Verdict(ITEMS_MANY, count) == Ok(None)
    ensures Choice(data, key, count, []) == Substitute(ITEMS_MANY, Put([], "count", Leaf(Int(count))))
  {
    ItemsPipeFree();
    ChoiceNoneOfThree(data, key, count, ITEMS_NONE, ITEMS_ONE, ITEMS_MANY);
    ItemsManyTrimmed();
  }

  lemma ItemsZeroText(count: int)
    ensures Substitute("Nessun elemento", Put([], "count", Leaf(Int(count)))) == Ok("Nessun elemento")
  {
    ItemsCountRep(count);
    SubstituteNoColon("Nessun elemento", [("count", Leaf(Int(count)))]);
  }

  /** The singular and plural texts, with ':count' at their head, become the count and the noun. */
  lemma ItemsCountTexts(count: int)
    ensures Substitute(":count elemento", Put([], "count", Leaf(Int(count)))) == Ok(IntToString(count) + " elemento")
    ensures Substitute(":count elementi", Put([], "count", Leaf(Int(count)))) == Ok(IntToString(count) + " elementi")
  {
    assert ":count elemento" == ":count" + " elemento";
    SubstituteCountHead(" elemento", count);
    assert ":count elementi" == ":count" + " elementi";
    SubstituteCountHead(" elementi", count);
  }

  lemma ItemsFallbackText(count: int)
    ensures Substitute(ITEMS_MANY, Put([], "count", Leaf(Int(count)))) == Ok("[2,*] " + IntToString(count) + " elementi")
  {
    FallbackParts("[2,*] ", " elementi");
    SubstituteCount("[2,*] ", " elementi", count);
  }

  lemma FallbackParts(pre: string, post: string)
    requires pre == "[2,*] " && post == " elementi"
    ensures ':' !in pre && ':' !in post && pre + ":count" + post == ITEMS_MANY
  {
  }

  lemma ChoiceItemsZero(data: Entries, key: string, count: int)
    requires Get(data, key, Leaf(Null)) == S(ITEMS) && count == 0
    ensures Choice(data, key, count, []) == Ok("Nessun elemento")
  {
    ItemsNone(count);
    ItemsPipeFree();
    ChoiceOfThree(data, key, count, ITEMS_NONE, ITEMS_ONE, ITEMS_MANY, 0, "Nessun elemento");
    ItemsZeroText(count);
  }

  lemma ChoiceItemsSingle(data: Entries, key: string, count: int)
    requires Get(data, key, Leaf(Null)) == S(ITEMS) && count == 1
    ensures Choice(data, key, count, []) == Ok(IntToString(count) + " elemento")
  {
    ItemsNone(count);
    ItemsOne(count);
    ItemsPipeFree();
    ChoiceOfThree(data, key, count, ITEMS_NONE, ITEMS_ONE, ITEMS_MANY, 1, ":count elemento");
    ItemsCountTexts(count);
  }

  lemma ChoiceItemsOne(data: Entries, key: string, count: int)
    requires Get(data, key, Leaf(Null)) == S(ITEMS) && count == 1
    ensures Choice(data, key, count, []) == Ok("1 elemento")
  {
    OneElemento(count);
    ChoiceItemsSingle(data, key, count);
  }

  lemma OneElemento(count: int)
    requires count == 1
    ensures IntToString(count) + " elemento" == "1 elemento"
  {
  }

  lemma SevenElementi(count: int)
    requires count == 7
    ensures IntToString(count) + " elementi" == "7 elementi"
  {
  }

  lemma ChoiceItemsMany(data: Entries, key: string, count: int)
    requires Get(data, key, Leaf(Null)) == S(ITEMS) && count >= 2
    ensures Choice(data, key, count, []) == Ok(IntToString(count) + " elementi")
  {
    ItemsNone(count);
    ItemsOne(count);
    ItemsMany(count);
    ItemsPipeFree();
    ChoiceOfThree(data, key, count, ITEMS_NONE, ITEMS_ONE, ITEMS_MANY, 2, ":count elementi");
    ItemsCountTexts(count);
  }

  lemma ChoiceItemsNegative(data: Entries, key: string, count: int)
    requires Get(data, key, Leaf(Null)) == S(ITEMS) && count < 0
    ensures Choice(data, key, count, []) == Ok("[2,*] " + IntToString(count) + " elementi")
  {
    ItemsNone(count);
    ItemsOne(count);
    ItemsMany(count);
    ItemsPickNone(data, key, count);
    ItemsFallbackText(count);
  }

  lemma ItemsManyTrimmed()
    ensures TrimDefault(ITEMS_MANY) == ITEMS_MANY
  {
    TrimDefaultNoop(ITEMS_MANY);
  }

  /**
   * choice('_shared.items', n) with no replacements: "Nessun elemento" for
   * 0, "1 elemento" for 1, "n elementi" from 2 on (7 gives "7 elementi"),
   * and for a negative n the trimmed last segment, range prefix kept.
   */
  lemma ChoiceItems(data: Entries, key: string, count: int)
    requires Get(data, key, Leaf(Null)) == S(ITEMS)
    ensures count == 0 ==> Choice(data, key, count, []) == Ok("Nessun elemento")
    ensures count == 1 ==> Choice(data, key, count, []) == Ok("1 elemento")
    ensures count >= 2 ==> Choice(data, key, count, []) == Ok(IntToString(count) + " elementi")
    ensures count < 0 ==> Choice(data, key, count, []) == Ok("[2,*] " + IntToString(count) + " elementi")
    ensures count == 7 ==> Choice(data, key, count, []) == Ok("7 elementi")
  {
    if count == 0 {
      ChoiceItemsZero(data, key, count);
    } else if count == 1 {
      ChoiceItemsOne(data, key, count);
    } else if count >= 2 {
      if count == 7 {
        SevenElementi(count);
      }
      ChoiceItemsMany(data, key, count);
    } else {
      ChoiceItemsNegative(data, key, count);
    }
  }
}
