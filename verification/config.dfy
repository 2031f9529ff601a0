/**
 * `Config`: the boot-time configuration, a nested PHP array addressed by
 * dot paths ("databases.default.host").
 *
 * `get` walks the raw path. `set` and `has` first strip trailing ':' from
 * every path component and, at every level they pass through, from the
 * keys stored there ("app:" and "app" are one key to them).
 */
module ConfigStore {
  import opened Base
  import opened Text
  import opened Php

  function PathKeys(path: string): (ks: seq<string>)
    ensures |ks| >= 1
  {
    Split(path, '.')
  }

  /** `rtrim($k, ':')` over every component. */
  function NormKeys(ks: seq<string>): (r: seq<string>)
    ensures |r| == |ks|
    ensures forall i :: 0 <= i < |ks| ==> r[i] == RTrimChar(ks[i], ':')
  {
    if |ks| == 0 then [] else [RTrimChar(ks[0], ':')] + NormKeys(ks[1..])
  }

  /** No stored key or path component ends in ':'. */
  predicate ColonFree(k: string) {
    |k| == 0 || k[|k| - 1] != ':'
  }

  predicate AllColonFree(ks: seq<string>) {
    forall i :: 0 <= i < |ks| ==> ColonFree(ks[i])
  }

  // ---------------------------------------------------------------
  // Config::get
  // ---------------------------------------------------------------

  function GetAt(v: Val, ks: seq<string>, d: Val): (r: Val)
    decreases |ks|
  {
    if |ks| == 0 then v
    else if !v.Arr? then d
    else
      match Lookup(v.es, ks[0])
      case None => d
      case Some(child) => GetAt(child, ks[1..], d)
  }

  /** `Config::get($path, $default)`. */
  function Get(data: Entries, path: string, d: Val): Val {
    GetAt(Arr(data), PathKeys(path), d)
  }

  /** A missing component, or a non-array on the way, gives the default. */
  lemma {:induction false} GetStopsAtLeaf(v: Val, ks: seq<string>, d: Val)
    requires |ks| > 0 && (!v.Arr? || !HasKey(v.es, ks[0]))
    ensures GetAt(v, ks, d) == d
  {
  }

  // ---------------------------------------------------------------
  // Key normalisation used by set and has
  // ---------------------------------------------------------------

  /**
   * `foreach ($a as $k => $v) $n[rtrim($k, ':')] = $v;` — a later key that
   * collapses onto an earlier one overwrites its value in the earlier place.
   */
  function NormFrom(acc: Entries, es: Entries): (r: Entries)
    decreases |es|
  {
    if |es| == 0 then acc
    else NormFrom(Put(acc, RTrimChar(es[0].0, ':'), es[0].1), es[1..])
  }

  function Normalize(es: Entries): Entries {
    NormFrom([], es)
  }

  predicate NormalKeys(es: Entries) {
    DistinctKeys(es) && forall i :: 0 <= i < |es| ==> ColonFree(es[i].0)
  }

  lemma RTrimColonFree(k: string)
    requires ColonFree(k)
    ensures RTrimChar(k, ':') == k
  {
  }

  lemma RTrimIsColonFree(k: string)
    ensures ColonFree(RTrimChar(k, ':'))
  {
  }

  lemma {:induction false} NormFromNormal(acc: Entries, es: Entries)
    requires NormalKeys(acc)
    ensures NormalKeys(NormFrom(acc, es))
    decreases |es|
  {
    if |es| > 0 {
      var k := RTrimChar(es[0].0, ':');
      RTrimIsColonFree(es[0].0);
      var acc' := Put(acc, k, es[0].1);
      PutDistinct(acc, k, es[0].1);
      PutKeysFrom(acc, k, es[0].1);
      NormFromNormal(acc', es[1..]);
    }
  }

  /** Every key of `Put(es, k, v)` is `k` or an old key. */
  lemma PutKeysFrom(es: Entries, k: string, v: Val)
    ensures forall i :: 0 <= i < |Put(es, k, v)| ==> Put(es, k, v)[i].0 == k || HasKey(es, Put(es, k, v)[i].0)
  {
    var r := Put(es, k, v);
    if HasKey(es, k) {
      forall i | 0 <= i < |r| ensures r[i].0 == k || HasKey(es, r[i].0) {
        assert Keys(r)[i] == Keys(es)[i];
      }
    }
  }

  lemma NormalizeIsNormal(es: Entries)
    ensures NormalKeys(Normalize(es))
  {
    NormFromNormal([], es);
  }

  /** Normalising an already normal array changes nothing. */
  lemma {:induction false} NormFromIdentity(acc: Entries, es: Entries)
    requires NormalKeys(acc + es)
    ensures NormFrom(acc, es) == acc + es
    decreases |es|
  {
    if |es| > 0 {
      var k := es[0].0;
      assert (acc + es)[|acc|] == es[0];
      RTrimColonFree(k);
      assert !HasKey(acc, k) by {
        forall i | 0 <= i < |acc| ensures acc[i].0 != k {
          assert (acc + es)[i] == acc[i];
        }
      }
      assert acc + es == (acc + [es[0]]) + es[1..];
      NormFromIdentity(acc + [es[0]], es[1..]);
    }
  }

  lemma NormalizeIdentity(es: Entries)
    requires NormalKeys(es)
    ensures Normalize(es) == es
  {
    assert [] + es == es;
    NormFromIdentity([], es);
  }

  // ---------------------------------------------------------------
  // Config::set
  // ---------------------------------------------------------------

  /**
   * One level of the reference walk: normalise, make sure `ks[0]` holds an
   * array (a missing, null or scalar entry becomes []), descend; the last
   * level receives the value.
   */
  function SetAt(es: Entries, ks: seq<string>, value: Val): (r: Val)
    requires |ks| >= 1 && AllColonFree(ks)
    ensures r.Arr? && NormalKeys(r.es)
    decreases |ks|
  {
    var n := Normalize(es);
    NormalizeIsNormal(es);
    var cur := Lookup(n, ks[0]);
    var child := if cur.Some? && cur.value.Arr? then cur.value.es else [];
    var sub := if |ks| == 1 then value else SetAt(child, ks[1..], value);
    PutNormal(n, ks[0], sub);
    Arr(Put(n, ks[0], sub))
  }

  lemma PutNormal(n: Entries, k: string, v: Val)
    requires NormalKeys(n) && ColonFree(k)
    ensures NormalKeys(Put(n, k, v))
  {
    PutDistinct(n, k, v);
    PutKeysFrom(n, k, v);
    var r := Put(n, k, v);
    forall i | 0 <= i < |r| ensures ColonFree(r[i].0) {
      if r[i].0 != k {
        var j :| 0 <= j < |n| && n[j].0 == r[i].0;
      }
    }
  }

  /** `Config::set($path, $value)`. */
  function Set(data: Entries, path: string, value: Val): (r: Entries)
    ensures NormalKeys(r)
  {
    var ks := NormKeys(PathKeys(path));
    NormalizedColonFree(PathKeys(path));
    SetAt(data, ks, value).es
  }

  /** Normalised path keys carry no trailing colon. */
  lemma NormalizedColonFree(ks: seq<string>)
    ensures AllColonFree(NormKeys(ks))
  {
    forall i | 0 <= i < |ks| ensures ColonFree(NormKeys(ks)[i]) {
      RTrimIsColonFree(ks[i]);
    }
  }

  /** Reading back what was set, along a path without trailing colons. */
  lemma {:induction false} GetSetAt(es: Entries, ks: seq<string>, value: Val, d: Val)
    requires |ks| >= 1 && AllColonFree(ks)
    ensures GetAt(SetAt(es, ks, value), ks, d) == value
    decreases |ks|
  {
    if |ks| > 1 {
      var n := Normalize(es);
      var cur := Lookup(n, ks[0]);
      var child := if cur.Some? && cur.value.Arr? then cur.value.es else [];
      GetSetAt(child, ks[1..], value, d);
    }
  }

  lemma NormKeysColonFree(ks: seq<string>)
    requires forall i :: 0 <= i < |ks| ==> ColonFree(ks[i])
    ensures NormKeys(ks) == ks
  {
    forall i | 0 <= i < |ks| ensures NormKeys(ks)[i] == ks[i] {
      RTrimColonFree(ks[i]);
    }
  }

  /** `Config::get` on the same colon-free path returns what `set` stored. */
  lemma GetAfterSet(data: Entries, path: string, value: Val, d: Val)
    requires forall i :: 0 <= i < |PathKeys(path)| ==> ColonFree(PathKeys(path)[i])
    ensures Get(Set(data, path, value), path, d) == value
  {
    var ks := PathKeys(path);
    NormKeysColonFree(ks);
    NormalizedColonFree(ks);
    GetSetAt(data, ks, value, d);
    assert Arr(SetAt(data, ks, value).es) == SetAt(data, ks, value);
  }

  // ---------------------------------------------------------------
  // Config::has
  // ---------------------------------------------------------------

  /**
   * `Config::has`. Walking into a non-array makes the normalising
   * `foreach` warn, which the installed error handler turns into the 500
   * page: that is the Fault.
   */
  function HasAt(v: Val, ks: seq<string>): Result<bool>
    decreases |ks|
  {
    if |ks| == 0 then Ok(true)
    else if !v.Arr? then Fault(FOREACH_NOT_ARRAY)
    else
      match Lookup(Normalize(v.es), ks[0])
      case None => Ok(false)
      case Some(child) => HasAt(child, ks[1..])
  }

  function Has(data: Entries, path: string): Result<bool> {
    HasAt(Arr(data), NormKeys(PathKeys(path)))
  }

  /** A path `set` wrote is one `has` finds. */
  lemma {:induction false} HasSetAt(es: Entries, ks: seq<string>, value: Val)
    requires |ks| >= 1 && AllColonFree(ks)
    ensures HasAt(SetAt(es, ks, value), ks) == Ok(true)
    decreases |ks|
  {
    var r := SetAt(es, ks, value);
    NormalizeIdentity(r.es);
    if |ks| > 1 {
      var n := Normalize(es);
      var cur := Lookup(n, ks[0]);
      var child := if cur.Some? && cur.value.Arr? then cur.value.es else [];
      HasSetAt(child, ks[1..], value);
    }
  }

  lemma HasAfterSet(data: Entries, path: string, value: Val)
    ensures Has(Set(data, path, value), path) == Ok(true)
  {
    var ks := NormKeys(PathKeys(path));
    NormalizedColonFree(PathKeys(path));
    HasSetAt(data, ks, value);
    NormKeysIdempotent(PathKeys(path));
    assert Arr(SetAt(data, ks, value).es) == SetAt(data, ks, value);
  }

  lemma NormKeysIdempotent(ks: seq<string>)
    ensures NormKeys(NormKeys(ks)) == NormKeys(ks)
  {
    NormalizedColonFree(ks);
    NormKeysColonFree(NormKeys(ks));
  }

  /** `has` does not tell "app:" from "app", in the path or in the store. */
  lemma HasIgnoresTrailingColon(data: Entries, k: string)
    ensures Has(data, k + ":") == Has(data, k)
  {
    NormKeysTrailingColon(k);
  }

  /** A final ':' on a path only extends its last component, which the rtrim takes off again. */
  lemma NormKeysTrailingColon(k: string)
    ensures NormKeys(PathKeys(k + ":")) == NormKeys(PathKeys(k))
  {
    assert RTrimChar(k + ":", ':') == RTrimChar(k, ':') by {
      assert (k + ":")[..|k + ":"| - 1] == k;
    }
    var a := PathKeys(k);
    var b := PathKeys(k + ":");
    SplitAppendNonDelim(k, ':', '.');
    forall i | 0 <= i < |a| ensures NormKeys(b)[i] == NormKeys(a)[i] {
      if i == |a| - 1 {
        LastRTrim(a[i], ':');
      } else {
        assert b[i] == a[..|a| - 1][i];
      }
    }
    assert NormKeys(b) == NormKeys(a);
  }

  lemma LastRTrim(s: string, c: char)
    ensures RTrimChar(s + [c], c) == RTrimChar(s, c)
  {
    assert (s + [c])[..|s + [c]| - 1] == s;
  }

  /** Appending a character other than the delimiter only extends the last piece. */
  lemma SplitAppendNonDelim(s: string, c: char, d: char)
    requires c != d
    ensures |Split(s + [c], d)| == |Split(s, d)|
    ensures forall i :: 0 <= i < |Split(s, d)| - 1 ==> Split(s + [c], d)[i] == Split(s, d)[i]
    ensures Split(s + [c], d)[|Split(s, d)| - 1] == Split(s, d)[|Split(s, d)| - 1] + [c]
  {
    CountCharAppend(s, [c], d);
    forall i | 0 <= i < |Split(s, d)| {
      SplitAppendAt(s, c, d, i);
    }
  }

  /** Piece i of the pieces of s + [c]: piece i of s, with c added to the last one. */
  lemma {:induction false} SplitAppendAt(s: string, c: char, d: char, i: nat)
    requires c != d && i < |Split(s, d)| && |Split(s + [c], d)| == |Split(s, d)|
    ensures Split(s + [c], d)[i] == if i == |Split(s, d)| - 1 then Split(s, d)[i] + [c] else Split(s, d)[i]
    decreases |s|
  {
    var t := s + [c];
    if |s| == 0 {
      assert t == [c] && t[1..] == [];
    } else {
      assert t[0] == s[0];
      assert t[1..] == s[1..] + [c];
      var a := Split(s[1..], d);
      var b := Split(s[1..] + [c], d);
      CountCharAppend(s[1..], [c], d);
      if s[0] == d {
        if i > 0 {
          SplitAppendAt(s[1..], c, d, i - 1);
        }
      } else {
        SplitAppendAt(s[1..], c, d, i);
        if i == 0 {
          assert Split(t, d)[0] == [s[0]] + b[0];
          assert Split(s, d)[0] == [s[0]] + a[0];
        }
      }
    }
  }

  /** ...whereas `get` does: a key stored as "app:" is not found as "app". */
  lemma GetDistinguishesColon(v: Val, d: Val)
    ensures Get([("app:", v)], "app", d) == d
    ensures Get([("app:", v)], "app:", d) == v
  {
    SplitNoDelim("app", '.');
    SplitNoDelim("app:", '.');
  }
}
