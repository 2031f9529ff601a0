/**
 * `ctx`: the request-wide flat key/value store. Keys are plain strings
 * (a dot in a key is just a character here, unlike Config).
 */
module Ctx {
  import opened Php

  datatype Store = Store(m: map<string, Val>)

  const EMPTY: Store := Store(map[])

  /** The default `ctx::get` returns when none is given: the string 'false'. */
  const DEFAULT: Val := S("false")

  /** `ctx::has`: true for any stored key, a stored null included. */
  predicate Has(c: Store, k: string) {
    k in c.m
  }

  /** `ctx::get($k, $d)`: `??` treats a stored null like a missing key. */
  function Get(c: Store, k: string, d: Val): (r: Val)
    ensures !Has(c, k) ==> r == d
    ensures Has(c, k) && c.m[k].IsNull() ==> r == d
    ensures Has(c, k) && !c.m[k].IsNull() ==> r == c.m[k]
  {
    if k in c.m && !c.m[k].IsNull() then c.m[k] else d
  }

  /** `ctx::set`. */
  function Set(c: Store, k: string, v: Val): (r: Store)
    ensures Has(r, k)
    ensures forall d :: Get(r, k, d) == (if v.IsNull() then d else v)
    ensures forall k' :: k' != k ==> (Has(r, k') <==> Has(c, k'))
    ensures forall k', d :: k' != k ==> Get(r, k', d) == Get(c, k', d)
  {
    Store(c.m[k := v])
  }

  /** `ctx::forget`: only the named key disappears. */
  function Forget(c: Store, k: string): (r: Store)
    ensures !Has(r, k)
    ensures forall d :: Get(r, k, d) == d
    ensures forall k' :: k' != k ==> (Has(r, k') <==> Has(c, k'))
    ensures forall k', d :: k' != k ==> Get(r, k', d) == Get(c, k', d)
  {
    Store(c.m - {k})
  }

  /** `ctx::flush`. */
  function Flush(c: Store): (r: Store)
    ensures forall k :: !Has(r, k)
    ensures forall k, d :: Get(r, k, d) == d
  {
    EMPTY
  }

  /** Applies a sequence of `ctx::set` calls in order. */
  function SetAll(c: Store, ws: seq<(string, Val)>): (r: Store)
    ensures forall i :: 0 <= i < |ws| ==> Has(r, ws[i].0)
    ensures forall k :: Has(c, k) ==> Has(r, k)
    decreases |ws|
  {
    if |ws| == 0 then c else SetAll(Set(c, ws[0].0, ws[0].1), ws[1..])
  }

  /** The last write to a key is the one `get` sees. */
  lemma {:induction false} SetAllLast(c: Store, ws: seq<(string, Val)>, i: nat)
    requires i < |ws|
    requires forall j :: i < j < |ws| ==> ws[j].0 != ws[i].0
    ensures SetAll(c, ws).m[ws[i].0] == ws[i].1
    decreases |ws|
  {
    if i > 0 {
      SetAllLast(Set(c, ws[0].0, ws[0].1), ws[1..], i - 1);
    } else {
      SetAllUntouched(Set(c, ws[0].0, ws[0].1), ws[1..], ws[0].0);
    }
  }

  /** Keys never written keep their old entry. */
  lemma {:induction false} SetAllUntouched(c: Store, ws: seq<(string, Val)>, k: string)
    requires forall j :: 0 <= j < |ws| ==> ws[j].0 != k
    ensures (k in SetAll(c, ws).m) == (k in c.m)
    ensures k in c.m ==> SetAll(c, ws).m[k] == c.m[k]
    decreases |ws|
  {
    if |ws| > 0 {
      SetAllUntouched(Set(c, ws[0].0, ws[0].1), ws[1..], k);
    }
  }
}
