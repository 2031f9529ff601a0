/**
 * PHP values as the routing core sees them: scalars, and ordered arrays.
 *
 * A PHP array is an ordered list of (key, value) entries with distinct keys.
 * Integer keys are kept as their decimal text, which is how PHP normalises
 * a string key such as "5" anyway, so one key type serves both. Floats and
 * objects do not occur in the modelled code paths and are left out.
 */
module Php {
  import opened Base
  import opened Text

  datatype Scalar = Null | Bool(b: bool) | Int(i: int) | Str(s: string)

  datatype Val = Leaf(x: Scalar) | Arr(es: seq<(string, Val)>)
  {
    predicate IsString() { Leaf? && x.Str? }
    predicate IsNull() { Leaf? && x.Null? }
  }

  type Entries = seq<(string, Val)>

  const NULL: Val := Leaf(Null)

  /** The warning of a `foreach` over anything but an array. */
  const FOREACH_NOT_ARRAY := "foreach() argument must be of type array|object"

  function S(s: string): Val { Leaf(Str(s)) }

  /** PHP `empty()`: null, false, 0, "", "0" and the empty array. */
  predicate Empty(v: Val) {
    match v
    case Arr(es) => |es| == 0
    case Leaf(x) =>
      match x
      case Null => true
      case Bool(b) => !b
      case Int(i) => i == 0
      case Str(s) => s == "" || s == "0"
  }

  /**
   * Coercive string conversion as an internal function receives it
   * (no strict_types): an array is a TypeError, written None.
   */
  function StrOf(v: Val): (r: Option<string>)
    ensures r.None? <==> v.Arr?
    ensures v.IsString() ==> r == Some(v.x.s)
  {
    match v
    case Arr(_) => None
    case Leaf(x) =>
      match x
      case Null => Some("")
      case Bool(b) => Some(if b then "1" else "")
      case Int(i) => Some(IntToString(i))
      case Str(s) => Some(s)
  }

  // ---------------------------------------------------------------
  // Ordered arrays
  // ---------------------------------------------------------------

  predicate HasKey<V>(es: seq<(string, V)>, k: string) {
    exists i :: 0 <= i < |es| && es[i].0 == k
  }

  predicate DistinctKeys<V>(es: seq<(string, V)>) {
    forall i, j :: 0 <= i < j < |es| ==> es[i].0 != es[j].0
  }

  lemma HasKeyCons<V>(es: seq<(string, V)>, k: string)
    requires |es| > 0
    ensures HasKey(es, k) <==> es[0].0 == k || HasKey(es[1..], k)
  {
    if HasKey(es, k) && es[0].0 != k {
      var i :| 0 <= i < |es| && es[i].0 == k;
      assert es[1..][i - 1].0 == k;
    }
    if HasKey(es[1..], k) {
      var i :| 0 <= i < |es[1..]| && es[1..][i].0 == k;
      assert es[i + 1].0 == k;
    }
  }

  /** `$a[$k]` for a present key (first entry with that key). */
  function Lookup<V>(es: seq<(string, V)>, k: string): (r: Option<V>)
    ensures r.Some? <==> HasKey(es, k)
  {
    if |es| == 0 then None
    else
      HasKeyCons(es, k);
      if es[0].0 == k then Some(es[0].1) else Lookup(es[1..], k)
  }

  /** `$a[$k] ?? null`: a missing key and a stored null read the same. */
  function Field(v: Val, k: string): Val {
    if v.Arr? then Lookup(v.es, k).GetOr(NULL) else NULL
  }

  /** `$a[$k] = $v`: overwrite in place when present, append otherwise. */
  function Put<V>(es: seq<(string, V)>, k: string, v: V): (r: seq<(string, V)>)
    ensures Lookup(r, k) == Some(v)
    ensures forall k' :: k' != k ==> Lookup(r, k') == Lookup(es, k')
    ensures HasKey(es, k) ==> |r| == |es| && Keys(r) == Keys(es)
    ensures !HasKey(es, k) ==> r == es + [(k, v)]
  {
    if |es| == 0 then [(k, v)]
    else
      HasKeyCons(es, k);
      if es[0].0 == k then [(k, v)] + es[1..]
      else [es[0]] + Put(es[1..], k, v)
  }

  /** Put adds nothing but the entry it writes. */
  lemma {:induction false} PutMember<V>(es: seq<(string, V)>, k: string, v: V, e: (string, V))
    requires e in Put(es, k, v)
    ensures e in es || e == (k, v)
    decreases |es|
  {
    if |es| > 0 && es[0].0 != k {
      if e != es[0] {
        PutMember(es[1..], k, v, e);
      }
    }
  }

  lemma {:induction false} PutDistinct<V>(es: seq<(string, V)>, k: string, v: V)
    requires DistinctKeys(es)
    ensures DistinctKeys(Put(es, k, v))
  {
    if HasKey(es, k) {
      var r := Put(es, k, v);
      assert forall i :: 0 <= i < |r| ==> r[i].0 == Keys(r)[i];
    }
  }

  /** `unset($a[$k])`. */
  function Remove<V>(es: seq<(string, V)>, k: string): (r: seq<(string, V)>)
    ensures !HasKey(r, k)
    ensures forall k' :: k' != k ==> Lookup(r, k') == Lookup(es, k')
  {
    if |es| == 0 then []
    else if es[0].0 == k then Remove(es[1..], k)
    else [es[0]] + Remove(es[1..], k)
  }

  function Keys<V>(es: seq<(string, V)>): (ks: seq<string>)
    ensures |ks| == |es|
    ensures forall i :: 0 <= i < |es| ==> ks[i] == es[i].0
  {
    if |es| == 0 then [] else [es[0].0] + Keys(es[1..])
  }

  function Values<V>(es: seq<(string, V)>): (vs: seq<V>)
    ensures |vs| == |es|
    ensures forall i :: 0 <= i < |es| ==> vs[i] == es[i].1
  {
    if |es| == 0 then [] else [es[0].1] + Values(es[1..])
  }

  /** `array_is_list`: keys are 0, 1, 2, ... in order (true for the empty array). */
  predicate IsList<V>(es: seq<(string, V)>) {
    forall i :: 0 <= i < |es| ==> es[i].0 == NatToString(i)
  }

  /** A PHP list built from values. */
  function ListOf<V>(vs: seq<V>): (es: seq<(string, V)>)
    ensures |es| == |vs| && IsList(es)
    ensures forall i :: 0 <= i < |vs| ==> es[i].1 == vs[i]
  {
    seq(|vs|, i requires 0 <= i < |vs| => (NatToString(i), vs[i]))
  }

  /** Reading a list back by position. */
  lemma {:induction false} LookupList<V>(es: seq<(string, V)>, i: nat)
    requires IsList(es) && i < |es|
    ensures Lookup(es, NatToString(i)) == Some(es[i].1)
  {
    NatToStringInjective();
    LookupFirst(es, i);
  }

  lemma {:induction false} LookupFirst<V>(es: seq<(string, V)>, i: nat)
    requires i < |es|
    requires forall j :: 0 <= j < i ==> es[j].0 != es[i].0
    ensures Lookup(es, es[i].0) == Some(es[i].1)
  {
    if i > 0 {
      LookupFirst(es[1..], i - 1);
    }
  }

  lemma NatToStringInjective()
    ensures forall a: nat, b: nat :: NatToString(a) == NatToString(b) ==> a == b
  {
    forall a: nat, b: nat | NatToString(a) == NatToString(b) ensures a == b {
      DigitsValueNatToString(a);
      DigitsValueNatToString(b);
    }
  }
}
