/**
 * Route::getRoutePath: from a route alias back to the route text it was
 * declared with, for building links. It never takes part in dispatch.
 */
module RouteLookup {
  import opened Base
  import opened Text
  import opened RouteCompiler

  predicate AliasAt(rs: seq<Record>, i: int, name: string) {
    0 <= i < |rs| && rs[i].alias == name
  }

  predicate FirstAliasAt(rs: seq<Record>, i: int, name: string) {
    AliasAt(rs, i, name) && forall j :: 0 <= j < i ==> !AliasAt(rs, j, name)
  }

  /** Null unless the name starts with '@'; otherwise the first record with that alias. */
  function RoutePath(name: string, rs: seq<Record>): (r: Option<string>)
    ensures !StartsWith(name, "@") ==> r.None?
    ensures StartsWith(name, "@") ==> (r.Some? <==> exists i :: AliasAt(rs, i, name))
    ensures r.Some? ==> exists i :: FirstAliasAt(rs, i, name) && rs[i].original == r.value
  {
    if !StartsWith(name, "@") then None else FirstOriginal(name, rs)
  }

  function FirstOriginal(name: string, rs: seq<Record>): (r: Option<string>)
    ensures r.Some? <==> exists i :: AliasAt(rs, i, name)
    ensures r.Some? ==> exists i :: FirstAliasAt(rs, i, name) && rs[i].original == r.value
  {
    if |rs| == 0 then None
    else if rs[0].alias == name then
      assert AliasAt(rs, 0, name);
      Some(rs[0].original)
    else
      var r := FirstOriginal(name, rs[1..]);
      assert forall i :: 1 <= i < |rs| ==> (AliasAt(rs, i, name) <==> AliasAt(rs[1..], i - 1, name));
      if r.Some? then
        var i :| FirstAliasAt(rs[1..], i, name) && rs[1..][i].original == r.value;
        assert FirstAliasAt(rs, i + 1, name);
        r
      else
        r
  }

  /** The alias of a compiled record leads back to its route text when no earlier record shares it. */
  lemma RoutePathOfRecord(rs: seq<Record>, i: nat)
    requires i < |rs| && StartsWith(rs[i].alias, "@")
    requires forall j :: 0 <= j < i ==> rs[j].alias != rs[i].alias
    ensures RoutePath(rs[i].alias, rs) == Some(rs[i].original)
  {
    var r := RoutePath(rs[i].alias, rs);
    assert AliasAt(rs, i, rs[i].alias);
    var k :| FirstAliasAt(rs, k, rs[i].alias) && rs[k].original == r.value;
    assert k == i;
  }
}
