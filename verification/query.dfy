/**
 * The ORM's SELECT builder: an immutable query state, the builder steps
 * that validate what they add, and the compiler that turns the state into
 * SQL text plus the map of bound parameters.
 *
 * Values given to `where` never reach the SQL text: each is bound under a
 * name ':w{i}' (or ':w{i}_{k}' for the k-th member of an IN list), and the
 * names are pairwise distinct.
 */
module Orm {
  import opened Base
  import opened Text
  import opened Php
  import TypeCheck

  /** The two exception classes the builder throws. */
  datatype Thrown = QueryException(message: string) | OrmException(message: string)

  datatype Built<+T> = Built(value: T) | Threw(e: Thrown)

  datatype WhereClause = WhereClause(field: string, op: string, value: Val)

  datatype JoinClause = JoinClause(kind: string, table: string, left: string, op: string, right: string)

  datatype Query = Query(
    table: string,
    select: seq<string>,
    where: seq<WhereClause>,
    order: seq<(string, string)>,
    joins: seq<JoinClause>,
    group: seq<string>,
    limit: Option<int>,
    offset: Option<int>)

  const WHERE_OPS: seq<string> := ["=", "!=", "<", "<=", ">", ">=", "LIKE", "NOT LIKE", "IN", "NOT IN", "IS", "IS NOT"]
  const JOIN_OPS: seq<string> := ["=", "!=", "<", "<=", ">", ">="]
  const JOIN_TYPES: seq<string> := ["INNER", "LEFT", "RIGHT"]
  const ORDER_DIRS: seq<string> := ["ASC", "DESC"]

  // ---------------------------------------------------------------
  // Identifiers
  // ---------------------------------------------------------------

  /** What `/^[A-Za-z0-9_\.]+$/` admits: the class, then at most one final "\n". */
  predicate IdentShape(v: string) {
    var b := TypeCheck.Body(v);
    |b| >= 1 && TypeCheck.AllIn(b, TypeCheck.Ident)
  }

  /** `assertIdentifier`: '*' or a match of the identifier regex; anything else throws. */
  function Identifier(v: string): (r: Built<string>)
    ensures r.Built? <==> v == "*" || IdentShape(v)
    ensures r.Built? ==> r.value == v
    ensures r.Threw? ==> r.e == QueryException("Invalid SQL identifier: " + v)
  {
    TypeCheck.PlusMatchMeans(v, TypeCheck.Ident);
    if v == "*" then Built(v)
    else if !TypeCheck.PlusMatch(v, TypeCheck.Ident) then Threw(QueryException("Invalid SQL identifier: " + v))
    else Built(v)
  }

  /** An accepted identifier carries no character outside the class except one final "\n". */
  lemma IdentifierCharacters(v: string, i: nat)
    requires Identifier(v).Built? && v != "*" && i < |v|
    ensures TypeCheck.InClass(TypeCheck.Ident, v[i]) || (i == |v| - 1 && v[i] == '\n')
  {
    var b := TypeCheck.Body(v);
    if i < |b| {
      assert v[i] == b[i];
    }
  }

  /** The identifiers of a list in order; the first bad one throws. */
  function Identifiers(vs: seq<string>): (r: Built<seq<string>>)
    ensures r.Built? <==> forall i :: 0 <= i < |vs| ==> Identifier(vs[i]).Built?
    ensures r.Built? ==> r.value == vs
    ensures r.Threw? ==>
      exists i :: 0 <= i < |vs| && Identifier(vs[i]) == Threw(r.e) && forall j :: 0 <= j < i ==> Identifier(vs[j]).Built?
  {
    if |vs| == 0 then Built([])
    else
      match Identifier(vs[0])
      case Threw(e) => Threw(e)
      case Built(_) =>
        var rest := Identifiers(vs[1..]);
        assert forall i :: 1 <= i < |vs| ==> vs[i] == vs[1..][i - 1];
        match rest
        case Threw(e) =>
          var i :| 0 <= i < |vs[1..]| && Identifier(vs[1..][i]) == Threw(e) &&
            forall j :: 0 <= j < i ==> Identifier(vs[1..][j]).Built?;
          assert Identifier(vs[i + 1]) == Threw(e);
          assert forall j :: 0 <= j < i + 1 ==> Identifier(vs[j]).Built?;
          Threw(e)
        case Built(_) =>
          assert [vs[0]] + vs[1..] == vs;
          Built(vs)
  }

  // ---------------------------------------------------------------
  // Builder steps
  // ---------------------------------------------------------------

  /** The constructor: the table is checked, every list starts empty and SELECT is '*'. */
  function New(table: string): (r: Built<Query>)
    ensures r.Built? <==> Identifier(table).Built?
    ensures r.Built? ==> r.value.table == table && r.value.select == ["*"]
    ensures r.Built? ==> r.value.where == [] && r.value.order == [] && r.value.joins == [] && r.value.group == []
    ensures r.Built? ==> r.value.limit.None? && r.value.offset.None?
  {
    match Identifier(table)
    case Threw(e) => Threw(e)
    case Built(t) => Built(Query(t, ["*"], [], [], [], [], None, None))
  }

  /** `select`: a single column is a one-element list; the list replaces the previous one. */
  function Select(q: Query, columns: seq<string>): (r: Built<Query>)
    ensures r.Built? <==> Identifiers(columns).Built?
    ensures r.Built? ==> r.value == q.(select := columns)
    ensures Identifiers(columns).Threw? ==> r == Threw(Identifiers(columns).e)
  {
    match Identifiers(columns)
    case Threw(e) => Threw(e)
    case Built(cs) => Built(q.(select := cs))
  }

  /** `groupBy`: like `select`, it replaces the previous list. */
  function GroupBy(q: Query, fields: seq<string>): (r: Built<Query>)
    ensures r.Built? <==> Identifiers(fields).Built?
    ensures r.Built? ==> r.value == q.(group := fields)
    ensures Identifiers(fields).Threw? ==> r == Threw(Identifiers(fields).e)
  {
    match Identifiers(fields)
    case Threw(e) => Threw(e)
    case Built(fs) => Built(q.(group := fs))
  }

  /** `where`: the upper-cased operator must be allowed (checked first), then the field. */
  function Where(q: Query, field: string, op: string, value: Val): (r: Built<Query>)
    ensures Upper(op) !in WHERE_OPS ==> r == Threw(QueryException("Invalid WHERE operator: " + Upper(op)))
    ensures Upper(op) in WHERE_OPS ==> r.Built? == Identifier(field).Built?
    ensures Upper(op) in WHERE_OPS && !Identifier(field).Built? ==>
      r == Threw(QueryException("Invalid SQL identifier: " + field))
    ensures r.Built? ==> r.value == q.(where := q.where + [WhereClause(field, Upper(op), value)])
  {
    var o := Upper(op);
    if o !in WHERE_OPS then Threw(QueryException("Invalid WHERE operator: " + o))
    else
      match Identifier(field)
      case Threw(e) => Threw(e)
      case Built(f) => Built(q.(where := q.where + [WhereClause(f, o, value)]))
  }

  /** `join`: the type is checked, then the operator, then table, left and right in that order. */
  function Join(q: Query, table: string, left: string, op: string, right: string, kind: string): (r: Built<Query>)
    ensures Upper(kind) !in JOIN_TYPES ==> r == Threw(QueryException("Invalid JOIN type: " + Upper(kind)))
    ensures Upper(kind) in JOIN_TYPES && Upper(op) !in JOIN_OPS ==>
      r == Threw(QueryException("Invalid JOIN operator: " + Upper(op)))
    ensures r.Built? <==> (Upper(kind) in JOIN_TYPES && Upper(op) in JOIN_OPS &&
                           Identifier(table).Built? && Identifier(left).Built? && Identifier(right).Built?)
    ensures r.Built? ==> r.value == q.(joins := q.joins + [JoinClause(Upper(kind), table, left, Upper(op), right)])
    ensures Upper(kind) in JOIN_TYPES && Upper(op) in JOIN_OPS && !Identifier(table).Built? ==>
      r == Threw(QueryException("Invalid SQL identifier: " + table))
    ensures Upper(kind) in JOIN_TYPES && Upper(op) in JOIN_OPS && Identifier(table).Built? && !Identifier(left).Built? ==>
      r == Threw(QueryException("Invalid SQL identifier: " + left))
    ensures Upper(kind) in JOIN_TYPES && Upper(op) in JOIN_OPS && Identifier(table).Built? && Identifier(left).Built? &&
            !Identifier(right).Built? ==>
      r == Threw(QueryException("Invalid SQL identifier: " + right))
  {
    var o := Upper(op);
    var k := Upper(kind);
    if k !in JOIN_TYPES then Threw(QueryException("Invalid JOIN type: " + k))
    else if o !in JOIN_OPS then Threw(QueryException("Invalid JOIN operator: " + o))
    else
      match Identifier(table)
      case Threw(e) => Threw(e)
      case Built(t) =>
        match Identifier(left)
        case Threw(e) => Threw(e)
        case Built(l) =>
          match Identifier(right)
          case Threw(e) => Threw(e)
          case Built(rt) => Built(q.(joins := q.joins + [JoinClause(k, t, l, o, rt)]))
  }

  /** `orderBy`: ASC or DESC in any case, then the field. */
  function OrderBy(q: Query, field: string, dir: string): (r: Built<Query>)
    ensures Upper(dir) !in ORDER_DIRS ==> r == Threw(QueryException("Invalid ORDER direction: " + Upper(dir)))
    ensures r.Built? <==> Upper(dir) in ORDER_DIRS && Identifier(field).Built?
    ensures r.Built? ==> r.value == q.(order := q.order + [(field, Upper(dir))])
    ensures Upper(dir) in ORDER_DIRS && !Identifier(field).Built? ==>
      r == Threw(QueryException("Invalid SQL identifier: " + field))
  {
    var d := Upper(dir);
    if d !in ORDER_DIRS then Threw(QueryException("Invalid ORDER direction: " + d))
    else
      match Identifier(field)
      case Threw(e) => Threw(e)
      case Built(f) => Built(q.(order := q.order + [(f, d)]))
  }

  const NEGATIVE_LIMIT := "LIMIT and OFFSET must be positive integers"

  /** `limit`: both numbers are set together; a negative one throws. */
  function Limit(q: Query, limit: int, offset: int): (r: Built<Query>)
    ensures r.Built? <==> limit >= 0 && offset >= 0
    ensures r.Threw? ==> r.e == QueryException(NEGATIVE_LIMIT)
    ensures r.Built? ==> r.value == q.(limit := Some(limit), offset := Some(offset))
  {
    if limit < 0 || offset < 0 then Threw(QueryException(NEGATIVE_LIMIT))
    else Built(q.(limit := Some(limit), offset := Some(offset)))
  }

  // ---------------------------------------------------------------
  // The compiler
  // ---------------------------------------------------------------

  /** The name a scalar WHERE value of clause i is bound under. */
  function ScalarName(i: nat): string {
    ":w" + NatToString(i)
  }

  /** The name of member k of clause i's IN list. */
  function MemberName(i: nat, k: string): string {
    ":w" + NatToString(i) + "_" + k
  }

  predicate IsTest(op: string) { op == "IS" || op == "IS NOT" }
  predicate InTest(op: string) { op == "IN" || op == "NOT IN" }

  /**
   * The placeholders of an IN list, numbered by position: member j is bound
   * under ':w{i}_{j}'. On a PHP list (keys 0, 1, ...) this is what the
   * source's key-based names give too; see MemberBindsAsWritten.
   */
  function MemberBinds(i: nat, es: Entries): (bs: Entries)
    ensures |bs| == |es|
  {
    seq(|es|, j requires 0 <= j < |es| => (MemberName(i, NatToString(j)), es[j].1))
  }

  /** The bindings a clause that compiles adds: none for IS, one per member for IN, else one. */
  function Binds(w: WhereClause, i: nat): Entries {
    var op := Upper(w.op);
    if IsTest(op) then []
    else if InTest(op) then (if w.value.Arr? then MemberBinds(i, w.value.es) else [])
    else [(ScalarName(i), w.value)]
  }

  /** The clauses the compiler refuses. */
  predicate Rejected(w: WhereClause) {
    var op := Upper(w.op);
    (IsTest(op) && !w.value.IsNull()) || (InTest(op) && !(w.value.Arr? && w.value.es != []))
  }

  /** One WHERE clause: its SQL text and the values it binds. */
  function ClauseOf(w: WhereClause, i: nat): (r: Built<(string, Entries)>)
    ensures r.Threw? <==> Rejected(w)
    ensures r.Threw? && IsTest(Upper(w.op)) ==> r.e == OrmException("Operator " + Upper(w.op) + " supports only NULL")
    ensures r.Threw? && InTest(Upper(w.op)) ==> r.e == OrmException("Operator " + Upper(w.op) + " requires non-empty array")
    ensures r.Built? ==> r.value.1 == Binds(w, i)
    ensures r.Built? ==> StartsWith(r.value.0, w.field + " " + Upper(w.op) + " ")
  {
    var op := Upper(w.op);
    var lead := w.field + " " + op + " ";
    if IsTest(op) then
      if !w.value.IsNull() then Threw(OrmException("Operator " + op + " supports only NULL"))
      else Built((Prefixed(lead, "NULL"), []))
    else if InTest(op) then
      if !w.value.Arr? || w.value.es == [] then Threw(OrmException("Operator " + op + " requires non-empty array"))
      else
        var bs := MemberBinds(i, w.value.es);
        Built((Prefixed(lead, "(" + Text.Join(Keys(bs), ",") + ")"), bs))
    else
      Built((Prefixed(lead, ScalarName(i)), [(ScalarName(i), w.value)]))
  }

  function Prefixed(lead: string, rest: string): (r: string)
    ensures StartsWith(r, lead)
  {
    assert (lead + rest)[..|lead|] == lead;
    lead + rest
  }

  /** `$params[$p] = $v` for each binding in turn. */
  function PutAll(params: Entries, bs: Entries): Entries
    decreases |bs|
  {
    if |bs| == 0 then params else PutAll(Put(params, bs[0].0, bs[0].1), bs[1..])
  }

  /** The WHERE clauses from index i on: their texts and the parameters, added to `params`. */
  function Clauses(ws: seq<WhereClause>, i: nat, params: Entries): (r: Built<(seq<string>, Entries)>)
    requires i <= |ws|
    ensures r.Built? <==> forall j :: i <= j < |ws| ==> !Rejected(ws[j])
    ensures r.Built? ==> |r.value.0| == |ws| - i
    decreases |ws| - i
  {
    if i == |ws| then Built(([], params))
    else
      match ClauseOf(ws[i], i)
      case Threw(e) => Threw(e)
      case Built(c) =>
        match Clauses(ws, i + 1, PutAll(params, c.1))
        case Threw(e) => Threw(e)
        case Built(rest) => Built(([c.0] + rest.0, rest.1))
  }

  /** One step of a successful compile: clause i's text heads the texts of the rest. */
  lemma ClausesStep(ws: seq<WhereClause>, i: nat, p: Entries)
    requires i < |ws| && Clauses(ws, i, p).Built?
    ensures ClauseOf(ws[i], i).Built?
    ensures var c := ClauseOf(ws[i], i).value;
      var rest := Clauses(ws, i + 1, PutAll(p, c.1));
      rest.Built? && Clauses(ws, i, p).value == ([c.0] + rest.value.0, rest.value.1)
  {
  }

  /** Every binding of the clauses from i on, in clause order. */
  function AllBinds(ws: seq<WhereClause>, i: nat): Entries
    requires i <= |ws|
    decreases |ws| - i
  {
    if i == |ws| then [] else Binds(ws[i], i) + AllBinds(ws, i + 1)
  }

  // ---------------------------------------------------------------
  // Placeholder names
  // ---------------------------------------------------------------

  /** The clause a placeholder name belongs to: the number after ':w', ended by '_' or the end. */
  function ClauseIndex(name: string): Option<nat> {
    if |name| < 2 || name[..2] != ":w" then None
    else
      var t := name[2..];
      var n := DigitRun(t);
      if n == 0 || (n < |t| && t[n] != '_') then None
      else Some(DigitsValue(t[..n]))
  }

  lemma {:induction false} DigitRunPrefix(d: string, rest: string)
    requires forall k :: 0 <= k < |d| ==> IsDigit(d[k])
    requires rest == [] || !IsDigit(rest[0])
    ensures DigitRun(d + rest) == |d|
    decreases |d|
  {
    if |d| > 0 {
      assert (d + rest)[1..] == d[1..] + rest;
      DigitRunPrefix(d[1..], rest);
    } else {
      assert d + rest == rest;
    }
  }

  /** Every name the compiler makes can be traced back to its clause. */
  lemma ClauseIndexOf(i: nat, rest: string)
    requires rest == [] || rest[0] == '_'
    ensures ClauseIndex(":w" + NatToString(i) + rest) == Some(i)
  {
    var name := ":w" + NatToString(i) + rest;
    var d := NatToString(i);
    assert name[..2] == ":w";
    assert name[2..] == d + rest;
    DigitRunPrefix(d, rest);
    assert (d + rest)[..|d|] == d;
    DigitsValueNatToString(i);
  }

  lemma ScalarNameIndex(i: nat)
    ensures ClauseIndex(ScalarName(i)) == Some(i)
  {
    assert ScalarName(i) == ":w" + NatToString(i) + "";
    ClauseIndexOf(i, "");
  }

  lemma MemberNameIndex(i: nat, k: string)
    ensures ClauseIndex(MemberName(i, k)) == Some(i)
  {
    assert MemberName(i, k) == ":w" + NatToString(i) + ("_" + k);
    ClauseIndexOf(i, "_" + k);
  }

  /** Every binding of clause i is named for clause i. */
  lemma BindsIndex(w: WhereClause, i: nat, k: nat)
    requires k < |Binds(w, i)|
    ensures ClauseIndex(Binds(w, i)[k].0) == Some(i)
  {
    var op := Upper(w.op);
    if InTest(op) && w.value.Arr? {
      MemberNameIndex(i, NatToString(k));
    } else {
      ScalarNameIndex(i);
    }
  }

  lemma BindsDistinct(w: WhereClause, i: nat)
    ensures DistinctKeys(Binds(w, i))
  {
    var op := Upper(w.op);
    if !IsTest(op) && InTest(op) && w.value.Arr? {
      var bs := Binds(w, i);
      forall a, b | 0 <= a < b < |bs| ensures bs[a].0 != bs[b].0 {
        var lead := ":w" + NatToString(i) + "_";
        assert bs[a].0 == lead + NatToString(a);
        assert bs[b].0 == lead + NatToString(b);
        if bs[a].0 == bs[b].0 {
          assert NatToString(a) == (lead + NatToString(a))[|lead|..];
          assert NatToString(b) == (lead + NatToString(b))[|lead|..];
          NatToStringInjective();
        }
      }
    }
  }

  /** A name is taken by a clause before i. */
  predicate Below(name: string, i: nat) {
    ClauseIndex(name).Some? && ClauseIndex(name).value < i
  }

  lemma HasKeyAppend(p: Entries, x: (string, Val), key: string)
    ensures HasKey(p + [x], key) <==> HasKey(p, key) || x.0 == key
  {
    if HasKey(p + [x], key) && x.0 != key {
      var m :| 0 <= m < |p + [x]| && (p + [x])[m].0 == key;
      assert p[m].0 == key;
    }
    if HasKey(p, key) {
      var m :| 0 <= m < |p| && p[m].0 == key;
      assert (p + [x])[m] == p[m];
    }
    if x.0 == key {
      assert (p + [x])[|p|] == x;
    }
  }

  lemma DistinctTail(bs: Entries)
    requires DistinctKeys(bs) && |bs| > 0
    ensures DistinctKeys(bs[1..])
  {
    var rest := bs[1..];
    forall a, b | 0 <= a < b < |rest| ensures rest[a].0 != rest[b].0 {
      assert rest[a] == bs[a + 1] && rest[b] == bs[b + 1];
    }
  }

  /** No name of `bs` is a name of `p`. */
  predicate Fresh(p: Entries, bs: Entries) {
    forall a, b :: 0 <= a < |p| && 0 <= b < |bs| ==> p[a].0 != bs[b].0
  }

  lemma FreshHead(p: Entries, bs: Entries)
    requires Fresh(p, bs) && |bs| > 0
    ensures !HasKey(p, bs[0].0)
  {
  }

  /** After the first new name is appended, the remaining names are still new. */
  lemma FreshTail(p: Entries, bs: Entries)
    requires DistinctKeys(bs) && Fresh(p, bs) && |bs| > 0
    ensures Fresh(p + [bs[0]], bs[1..])
  {
    var p1 := p + [bs[0]];
    forall a, b | 0 <= a < |p1| && 0 <= b < |bs[1..]| ensures p1[a].0 != bs[1..][b].0 {
      assert bs[1..][b] == bs[b + 1];
      if a < |p| {
        assert p1[a] == p[a];
      }
    }
  }

  /** Putting names that are new appends them. */
  lemma PutAllCons(p: Entries, bs: Entries)
    requires |bs| > 0 && !HasKey(p, bs[0].0)
    ensures PutAll(p, bs) == PutAll(p + [bs[0]], bs[1..])
  {
  }

  lemma AppendCons(p: Entries, bs: Entries)
    requires |bs| > 0
    ensures (p + [bs[0]]) + bs[1..] == p + bs
  {
  }

  lemma {:induction false} PutAllFresh(p: Entries, bs: Entries)
    requires DistinctKeys(bs) && Fresh(p, bs)
    ensures PutAll(p, bs) == p + bs
    decreases |bs|
  {
    if |bs| > 0 {
      FreshHead(p, bs);
      var p1 := p + [bs[0]];
      PutAllCons(p, bs);
      FreshTail(p, bs);
      DistinctTail(bs);
      PutAllFresh(p1, bs[1..]);
      AppendCons(p, bs);
    }
  }

  /** The bindings of clause i take no name already used by the clauses before it. */
  lemma BindsFresh(p: Entries, w: WhereClause, i: nat)
    requires forall m :: 0 <= m < |p| ==> Below(p[m].0, i)
    ensures Fresh(p, Binds(w, i))
  {
    forall a, b | 0 <= a < |p| && 0 <= b < |Binds(w, i)| ensures p[a].0 != Binds(w, i)[b].0 {
      BindsIndex(w, i, b);
      assert Below(p[a].0, i);
    }
  }

  /** Adding clause i's bindings keeps the names distinct and all below i + 1. */
  lemma BindsExtend(p: Entries, w: WhereClause, i: nat)
    requires DistinctKeys(p)
    requires forall m :: 0 <= m < |p| ==> Below(p[m].0, i)
    ensures DistinctKeys(p + Binds(w, i))
    ensures forall m :: 0 <= m < |p + Binds(w, i)| ==> Below((p + Binds(w, i))[m].0, i + 1)
  {
    var bs := Binds(w, i);
    var p1 := p + bs;
    BindsDistinct(w, i);
    forall a, b | 0 <= a < b < |p1| ensures p1[a].0 != p1[b].0 {
      if b < |p| {
        assert p1[a] == p[a] && p1[b] == p[b];
      } else if a >= |p| {
        assert p1[a] == bs[a - |p|] && p1[b] == bs[b - |p|];
      } else {
        assert p1[a] == p[a] && p1[b] == bs[b - |p|];
        BindsIndex(w, i, b - |p|);
        assert Below(p[a].0, i);
      }
    }
    forall m | 0 <= m < |p1| ensures Below(p1[m].0, i + 1) {
      if m >= |p| {
        assert p1[m] == bs[m - |p|];
        BindsIndex(w, i, m - |p|);
      } else {
        assert p1[m] == p[m];
      }
    }
  }

  /**
   * Compiling the clauses from i on appends exactly their bindings to the
   * parameters so far, and the names stay pairwise distinct.
   */
  lemma {:induction false} ClausesParams(ws: seq<WhereClause>, i: nat, p: Entries)
    requires i <= |ws|
    requires DistinctKeys(p)
    requires forall k :: 0 <= k < |p| ==> Below(p[k].0, i)
    requires Clauses(ws, i, p).Built?
    ensures Clauses(ws, i, p).value.1 == p + AllBinds(ws, i)
    ensures DistinctKeys(p + AllBinds(ws, i))
    decreases |ws| - i
  {
    if i < |ws| {
      var bs := Binds(ws[i], i);
      ParamsStep(ws, i, p);
      BindsExtend(p, ws[i], i);
      ClausesParams(ws, i + 1, p + bs);
      AllBindsCons(ws, i, p);
    }
  }

  /** Clause i's bindings are new, so putting them appends them. */
  lemma ParamsStep(ws: seq<WhereClause>, i: nat, p: Entries)
    requires i < |ws|
    requires forall k :: 0 <= k < |p| ==> Below(p[k].0, i)
    requires Clauses(ws, i, p).Built?
    ensures var bs := Binds(ws[i], i);
      Clauses(ws, i + 1, p + bs).Built? &&
      Clauses(ws, i, p).value.1 == Clauses(ws, i + 1, p + bs).value.1
  {
    var bs := Binds(ws[i], i);
    ClausesStep(ws, i, p);
    BindsDistinct(ws[i], i);
    BindsFresh(p, ws[i], i);
    PutAllFresh(p, bs);
  }

  lemma AllBindsCons(ws: seq<WhereClause>, i: nat, p: Entries)
    requires i < |ws|
    ensures (p + Binds(ws[i], i)) + AllBinds(ws, i + 1) == p + AllBinds(ws, i)
  {
  }

  /** A binding of clause i is among the bindings of the clauses from i0 on. */
  lemma {:induction false} BindsInAll(ws: seq<WhereClause>, i0: nat, i: nat, k: nat)
    requires i0 <= i < |ws| && k < |Binds(ws[i], i)|
    ensures Binds(ws[i], i)[k] in AllBinds(ws, i0)
    decreases i - i0
  {
    if i0 < i {
      BindsInAll(ws, i0 + 1, i, k);
    }
  }

  /** Each binding of the clauses from i0 on comes from the clause it is named for. */
  lemma {:induction false} AllBindsOwner(ws: seq<WhereClause>, i0: nat, k: nat)
    requires i0 <= |ws| && k < |AllBinds(ws, i0)|
    ensures ClauseIndex(AllBinds(ws, i0)[k].0).Some?
    ensures var j := ClauseIndex(AllBinds(ws, i0)[k].0).value;
      i0 <= j < |ws| && AllBinds(ws, i0)[k] in Binds(ws[j], j)
    decreases |ws| - i0
  {
    var bs := Binds(ws[i0], i0);
    if k < |bs| {
      BindsIndex(ws[i0], i0, k);
    } else {
      AllBindsOwner(ws, i0 + 1, k - |bs|);
    }
  }

  lemma LookupMember(es: Entries, e: (string, Val))
    requires DistinctKeys(es) && e in es
    ensures Lookup(es, e.0) == Some(e.1)
  {
    var i :| 0 <= i < |es| && es[i] == e;
    LookupFirst(es, i);
  }

  /** The parameters of a compiled query: all bindings, clause by clause, under distinct names. */
  lemma CompiledParams(q: Query)
    requires CompileSelect(q).Built?
    ensures CompileSelect(q).value.params == AllBinds(q.where, 0)
    ensures DistinctKeys(CompileSelect(q).value.params)
  {
    ClausesParams(q.where, 0, []);
    assert [] + AllBinds(q.where, 0) == AllBinds(q.where, 0);
  }

  /** A comparison or LIKE clause binds its value under ':w{i}'. */
  lemma ScalarBound(q: Query, i: nat)
    requires CompileSelect(q).Built? && i < |q.where|
    requires !IsTest(Upper(q.where[i].op)) && !InTest(Upper(q.where[i].op))
    ensures Lookup(CompileSelect(q).value.params, ScalarName(i)) == Some(q.where[i].value)
  {
    CompiledParams(q);
    BindsInAll(q.where, 0, i, 0);
    LookupMember(CompileSelect(q).value.params, (ScalarName(i), q.where[i].value));
  }

  /** Member j of an IN list in clause i is bound under ':w{i}_{j}'. */
  lemma MemberBound(q: Query, i: nat, j: nat)
    requires CompileSelect(q).Built? && i < |q.where|
    requires InTest(Upper(q.where[i].op)) && !IsTest(Upper(q.where[i].op))
    requires q.where[i].value.Arr? && j < |q.where[i].value.es|
    ensures Lookup(CompileSelect(q).value.params, MemberName(i, NatToString(j))) == Some(q.where[i].value.es[j].1)
  {
    CompiledParams(q);
    BindsInAll(q.where, 0, i, j);
    LookupMember(CompileSelect(q).value.params, (MemberName(i, NatToString(j)), q.where[i].value.es[j].1));
  }

  /** An IS / IS NOT clause binds nothing: no parameter is named for it. */
  lemma IsBindsNothing(q: Query, i: nat, k: nat)
    requires CompileSelect(q).Built? && i < |q.where| && IsTest(Upper(q.where[i].op))
    requires k < |CompileSelect(q).value.params|
    ensures ClauseIndex(CompileSelect(q).value.params[k].0) != Some(i)
  {
    CompiledParams(q);
    AllBindsOwner(q.where, 0, k);
  }

  // ---------------------------------------------------------------
  // No value reaches the SQL text
  // ---------------------------------------------------------------

  /** Two clauses that differ at most in their values, IN lists being of one length. */
  predicate SameShape(a: WhereClause, b: WhereClause) {
    a.field == b.field && a.op == b.op &&
    (a.value.Arr? && b.value.Arr? ==> |a.value.es| == |b.value.es|)
  }

  lemma ClauseTextShape(a: WhereClause, b: WhereClause, i: nat)
    requires SameShape(a, b) && ClauseOf(a, i).Built? && ClauseOf(b, i).Built?
    ensures ClauseOf(a, i).value.0 == ClauseOf(b, i).value.0
  {
    var op := Upper(a.op);
    if !IsTest(op) && InTest(op) {
      var ka := Keys(MemberBinds(i, a.value.es));
      var kb := Keys(MemberBinds(i, b.value.es));
      assert ka == kb;
    }
  }

  lemma {:induction false} ClausesTextShape(ws1: seq<WhereClause>, ws2: seq<WhereClause>, i: nat, p1: Entries, p2: Entries)
    requires |ws1| == |ws2| && i <= |ws1|
    requires forall j :: 0 <= j < |ws1| ==> SameShape(ws1[j], ws2[j])
    requires Clauses(ws1, i, p1).Built? && Clauses(ws2, i, p2).Built?
    ensures Clauses(ws1, i, p1).value.0 == Clauses(ws2, i, p2).value.0
    decreases |ws1| - i
  {
    if i < |ws1| {
      ClauseTextShape(ws1[i], ws2[i], i);
      ClausesTextShape(ws1, ws2, i + 1, PutAll(p1, ClauseOf(ws1[i], i).value.1), PutAll(p2, ClauseOf(ws2[i], i).value.1));
    }
  }

  /**
   * The SQL text does not depend on the WHERE values: two queries that
   * differ only there (IN lists of equal length) compile to the same text.
   */
  lemma CompileIgnoresValues(q1: Query, q2: Query)
    requires q1.(where := q2.where) == q2 && |q1.where| == |q2.where|
    requires forall j :: 0 <= j < |q1.where| ==> SameShape(q1.where[j], q2.where[j])
    requires CompileSelect(q1).Built? && CompileSelect(q2).Built?
    ensures CompileSelect(q1).value.sql == CompileSelect(q2).value.sql
  {
    ClausesTextShape(q1.where, q2.where, 0, [], []);
  }

  // ---------------------------------------------------------------
  // The source's IN placeholders
  // ---------------------------------------------------------------

  /** Two keys of one clause give one placeholder name only when they are the same key. */
  lemma MemberNamesApart(i: nat)
    ensures forall a, b :: MemberName(i, a) == MemberName(i, b) ==> a == b
  {
    forall a, b | MemberName(i, a) == MemberName(i, b) ensures a == b {
      var lead := ":w" + NatToString(i) + "_";
      assert a == MemberName(i, a)[|lead|..];
      assert b == MemberName(i, b)[|lead|..];
    }
  }

  /**
   * As written: member k of an IN list is named after its array key, so
   * the members of an array (whose keys are distinct) never share a name
   * and `$params[$p] = $v` overwrites none of them.
   */
  function MemberBindsAsWritten(i: nat, es: Entries): (bs: Entries)
    ensures |bs| == |es|
    ensures forall j, k :: 0 <= j < |es| && 0 <= k < |es| && es[j].0 != es[k].0 ==> bs[j].0 != bs[k].0
  {
    MemberNamesApart(i);
    seq(|es|, j requires 0 <= j < |es| => (MemberName(i, es[j].0), es[j].1))
  }

  /** As written: the IN clause text, with the key-based placeholders. */
  function InClauseAsWritten(field: string, op: string, i: nat, es: Entries): (r: string)
    ensures StartsWith(r, field + " " + op + " (")
  {
    Prefixed(field + " " + op + " (", Text.Join(Keys(MemberBindsAsWritten(i, es)), ",") + ")")
  }

  /** On a PHP list the code's IN clause is the one the model compiles, text and bindings alike. */
  lemma InClauseOnList(field: string, op: string, i: nat, es: Entries)
    requires IsList(es) && es != [] && InTest(Upper(op))
    ensures ClauseOf(WhereClause(field, op, Arr(es)), i)
      == Built((InClauseAsWritten(field, Upper(op), i, es), MemberBindsAsWritten(i, es)))
  {
    MemberBindsOnList(i, es);
    var lead := field + " " + Upper(op) + " ";
    assert lead + ("(" + Text.Join(Keys(MemberBinds(i, es)), ",") + ")")
      == field + " " + Upper(op) + " (" + (Text.Join(Keys(MemberBinds(i, es)), ",") + ")");
  }

  /** On a PHP list the two namings agree. */
  lemma MemberBindsOnList(i: nat, es: Entries)
    requires IsList(es)
    ensures MemberBindsAsWritten(i, es) == MemberBinds(i, es)
  {
  }

  /** As written, the key of a one-member IN list is copied into the SQL text. */
  lemma KeyInlinedAsWritten(field: string, op: string, i: nat, k: string, v: Val)
    ensures InClauseAsWritten(field, op, i, [(k, v)]) == field + " " + op + " (:w" + NatToString(i) + "_" + k + ")"
  {
    assert Keys(MemberBindsAsWritten(i, [(k, v)])) == [MemberName(i, k)];
  }

  /** So two IN lists of the same length compile to different SQL when their keys differ. */
  lemma KeysChangeSqlAsWritten(field: string, op: string, i: nat, k1: string, k2: string, v: Val)
    requires k1 != k2
    ensures InClauseAsWritten(field, op, i, [(k1, v)]) != InClauseAsWritten(field, op, i, [(k2, v)])
  {
    KeyInlinedAsWritten(field, op, i, k1, v);
    KeyInlinedAsWritten(field, op, i, k2, v);
    var lead := field + " " + op + " (:w" + NatToString(i) + "_";
    assert (lead + k1 + ")")[|lead|..|lead| + |k1|] == k1;
    assert (lead + k2 + ")")[|lead|..|lead| + |k2|] == k2;
  }

  function JoinText(j: JoinClause): string {
    " " + j.kind + " JOIN " + j.table + " ON " + j.left + " " + j.op + " " + j.right
  }

  function JoinsText(js: seq<JoinClause>): string {
    if |js| == 0 then "" else JoinText(js[0]) + JoinsText(js[1..])
  }

  function OrderTerms(os: seq<(string, string)>): (ts: seq<string>)
    ensures |ts| == |os|
    ensures forall i :: 0 <= i < |os| ==> ts[i] == os[i].0 + " " + os[i].1
  {
    if |os| == 0 then [] else [os[0].0 + " " + os[0].1] + OrderTerms(os[1..])
  }

  /** The LIMIT tail: OFFSET only when an offset is set and not zero. */
  function LimitText(limit: Option<int>, offset: Option<int>): string {
    if limit.None? then ""
    else if offset.Some? && offset.value != 0 then " LIMIT " + IntToString(limit.value) + " OFFSET " + IntToString(offset.value)
    else " LIMIT " + IntToString(limit.value)
  }

  lemma LimitHeadNoOffset(n: int)
    ensures !Contains(" LIMIT " + IntToString(n), " OFFSET ")
  {
    var h := " LIMIT " + IntToString(n);
    assert forall i :: 0 <= i < |h| ==> h[i] != 'O' by {
      forall i | 0 <= i < |h| ensures h[i] != 'O' {
        if i >= 7 {
          assert h[i] == IntToString(n)[i - 7];
          IntToStringChars(n, i - 7);
        }
      }
    }
    NoLetterNoMatch(h, " OFFSET ", 'O');
  }

  lemma IntToStringChars(n: int, j: nat)
    requires j < |IntToString(n)|
    ensures IntToString(n)[j] == '-' || IsDigit(IntToString(n)[j])
  {
    if n < 0 && j > 0 {
      assert IntToString(n)[j] == NatToString(-n)[j - 1];
    }
  }

  /** A text without some letter of `sub` cannot contain `sub`. */
  lemma {:induction false} NoLetterNoMatch(s: string, sub: string, c: char)
    requires c in sub
    requires forall i :: 0 <= i < |s| ==> s[i] != c
    ensures !Contains(s, sub)
    decreases |s|
  {
    if |s| > 0 {
      NoLetterNoMatch(s[1..], sub, c);
    }
  }

  /** What `compileSelect` returns: the SQL text and the bound parameters. */
  datatype Compiled = Compiled(sql: string, params: Entries)

  function Head(q: Query): string {
    "SELECT " + Text.Join(q.select, ", ") + " FROM " + q.table
  }

  function WhereText(q: Query, texts: seq<string>): string {
    if |q.where| > 0 then " WHERE " + Text.Join(texts, " AND ") else ""
  }

  function GroupText(q: Query): string {
    if |q.group| > 0 then " GROUP BY " + Text.Join(q.group, ", ") else ""
  }

  function OrderText(q: Query): string {
    if |q.order| > 0 then " ORDER BY " + Text.Join(OrderTerms(q.order), ", ") else ""
  }

  /** The SQL text, the WHERE clause texts being given. */
  function Sql(q: Query, texts: seq<string>): string {
    Head(q) + Middle(q, texts) + LimitText(q.limit, q.offset)
  }

  /** The joins, WHERE, GROUP BY and ORDER BY parts, in that order. */
  function Middle(q: Query, texts: seq<string>): string {
    JoinsText(q.joins) + WhereText(q, texts) + GroupText(q) + OrderText(q)
  }

  /** `compileSelect`: it throws exactly when some WHERE clause is refused. */
  function CompileSelect(q: Query): (r: Built<Compiled>)
    ensures r.Built? <==> forall j :: 0 <= j < |q.where| ==> !Rejected(q.where[j])
    ensures r.Built? ==> r.value == Compiled(Sql(q, Clauses(q.where, 0, []).value.0), Clauses(q.where, 0, []).value.1)
  {
    match Clauses(q.where, 0, [])
    case Threw(e) => Threw(e)
    case Built(c) => Built(Compiled(Sql(q, c.0), c.1))
  }

  /** The clauses from i on throw the error of the first refused one. */
  lemma {:induction false} ClausesFirstRefused(ws: seq<WhereClause>, i: nat, p: Entries, j: nat)
    requires i <= j < |ws| && Rejected(ws[j])
    requires forall k :: i <= k < j ==> !Rejected(ws[k])
    ensures Clauses(ws, i, p) == Threw(ClauseOf(ws[j], j).e)
    decreases j - i
  {
    if i < j {
      ClausesFirstRefused(ws, i + 1, PutAll(p, ClauseOf(ws[i], i).value.1), j);
    }
  }

  /** A refused clause j, with none refused before it, is what compileSelect throws for. */
  lemma CompileFirstRefused(q: Query, j: nat)
    requires j < |q.where| && Rejected(q.where[j])
    requires forall k :: 0 <= k < j ==> !Rejected(q.where[k])
    ensures CompileSelect(q) == Threw(ClauseOf(q.where[j], j).e)
  {
    ClausesFirstRefused(q.where, 0, [], j);
  }

  /** The WHERE texts come out in clause order, text j being clause j's own. */
  lemma {:induction false} ClausesInOrder(ws: seq<WhereClause>, i: nat, p: Entries, j: nat)
    requires i <= j < |ws| && Clauses(ws, i, p).Built?
    ensures ClauseOf(ws[j], j).Built?
    ensures Clauses(ws, i, p).value.0[j - i] == ClauseOf(ws[j], j).value.0
    decreases j - i
  {
    ClausesStep(ws, i, p);
    var c := ClauseOf(ws[i], i).value;
    if i < j {
      var p1 := PutAll(p, c.1);
      ClausesInOrder(ws, i + 1, p1, j);
      var rest := Clauses(ws, i + 1, p1).value.0;
      assert Clauses(ws, i, p).value.0 == [c.0] + rest;
      assert ([c.0] + rest)[j - i] == rest[j - (i + 1)];
    }
  }

  lemma {:induction false} ContainsMiddle(a: string, b: string, c: string)
    ensures Contains(a + b + c, b)
    decreases |a|
  {
    if |a| == 0 {
      assert a + b + c == b + c;
      assert (b + c)[..|b|] == b;
    } else {
      assert (a + b + c)[1..] == a[1..] + b + c;
      ContainsMiddle(a[1..], b, c);
    }
  }

  /** OFFSET is written exactly when a limit is set and the offset is set and not zero. */
  lemma OffsetShown(limit: Option<int>, offset: Option<int>)
    ensures Contains(LimitText(limit, offset), " OFFSET ") <==> limit.Some? && offset.Some? && offset.value != 0
  {
    if limit.Some? && offset.Some? && offset.value != 0 {
      ContainsMiddle(" LIMIT " + IntToString(limit.value), " OFFSET ", IntToString(offset.value));
    }
    if limit.None? {
      ShorterNeverContains("", " OFFSET ");
    } else if !(offset.Some? && offset.value != 0) {
      LimitHeadNoOffset(limit.value);
    }
  }

  /** The SQL text opens with SELECT ... FROM and closes with the LIMIT tail. */
  lemma SqlLayout(q: Query, texts: seq<string>)
    ensures StartsWith(Sql(q, texts), Head(q))
    ensures EndsWith(Sql(q, texts), LimitText(q.limit, q.offset))
  {
    Affixes(Head(q), Middle(q, texts), LimitText(q.limit, q.offset));
  }

  lemma Affixes(a: string, m: string, z: string)
    ensures StartsWith(a + m + z, a) && EndsWith(a + m + z, z)
  {
    assert (a + m + z)[..|a|] == a;
    assert (a + m + z)[|a + m|..] == z;
  }

  /** `first()`: the query compiled from a copy with LIMIT 1 and OFFSET 0. */
  function First(q: Query): (r: Built<Compiled>)
    ensures r == CompileSelect(q.(limit := Some(1), offset := Some(0)))
    ensures r.Built? <==> CompileSelect(q).Built?
  {
    match Limit(q, 1, 0)
    case Threw(e) => Threw(e)
    case Built(c) => CompileSelect(c)
  }

  /** first() always ends in LIMIT 1, whatever limit and offset the builder holds: its offset is dropped. */
  lemma FirstLimitsToOne(q: Query)
    requires First(q).Built?
    ensures EndsWith(First(q).value.sql, " LIMIT 1")
    ensures !Contains(LimitText(Some(1), Some(0)), " OFFSET ")
  {
    var q1 := q.(limit := Some(1), offset := Some(0));
    SqlLayout(q1, Clauses(q1.where, 0, []).value.0);
    assert IntToString(1) == "1";
    OffsetShown(Some(1), Some(0));
  }
}
