/**
 * The middleware registry: which files are loaded (include mode 'all' or
 * 'custom'), the shape check each unit's returned array must pass, the
 * split into before- and after-hooks in load order, and the fail-fast
 * abort when any unit or listed file was rejected.
 *
 * The directory listing, `is_file`, and what `include` returns are
 * parameters; whether the 'run' entry is callable is decided outside the
 * model and comes with the included value.
 */
module Middleware {
  import opened Base
  import opened Text
  import opened Php
  import opened Links
  import Ctx
  import Dispatch

  /** What including a middleware file gave back. */
  datatype Included = Included(value: Val, runCallable: bool)

  datatype MwError = MwError(file: string, error: string)

  datatype Mode = All | Custom | Other

  const NOT_FOUND := "File declared but not found."
  const NOT_ARRAY := "Middleware does not return an array."
  const MISSING_KEYS := "Missing 'when' or 'run' keys."
  const NOT_CALLABLE := "The ‘run’ field is not a valid function."
  const INVALID_WHEN := "Invalid 'when' value: "

  /**
   * The `switch` on middleware_include_mode compares loosely: a string
   * must be 'all' or 'custom' exactly, and `true` equals the first case.
   */
  function ModeOf(v: Val): (m: Mode)
    ensures m.All? <==> v == S("all") || v == Leaf(Bool(true))
    ensures m.Custom? <==> v == S("custom")
  {
    match v
    case Leaf(Str(s)) => if s == "all" then All else if s == "custom" then Custom else Other
    case Leaf(Bool(b)) => if b then All else Other
    case _ => Other
  }

  datatype Selection = Selection(loaded: seq<string>, errors: seq<MwError>)

  /** The file a 'custom' list entry names: alias('mid:' . $entry, false). */
  function ListedFile(entry: Val, m: AliasMap, root: string): (r: Result<string>)
    ensures r.Fault? <==> entry.Arr?
  {
    match StrOf(entry)
    case None => Fault("Array to string conversion")
    case Some(name) => Ok(Alias(m, "mid:" + name, false, root))
  }

  /** The 'custom' loop over the listed entries, from entry i on. */
  function SelectListed(list: Entries, i: nat, m: AliasMap, root: string, isFile: string -> bool): (r: Result<Selection>)
    requires i <= |list|
    ensures r.Ok? ==> |r.value.loaded| + |r.value.errors| == |list| - i
    ensures r.Ok? ==> forall j :: 0 <= j < |r.value.errors| ==> r.value.errors[j].error == NOT_FOUND && !isFile(r.value.errors[j].file)
    ensures r.Ok? ==> forall j :: 0 <= j < |r.value.loaded| ==> isFile(r.value.loaded[j])
    ensures r.Fault? <==> exists j :: i <= j < |list| && list[j].1.Arr?
    decreases |list| - i
  {
    if i == |list| then Ok(Selection([], []))
    else
      var rest := SelectListed(list, i + 1, m, root, isFile);
      match ListedFile(list[i].1, m, root)
      case Fault(e) => Fault(e)
      case Ok(file) =>
        if rest.Fault? then rest
        else if isFile(file) then Ok(Selection([file] + rest.value.loaded, rest.value.errors))
        else Ok(Selection(rest.value.loaded, [MwError(file, NOT_FOUND)] + rest.value.errors))
  }

  /**
   * Which files are loaded, and the not-found errors of mode 'custom'.
   * A list setting that is not an array makes `foreach` warn.
   */
  function Select(mode: Val, list: Val, globbed: seq<string>, m: AliasMap, root: string, isFile: string -> bool): (r: Result<Selection>)
    ensures ModeOf(mode).All? ==> r == Ok(Selection(globbed, []))
    ensures ModeOf(mode).Other? ==> r == Ok(Selection([], []))
    ensures ModeOf(mode).Custom? && !list.Arr? ==> r.Fault?
  {
    match ModeOf(mode)
    case All => Ok(Selection(globbed, []))
    case Custom =>
      if list.Arr? then SelectListed(list.es, 0, m, root, isFile)
      else Fault(FOREACH_NOT_ARRAY)
    case Other => Ok(Selection([], []))
  }

  /** What one loaded unit contributes. */
  datatype Verdict = ToBefore | ToAfter | Reject(error: string) | Warn(reason: string)

  /** The checks on one unit, in the order the loader applies them. */
  function Check(inc: Included): (v: Verdict)
    ensures !inc.value.Arr? ==> v == Reject(NOT_ARRAY)
    ensures inc.value.Arr? && (Field(inc.value, "when").IsNull() || Field(inc.value, "run").IsNull()) ==> v == Reject(MISSING_KEYS)
    ensures v.ToBefore? <==> Accepted(inc) && Field(inc.value, "when") == S("before")
    ensures v.ToAfter? <==> Accepted(inc) && Field(inc.value, "when") == S("after")
    ensures v.Warn? <==> Accepted(inc) && Field(inc.value, "when").Arr?
  {
    if !inc.value.Arr? then Reject(NOT_ARRAY)
    else
      var when := Field(inc.value, "when");
      if when.IsNull() || Field(inc.value, "run").IsNull() then Reject(MISSING_KEYS)
      else if !inc.runCallable then Reject(NOT_CALLABLE)
      else if when == S("before") then ToBefore
      else if when == S("after") then ToAfter
      else
        match StrOf(when)
        case None => Warn("Array to string conversion")
        case Some(w) => Reject(INVALID_WHEN + w)
  }

  /** A unit that passes the array, key and callable checks. */
  predicate Accepted(inc: Included) {
    inc.value.Arr? && !Field(inc.value, "when").IsNull() && !Field(inc.value, "run").IsNull() && inc.runCallable
  }

  /** A loaded file with the verdict of its checks. */
  datatype Unit = Unit(file: string, verdict: Verdict)

  function Units(files: seq<string>, included: string -> Included): (us: seq<Unit>)
    ensures |us| == |files|
    ensures forall i :: 0 <= i < |files| ==> us[i] == Unit(files[i], Check(included(files[i])))
  {
    seq(|files|, i requires 0 <= i < |files| => Unit(files[i], Check(included(files[i]))))
  }

  datatype Registry = Registry(before: seq<string>, after: seq<string>, errors: seq<MwError>)

  /** One turn of the loop for a verdict that does not stop it. */
  function Step(acc: Registry, u: Unit): (r: Registry)
    requires !u.verdict.Warn?
    ensures r.before == acc.before + (if u.verdict.ToBefore? then [u.file] else [])
    ensures r.after == acc.after + (if u.verdict.ToAfter? then [u.file] else [])
    ensures r.errors == acc.errors + (if u.verdict.Reject? then [MwError(u.file, u.verdict.error)] else [])
  {
    match u.verdict
    case ToBefore => acc.(before := acc.before + [u.file])
    case ToAfter => acc.(after := acc.after + [u.file])
    case Reject(e) => acc.(errors := acc.errors + [MwError(u.file, e)])
  }

  /** The registration loop, written as the loader runs it: an accumulator over the units in load order. */
  function Register(us: seq<Unit>, acc: Registry): (r: Result<Registry>)
    decreases |us|
  {
    if |us| == 0 then Ok(acc)
    else if us[0].verdict.Warn? then Fault(us[0].verdict.reason)
    else Register(us[1..], Step(acc, us[0]))
  }

  // Reference definitions: what each kind of verdict selects, in order.

  function BeforeFiles(us: seq<Unit>): (r: seq<string>)
    ensures |r| <= |us|
  {
    if |us| == 0 then []
    else
      var rest := BeforeFiles(us[1..]);
      (if us[0].verdict.ToBefore? then [us[0].file] else []) + rest
  }

  function AfterFiles(us: seq<Unit>): (r: seq<string>)
    ensures |r| <= |us|
  {
    if |us| == 0 then []
    else
      var rest := AfterFiles(us[1..]);
      (if us[0].verdict.ToAfter? then [us[0].file] else []) + rest
  }

  function Rejections(us: seq<Unit>): (r: seq<MwError>)
    ensures |r| <= |us|
  {
    if |us| == 0 then []
    else
      var rest := Rejections(us[1..]);
      (if us[0].verdict.Reject? then [MwError(us[0].file, us[0].verdict.error)] else []) + rest
  }

  predicate NoWarn(us: seq<Unit>) {
    forall j :: 0 <= j < |us| ==> !us[j].verdict.Warn?
  }

  /**
   * The loop appends, in load order, exactly the before-units to the
   * before list, the after-units to the after list and one error per
   * rejected unit; a unit whose 'when' is an array stops everything.
   */
  lemma {:induction false} RegisterMeans(us: seq<Unit>, acc: Registry)
    ensures Register(us, acc).Ok? <==> NoWarn(us)
    ensures Register(us, acc).Ok? ==> Register(us, acc).value.before == acc.before + BeforeFiles(us)
    ensures Register(us, acc).Ok? ==> Register(us, acc).value.after == acc.after + AfterFiles(us)
    ensures Register(us, acc).Ok? ==> Register(us, acc).value.errors == acc.errors + Rejections(us)
    decreases |us|
  {
    if |us| > 0 {
      var u, tail := us[0], us[1..];
      if u.verdict.Warn? {
        assert !NoWarn(us) by { assert us[0].verdict.Warn?; }
      } else {
        var acc' := Step(acc, u);
        RegisterMeans(tail, acc');
        assert NoWarn(us) <==> NoWarn(tail) by {
          assert forall j :: 1 <= j < |us| ==> us[j] == tail[j - 1];
        }
        var bs := if u.verdict.ToBefore? then [u.file] else [];
        assert BeforeFiles(us) == bs + BeforeFiles(tail);
        assert acc'.before + BeforeFiles(tail) == acc.before + BeforeFiles(us);
        var fs := if u.verdict.ToAfter? then [u.file] else [];
        assert AfterFiles(us) == fs + AfterFiles(tail);
        assert acc'.after + AfterFiles(tail) == acc.after + AfterFiles(us);
        var es := if u.verdict.Reject? then [MwError(u.file, u.verdict.error)] else [];
        assert Rejections(us) == es + Rejections(tail);
        assert acc'.errors + Rejections(tail) == acc.errors + Rejections(us);
      }
    }
  }

  /** Each loaded unit lands in exactly one of the three lists. */
  lemma {:induction false} EveryUnitOnce(us: seq<Unit>)
    requires NoWarn(us)
    ensures |BeforeFiles(us)| + |AfterFiles(us)| + |Rejections(us)| == |us|
    decreases |us|
  {
    if |us| > 0 {
      assert forall j :: 0 <= j < |us| - 1 ==> us[1..][j] == us[j + 1];
      EveryUnitOnce(us[1..]);
    }
  }

  // ---------------------------------------------------------------
  // The whole script
  // ---------------------------------------------------------------

  /** The loader's inputs from configuration and the file system. */
  datatype Setup = Setup(mode: Val, list: Val, globbed: seq<string>, aliasMap: AliasMap, root: string,
                         isFile: string -> bool, included: string -> Included)

  /**
   * What the loader leaves: the hooks registered with Route::before and
   * Route::after, the halt that ends the request (then no hook runs), and
   * ctx. A PHP warning in the middle of the loop is counted as no hooks.
   */
  datatype Boot = Boot(hooks: Dispatch.Hooks, halt: Option<Halt>, ctx: Ctx.Store)

  function FileList(fs: seq<string>): Val {
    Arr(ListOf(seq(|fs|, i requires 0 <= i < |fs| => S(fs[i]))))
  }

  function ErrorList(es: seq<MwError>): Val {
    Arr(ListOf(seq(|es|, i requires 0 <= i < |es| => Arr([("file", S(es[i].file)), ("error", S(es[i].error))]))))
  }

  /** `$e['file'] . '. ' . $e['error']`, one per error. */
  function Lines(es: seq<MwError>): (ls: seq<string>)
    ensures |ls| == |es|
    ensures forall i :: 0 <= i < |es| ==> ls[i] == es[i].file + ". " + es[i].error
  {
    seq(|es|, i requires 0 <= i < |es| => es[i].file + ". " + es[i].error)
  }

  function Formatted(es: seq<MwError>): string {
    Join(Lines(es), "\n")
  }

  /** The abort message gives back every error line, in order, when no file name or error holds a newline. */
  lemma FormattedLines(es: seq<MwError>)
    requires |es| >= 1
    requires forall i :: 0 <= i < |es| ==> '\n' !in es[i].file && '\n' !in es[i].error
    ensures Split(Formatted(es), '\n') == Lines(es)
    ensures |Split(Formatted(es), '\n')| == |es|
    ensures forall i :: 0 <= i < |es| ==> Split(Formatted(es), '\n')[i] == es[i].file + ". " + es[i].error
  {
    var ls := Lines(es);
    forall i | 0 <= i < |ls| ensures '\n' !in ls[i] {
      assert ls[i] == es[i].file + ". " + es[i].error;
    }
    SplitJoin(ls, '\n');
  }

  function AbortHalt(es: seq<MwError>): Halt {
    Halt(500, Dispatch.LangText("mdware_title", []), Dispatch.LangText("mdware_message", [Formatted(es)]), true)
  }

  /** The three ctx keys the loader publishes. */
  function Published(c: Ctx.Store, reg: Registry): Ctx.Store {
    Ctx.Set(Ctx.Set(Ctx.Set(c, "middleware.before", FileList(reg.before)),
                    "middleware.after", FileList(reg.after)),
            "middleware.errors", ErrorList(reg.errors))
  }

  /** Registration over the loaded units, the ctx keys, and the abort when any error was recorded. */
  function Finish(sel: Selection, us: seq<Unit>, c: Ctx.Store): (b: Boot)
    ensures b.halt.Some? ==> b.halt.value.code == 500
    ensures Register(us, Registry([], [], sel.errors)).Ok? ==>
      var reg := Register(us, Registry([], [], sel.errors)).value;
      b.hooks == Dispatch.Hooks(|reg.before|, |reg.after|) && (b.halt.Some? <==> |reg.errors| > 0)
  {
    match Register(us, Registry([], [], sel.errors))
    case Fault(w) => Boot(Dispatch.Hooks(0, 0), Some(WarningHalt(w)), c)
    case Ok(reg) =>
      var c1 := Published(c, reg);
      if |reg.errors| > 0 then Boot(Dispatch.Hooks(|reg.before|, |reg.after|), Some(AbortHalt(reg.errors)), c1)
      else Boot(Dispatch.Hooks(|reg.before|, |reg.after|), None, c1)
  }

  /**
   * The loader: select, register, publish, and abort with one 500 when
   * any error was recorded. A PHP warning on the way is a 500 as well.
   */
  function Load(s: Setup, c: Ctx.Store): (b: Boot)
    ensures b.halt.Some? ==> b.halt.value.code == 500
  {
    match Select(s.mode, s.list, s.globbed, s.aliasMap, s.root, s.isFile)
    case Fault(w) => Boot(Dispatch.Hooks(0, 0), Some(WarningHalt(w)), c)
    case Ok(sel) => Finish(sel, Units(sel.loaded, s.included), c)
  }

  /**
   * The hooks are the before- and after-units in load order; with any
   * error one 500 carries every error line, not-found files first, and
   * ends the request before a registered hook can run. The three ctx keys are published
   * either way.
   */
  lemma FinishMeans(sel: Selection, us: seq<Unit>, c: Ctx.Store)
    requires NoWarn(us)
    ensures var reg := Registry(BeforeFiles(us), AfterFiles(us), sel.errors + Rejections(us));
      && Finish(sel, us, c).ctx == Published(c, reg)
      && (Finish(sel, us, c).halt.None? <==> |reg.errors| == 0)
      && Finish(sel, us, c).hooks == Dispatch.Hooks(|reg.before|, |reg.after|)
      && (Finish(sel, us, c).halt.Some? ==> Finish(sel, us, c).halt.value == AbortHalt(reg.errors))
  {
    RegisterMeans(us, Registry([], [], sel.errors));
    assert [] + BeforeFiles(us) == BeforeFiles(us);
    assert [] + AfterFiles(us) == AfterFiles(us);
  }

  /** A file 'when' set to an array is the only unit that halts the loop itself. */
  lemma FinishWarns(sel: Selection, us: seq<Unit>, c: Ctx.Store)
    requires !NoWarn(us)
    ensures Finish(sel, us, c).halt.Some? && Finish(sel, us, c).ctx == c
  {
    RegisterMeans(us, Registry([], [], sel.errors));
  }

  /** An include mode other than 'all' and 'custom' loads nothing and records no error. */
  lemma UnknownModeLoadsNothing(s: Setup, c: Ctx.Store)
    requires ModeOf(s.mode).Other?
    ensures Load(s, c).halt.None? && Load(s, c).hooks == Dispatch.Hooks(0, 0)
    ensures Load(s, c).ctx == Published(c, Registry([], [], []))
  {
    var us := Units([], s.included);
    assert us == [];
  }

  /** What the three published keys read back as. */
  lemma PublishedKeys(c: Ctx.Store, reg: Registry)
    ensures Ctx.Get(Published(c, reg), "middleware.before", NULL) == FileList(reg.before)
    ensures Ctx.Get(Published(c, reg), "middleware.after", NULL) == FileList(reg.after)
    ensures Ctx.Get(Published(c, reg), "middleware.errors", NULL) == ErrorList(reg.errors)
    ensures forall k, d :: k !in ["middleware.before", "middleware.after", "middleware.errors"] ==>
      Ctx.Get(Published(c, reg), k, d) == Ctx.Get(c, k, d)
  {
  }
}
