// Symbol declarations and the value each one should have (struct symbol and
// struct property in scripts/config/expr.h, evaluation in
// scripts/config/symbol.c).

module Symbols {
  import opened Wrappers
  import opened TristateLogic
  import opened Exprs

  /** A property with its condition.  The bounds of a range are constants here,
      so a range is the function that forces a text into it. */
  datatype Property =
    | Prompt(visible: MaybeExpr)
    | Default(visible: MaybeExpr, expr: Expr)
    | Range(visible: MaybeExpr, clamp: string -> string)
    | Entry(visible: MaybeExpr)

  datatype SymbolDecl = SymbolDecl(
    name: string,
    stype: SymbolType,
    props: seq<Property>,
    dirDep: MaybeExpr,
    revDep: MaybeExpr,
    implied: MaybeExpr)

  // ----- the symbols a declaration reads -----

  function SymbolsOf(e: Expr): set<Symbol> {
    match e
    case Sym(s) => {s}
    case Comp(_, l, r) => {l, r}
    case Not(x) => SymbolsOf(x)
    case Bin(_, l, r) => SymbolsOf(l) + SymbolsOf(r)
  }

  function SymbolsOfMaybe(e: MaybeExpr): set<Symbol> {
    match e
    case None => {}
    case Some(x) => SymbolsOf(x)
  }

  function SymbolsOfProp(p: Property): set<Symbol> {
    SymbolsOfMaybe(p.visible) + (if p.Default? then SymbolsOf(p.expr) else {})
  }

  function SymbolsOfProps(props: seq<Property>): set<Symbol> {
    if props == [] then {} else SymbolsOfProp(props[0]) + SymbolsOfProps(props[1..])
  }

  function SymbolsOfDecl(d: SymbolDecl): set<Symbol> {
    SymbolsOfMaybe(d.dirDep) + SymbolsOfMaybe(d.revDep) + SymbolsOfMaybe(d.implied) + SymbolsOfProps(d.props)
  }

  lemma {:induction false} PropIsIncluded(props: seq<Property>, k: nat)
    requires k < |props|
    ensures SymbolsOfProp(props[k]) <= SymbolsOfProps(props)
  {
    if k > 0 {
      PropIsIncluded(props[1..], k - 1);
    }
  }

  lemma {:induction false} EvalAgrees(a: Env, b: Env, e: Expr)
    requires forall s | s in SymbolsOf(e) :: a(s) == b(s)
    ensures Eval(a, e) == Eval(b, e)
  {
    match e
    case Not(x) => EvalAgrees(a, b, x);
    case Bin(_, l, r) =>
      EvalAgrees(a, b, l);
      EvalAgrees(a, b, r);
    case _ =>
  }

  // ----- the rule for one symbol, given the values of those it reads -----

  /** What evaluation records for a symbol. */
  datatype Computed = Computed(visible: Tristate, dir: Tristate, rev: Tristate, implied: Tristate, curr: Value)

  /** A tristate counts as bool while modules are disabled. */
  function EffectiveType(t: SymbolType, modules: Tristate): SymbolType {
    if t == Tri && modules == NO then Boolean else t
  }

  function PromoteIf(b: bool, t: Tristate): Tristate {
    if t == MOD && b then YES else t
  }

  function PromptsUpTo(env: Env, props: seq<Property>, k: nat): Tristate
    requires k <= |props|
  {
    if k == 0 then NO
    else if props[k - 1].Prompt? then TriOr(PromptsUpTo(env, props, k - 1), EvalMaybe(env, props[k - 1].visible))
    else PromptsUpTo(env, props, k - 1)
  }

  /** The first default, from k on, whose condition is not n. */
  function FirstDefault(env: Env, props: seq<Property>, k: nat): (r: Option<nat>)
    requires k <= |props|
    ensures r.Some? ==> r.value < |props| && props[r.value].Default?
    decreases |props| - k
  {
    if k == |props| then None
    else if props[k].Default? && EvalMaybe(env, props[k].visible) != NO then Some(k)
    else FirstDefault(env, props, k + 1)
  }

  function FirstRange(env: Env, props: seq<Property>, k: nat): (r: Option<nat>)
    requires k <= |props|
    ensures r.Some? ==> r.value < |props| && props[r.value].Range?
    decreases |props| - k
  {
    if k == |props| then None
    else if props[k].Range? && EvalMaybe(env, props[k].visible) != NO then Some(k)
    else FirstRange(env, props, k + 1)
  }

  function VisibleOf(d: SymbolDecl, modules: Tristate, env: Env): Tristate {
    PromoteIf(d.stype != Tri || modules == NO, PromptsUpTo(env, d.props, |d.props|))
  }

  function DirOf(d: SymbolDecl, modules: Tristate, env: Env): Tristate {
    PromoteIf(EffectiveType(d.stype, modules) == Boolean, EvalMaybe(env, d.dirDep))
  }

  function RevOf(d: SymbolDecl, modules: Tristate, env: Env): Tristate {
    PromoteIf(EffectiveType(d.stype, modules) == Boolean, if d.revDep.Some? then Eval(env, d.revDep.value) else NO)
  }

  function ImpliedOf(d: SymbolDecl, modules: Tristate, env: Env): Tristate {
    PromoteIf(EffectiveType(d.stype, modules) == Boolean,
              if d.implied.Some? && DirOf(d, modules, env) != NO then Eval(env, d.implied.value) else NO)
  }

  /** The part of the value that the user, or else a default and the weak
      reverse dependencies, ask for. */
  function Wanted(d: SymbolDecl, user: Option<Value>, visible: Tristate, implied: Tristate, env: Env): Tristate {
    if visible != NO && user.Some? then TriAnd(user.value.tri, visible)
    else
      var k := FirstDefault(env, d.props, 0);
      var fromDefault :=
        if k.Some? then TriAnd(Eval(env, d.props[k.value].expr), EvalMaybe(env, d.props[k.value].visible)) else NO;
      TriOr(fromDefault, implied)
  }

  /** The reverse dependencies raise the value, unless the direct ones fail. */
  function Settle(t: SymbolType, modules: Tristate, wanted: Tristate, dir: Tristate, rev: Tristate,
          implied: Tristate): Tristate {
    var v := if dir == NO && rev != NO then NO else TriOr(wanted, rev);
    PromoteIf(EffectiveType(t, modules) == Boolean || implied == YES, v)
  }

  /** The text a string-like symbol takes from the user or a default. */
  function TextOf(d: SymbolDecl, user: Option<Value>, visible: Tristate, env: Env, raw: Env): string {
    if visible != NO && user.Some? then user.value.str
    else
      var k := FirstDefault(env, d.props, 0);
      if k.Some? && d.props[k.value].expr.Sym? then raw(d.props[k.value].expr.s).str else ""
  }

  function Clamped(d: SymbolDecl, env: Env, text: string): string {
    var k := FirstRange(env, d.props, 0);
    if (d.stype == Int || d.stype == Hex) && k.Some? then d.props[k.value].clamp(text) else text
  }

  function CurrOf(d: SymbolDecl, user: Option<Value>, modules: Tristate, env: Env, raw: Env): Value {
    var visible, implied := VisibleOf(d, modules, env), ImpliedOf(d, modules, env);
    match d.stype
    case Unknown => Value(NO, d.name)
    case Boolean => Value(Settle(d.stype, modules, Wanted(d, user, visible, implied, env),
        DirOf(d, modules, env), RevOf(d, modules, env), implied), "n")
    case Tri => Value(Settle(d.stype, modules, Wanted(d, user, visible, implied, env),
        DirOf(d, modules, env), RevOf(d, modules, env), implied), "n")
    case _ => Value(NO, Clamped(d, env, TextOf(d, user, visible, env, raw)))
  }

  function ComputeWith(d: SymbolDecl, user: Option<Value>, modules: Tristate, env: Env, raw: Env): Computed {
    Computed(VisibleOf(d, modules, env), DirOf(d, modules, env), RevOf(d, modules, env), ImpliedOf(d, modules, env),
             CurrOf(d, user, modules, env, raw))
  }

  // ----- values of all symbols, by recursion over an acyclic graph -----

  /** A configuration: declarations, user values, the value of MODULES, and a
      rank that every dependency lowers. */
  datatype Context = Context(decls: seq<SymbolDecl>, user: seq<Option<Value>>, modules: Tristate, ghost rank: seq<nat>)

  ghost predicate RankedBelow(decls: seq<SymbolDecl>, rank: seq<nat>, syms: set<Symbol>, bound: nat)
    requires |rank| == |decls|
  {
    forall s | s in syms && s.Config? :: s.id < |decls| && rank[s.id] < bound && s.stype == decls[s.id].stype
  }

  ghost predicate Ranked(decls: seq<SymbolDecl>, rank: seq<nat>) {
    && |rank| == |decls|
    && forall i | 0 <= i < |decls| :: RankedBelow(decls, rank, SymbolsOfDecl(decls[i]), rank[i])
  }

  ghost predicate IsContext(c: Context) {
    |c.rank| == |c.decls| == |c.user|
  }

  /** The value of a symbol, computed without any cache. */
  ghost function SymbolValue(c: Context, i: nat): Computed
    requires IsContext(c) && i < |c.decls|
    decreases c.rank[i], 1
  {
    ComputeWith(c.decls[i], c.user[i], c.modules, Shown(c, c.rank[i]), Raw(c, c.rank[i]))
  }

  /** The values of all symbols at once. */
  ghost predicate AreValues(c: Context, values: seq<Computed>)
    requires IsContext(c)
  {
    && |values| == |c.decls|
    && forall i {:trigger SymbolValue(c, i)} | 0 <= i < |values| :: values[i] == SymbolValue(c, i)
  }

  lemma ValueOfUntyped(c: Context, values: seq<Computed>, i: nat)
    requires IsContext(c) && AreValues(c, values) && i < |values| && c.decls[i].stype == Unknown
    ensures values[i].curr == Value(NO, c.decls[i].name)
  {
    assert values[i] == SymbolValue(c, i);
  }

  ghost function ValuesOf(c: Context): (values: seq<Computed>)
    requires IsContext(c)
    ensures AreValues(c, values)
  {
    seq(|c.decls|, i requires 0 <= i < |c.decls| => SymbolValue(c, i))
  }

  /** The stored values of the symbols of rank below bound. */
  ghost function Raw(c: Context, bound: nat): Env
    requires IsContext(c)
    decreases bound, 0, 0
  {
    (s: Symbol) =>
      if IsConst(s) then ConstValue(s)
      else if s.id < |c.decls| && c.rank[s.id] < bound && s.stype == c.decls[s.id].stype then SymbolValue(c, s.id).curr
      else Value(NO, "n")
  }

  /** A stored value as comparisons see it. */
  function ShownValue(s: Symbol, v: Value, modules: Tristate): Value {
    if IsLogical(s) then Value(v.tri, if v.tri == MOD && modules == NO then "n" else TriName(v.tri)) else v
  }

  ghost function Shown(c: Context, bound: nat): Env
    requires IsContext(c)
    decreases bound, 0, 1
  {
    (s: Symbol) => ShownValue(s, Raw(c, bound)(s), c.modules)
  }

  /** Evaluation only produces values of the right type, so whatever holds of
      all well-typed assignments holds of every configuration. */
  lemma ShownIsWellTyped(c: Context, bound: nat)
    requires IsContext(c)
    ensures WellTyped(Shown(c, bound))
  {
    forall s
      ensures ValueOk(s, Shown(c, bound)(s))
    {
      assert Shown(c, bound)(s) == ShownValue(s, Raw(c, bound)(s), c.modules);
    }
  }
}
