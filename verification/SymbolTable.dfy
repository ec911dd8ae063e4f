// The memoised evaluator (sym_calc_visibility, sym_calc_value,
// sym_clear_all_valid, sym_tristate_within_range and sym_set_tristate_value in
// scripts/config/symbol.c, expr_calc_value in scripts/config/expr.c) for
// configurations without choices.

module SymbolTables {
  import opened Wrappers
  import opened TristateLogic
  import opened Exprs
  import opened Symbols
  import opened SymbolFacts

  /** What is stored for one symbol: the SYMBOL_VALID flag and the fields. */
  datatype Cell = Cell(valid: bool, v: Computed)

  const ZEROS := Computed(NO, NO, NO, NO, Value(NO, ""))

  /** Evaluation leaves all fields but the value alone when a symbol has no type. */
  predicate CellIs(t: SymbolType, v: Computed, spec: Computed) {
    if t == Unknown then v.curr == spec.curr else v == spec
  }

  /** The circumstances of an evaluation step: the symbols being evaluated, the
      configuration, the values all its symbols should get, the symbols that may
      be read and a strict upper bound on their ranks. */
  datatype Reading = Reading(active: set<nat>, c: Context, values: seq<Computed>, syms: set<Symbol>, bound: nat)

  ghost predicate IsReading(f: Reading) {
    IsContext(f.c) && AreValues(f.c, f.values)
  }

  class SymbolTable {
    const decls: seq<SymbolDecl>
    /** The symbol of option modules; n when the configuration has none. */
    const modules: Symbol
    var user: seq<Option<Value>>
    var cells: seq<Cell>
    var modulesVal: Tristate

    /** Witnesses for the theorems: an evaluation order, and the symbols that
        MODULES depends on, among them no tristate. */
    ghost const rank: seq<nat>
    ghost const cone: set<nat>

    ghost predicate Static() {
      && Ranked(decls, rank)
      && (modules == SymNo ||
          (modules.Config? && modules.id < |decls| && modules.stype == decls[modules.id].stype && modules.id in cone))
      && (forall i | i in cone :: i < |decls| && decls[i].stype != Tri && InCone(SymbolsOfDecl(decls[i])))
    }

    ghost predicate InCone(syms: set<Symbol>) {
      forall s | s in syms && s.Config? :: s.id in cone
    }

    /** Every valid symbol that is not being evaluated holds its value. */
    ghost predicate Inv(active: set<nat>, values: seq<Computed>)
      reads this
    {
      && |cells| == |user| == |decls| == |rank| == |values|
      && (forall a | a in active :: a < |cells| && cells[a].valid)
      && (forall i | 0 <= i < |cells| && cells[i].valid && i !in active ::
          CellIs(decls[i].stype, cells[i].v, values[i]))
    }

    ghost predicate ModulesKnown(active: set<nat>)
      reads this
      requires |cells| == |decls| && Static()
    {
      if modules.Config? then
        cells[modules.id].valid && modules.id !in active && cells[modules.id].v.curr.tri == modulesVal
      else modulesVal == NO
    }

    /** Reading is safe: the dependencies have lower rank than everything being
        evaluated, and either MODULES is known or nothing read needs it. */
    ghost predicate MayRead(f: Reading)
      reads this
    {
      && Static() && Inv(f.active, f.values) && IsReading(f)
      && f.c.decls == decls && f.c.user == user && f.c.rank == rank
      && RankedBelow(decls, rank, f.syms, f.bound)
      && (forall a | a in f.active :: rank[a] >= f.bound)
      && (if ModulesKnown(f.active) then f.c.modules == modulesVal
          else modules.Config? && InCone(f.syms) && f.bound <= rank[modules.id])
    }

    /** Evaluation below bound touches no symbol above it and none that is
        already valid. */
    ghost predicate Kept(before: seq<Cell>, bound: nat)
      reads this
    {
      && |cells| == |before| == |rank|
      && forall i | 0 <= i < |cells| && (before[i].valid || rank[i] >= bound) :: cells[i] == before[i]
    }

    // ----- expr_calc_value and sym_get_string_value -----

    method ReadSymbol(s: Symbol, ghost f: Reading) returns (raw: Value)
      requires MayRead(f) && s in f.syms
      modifies this`cells, this`modulesVal
      ensures MayRead(f) && Kept(old(cells), f.bound) && modulesVal == old(modulesVal)
      ensures raw == Raw(f.c, f.bound)(s)
      decreases f.bound, 1
    {
      if s.Config? {
        CalcValue(s.id, f.(syms := SymbolsOfDecl(decls[s.id]), bound := rank[s.id]));
        raw := cells[s.id].v.curr;
      } else {
        raw := ConstValue(s);
      }
    }

    method ShowSymbol(s: Symbol, ghost f: Reading) returns (v: Value)
      requires MayRead(f) && s in f.syms
      modifies this`cells, this`modulesVal
      ensures MayRead(f) && Kept(old(cells), f.bound) && modulesVal == old(modulesVal)
      ensures v == Shown(f.c, f.bound)(s)
      decreases f.bound, 2
    {
      var raw := ReadSymbol(s, f);
      if !IsLogical(s) {
        v := raw;
      } else if raw.tri == MOD {
        var known := if modules.Config? then cells[modules.id].v.curr.tri else NO;
        v := Value(raw.tri, if known == NO then "n" else "m");
      } else {
        v := Value(raw.tri, TriName(raw.tri));
      }
    }

    method CalcExpr(e: Expr, ghost f: Reading) returns (t: Tristate)
      requires MayRead(f) && SymbolsOf(e) <= f.syms
      modifies this`cells, this`modulesVal
      ensures MayRead(f) && Kept(old(cells), f.bound) && modulesVal == old(modulesVal)
      ensures t == Eval(Shown(f.c, f.bound), e)
      decreases f.bound, 3, e
    {
      match e
      case Sym(s) =>
        var v := ReadSymbol(s, f);
        t := v.tri;
      case Comp(rel, l, r) =>
        var v := ShowSymbol(l, f);
        var w := ShowSymbol(r, f);
        t := OfBool(Holds(rel, Compare(v.str, TypeOf(l), w.str, TypeOf(r))));
      case Not(x) =>
        var v := CalcExpr(x, f);
        t := TriNot(v);
      case Bin(op, l, r) =>
        var v := CalcExpr(l, f);
        var w := CalcExpr(r, f);
        t := Apply(op, v, w);
    }

    method CalcMaybe(e: MaybeExpr, ghost f: Reading) returns (t: Tristate)
      requires MayRead(f) && SymbolsOfMaybe(e) <= f.syms
      modifies this`cells, this`modulesVal
      ensures MayRead(f) && Kept(old(cells), f.bound) && modulesVal == old(modulesVal)
      ensures t == EvalMaybe(Shown(f.c, f.bound), e)
      decreases f.bound, 4
    {
      match e
      case None => t := YES;
      case Some(x) => t := CalcExpr(x, f);
    }

    // ----- sym_calc_value and its helpers -----

    /** Symbol i is the one being evaluated. */
    ghost predicate Evaluating(i: nat, f: Reading)
      reads this
    {
      && i < |decls| && MayRead(f) && i in f.active
      && f.syms == SymbolsOfDecl(decls[i]) && f.bound == rank[i]
      && (decls[i].stype == Tri ==> f.c.modules == modulesVal)
    }

    /** Like Kept, but the fields of symbol i may have been written. */
    ghost predicate KeptBut(before: seq<Cell>, bound: nat, i: nat)
      reads this
    {
      && |cells| == |before| == |rank|
      && forall j | 0 <= j < |cells| && j != i && (before[j].valid || rank[j] >= bound) :: cells[j] == before[j]
    }

    method CalcPrompts(i: nat, ghost f: Reading) returns (tri: Tristate)
      requires Evaluating(i, f)
      modifies this`cells, this`modulesVal
      ensures Evaluating(i, f) && Kept(old(cells), f.bound) && modulesVal == old(modulesVal)
      ensures tri == PromptsUpTo(Shown(f.c, f.bound), decls[i].props, |decls[i].props|)
      decreases f.bound, 5
    {
      hide ModulesKnown, Static, RankedBelow, CellIs;
      var props := decls[i].props;
      tri := NO;
      for k := 0 to |props|
        invariant Evaluating(i, f) && Kept(old(cells), f.bound) && modulesVal == old(modulesVal)
        invariant tri == PromptsUpTo(Shown(f.c, f.bound), props, k)
      {
        if props[k].Prompt? {
          PropIsIncluded(props, k);
          var v := CalcMaybe(props[k].visible, f);
          tri := TriOr(tri, v);
        }
      }
    }

    method FindDefault(i: nat, ghost f: Reading) returns (k: Option<nat>, cond: Tristate)
      requires Evaluating(i, f)
      modifies this`cells, this`modulesVal
      ensures Evaluating(i, f) && Kept(old(cells), f.bound) && modulesVal == old(modulesVal)
      ensures k == FirstDefault(Shown(f.c, f.bound), decls[i].props, 0)
      ensures k.Some? ==> cond == EvalMaybe(Shown(f.c, f.bound), decls[i].props[k.value].visible)
      decreases f.bound, 5
    {
      hide ModulesKnown, Static, RankedBelow, CellIs;
      var props := decls[i].props;
      cond := NO;
      for j := 0 to |props|
        invariant Evaluating(i, f) && Kept(old(cells), f.bound) && modulesVal == old(modulesVal)
        invariant FirstDefault(Shown(f.c, f.bound), props, 0) == FirstDefault(Shown(f.c, f.bound), props, j)
      {
        if props[j].Default? {
          PropIsIncluded(props, j);
          cond := CalcMaybe(props[j].visible, f);
          if cond != NO {
            return Some(j), cond;
          }
        }
      }
      k := None;
    }

    method FindRange(i: nat, ghost f: Reading) returns (k: Option<nat>)
      requires Evaluating(i, f)
      modifies this`cells, this`modulesVal
      ensures Evaluating(i, f) && Kept(old(cells), f.bound) && modulesVal == old(modulesVal)
      ensures k == FirstRange(Shown(f.c, f.bound), decls[i].props, 0)
      decreases f.bound, 5
    {
      hide ModulesKnown, Static, RankedBelow, CellIs;
      var props := decls[i].props;
      for j := 0 to |props|
        invariant Evaluating(i, f) && Kept(old(cells), f.bound) && modulesVal == old(modulesVal)
        invariant FirstRange(Shown(f.c, f.bound), props, 0) == FirstRange(Shown(f.c, f.bound), props, j)
      {
        if props[j].Range? {
          PropIsIncluded(props, j);
          var cond := CalcMaybe(props[j].visible, f);
          if cond != NO {
            return Some(j);
          }
        }
      }
      k := None;
    }

    method CalcVisible(i: nat, ghost f: Reading)
      requires Evaluating(i, f)
      modifies this`cells, this`modulesVal
      ensures Evaluating(i, f) && KeptBut(old(cells), f.bound, i) && modulesVal == old(modulesVal)
      ensures cells[i] == Cell(true, old(cells[i].v).(visible := VisibleOf(decls[i], f.c.modules, Shown(f.c, f.bound))))
      decreases f.bound, 6
    {
      var tri := CalcPrompts(i, f);
      if tri == MOD && (decls[i].stype != Tri || modulesVal == NO) {
        tri := YES;
      }
      cells := cells[i := Cell(true, cells[i].v.(visible := tri))];
    }

    method CalcDir(i: nat, ghost f: Reading)
      requires Evaluating(i, f)
      modifies this`cells, this`modulesVal
      ensures Evaluating(i, f) && KeptBut(old(cells), f.bound, i) && modulesVal == old(modulesVal)
      ensures cells[i] == Cell(true, old(cells[i].v).(dir := DirOf(decls[i], f.c.modules, Shown(f.c, f.bound))))
      decreases f.bound, 6
    {
      var tri := CalcMaybe(decls[i].dirDep, f);
      if tri == MOD && EffectiveType(decls[i].stype, modulesVal) == Boolean {
        tri := YES;
      }
      cells := cells[i := Cell(true, cells[i].v.(dir := tri))];
    }

    method CalcRev(i: nat, ghost f: Reading)
      requires Evaluating(i, f)
      modifies this`cells, this`modulesVal
      ensures Evaluating(i, f) && KeptBut(old(cells), f.bound, i) && modulesVal == old(modulesVal)
      ensures cells[i] == Cell(true, old(cells[i].v).(rev := RevOf(decls[i], f.c.modules, Shown(f.c, f.bound))))
      decreases f.bound, 6
    {
      var tri := NO;
      if decls[i].revDep.Some? {
        tri := CalcExpr(decls[i].revDep.value, f);
      }
      if tri == MOD && EffectiveType(decls[i].stype, modulesVal) == Boolean {
        tri := YES;
      }
      cells := cells[i := Cell(true, cells[i].v.(rev := tri))];
    }

    method CalcImplied(i: nat, ghost f: Reading)
      requires Evaluating(i, f) && cells[i].v.dir == DirOf(decls[i], f.c.modules, Shown(f.c, f.bound))
      modifies this`cells, this`modulesVal
      ensures Evaluating(i, f) && KeptBut(old(cells), f.bound, i) && modulesVal == old(modulesVal)
      ensures cells[i] == Cell(true, old(cells[i].v).(implied := ImpliedOf(decls[i], f.c.modules, Shown(f.c, f.bound))))
      decreases f.bound, 6
    {
      var tri := NO;
      if decls[i].implied.Some? && cells[i].v.dir != NO {
        tri := CalcExpr(decls[i].implied.value, f);
      }
      if tri == MOD && EffectiveType(decls[i].stype, modulesVal) == Boolean {
        tri := YES;
      }
      cells := cells[i := Cell(true, cells[i].v.(implied := tri))];
    }

    method CalcVisibility(i: nat, ghost f: Reading)
      requires Evaluating(i, f)
      modifies this`cells, this`modulesVal
      ensures Evaluating(i, f) && KeptBut(old(cells), f.bound, i) && modulesVal == old(modulesVal)
      ensures var d, env := decls[i], Shown(f.c, f.bound);
              cells[i] == Cell(true, Computed(VisibleOf(d, f.c.modules, env),
                  DirOf(d, f.c.modules, env), RevOf(d, f.c.modules, env),
                                              ImpliedOf(d, f.c.modules, env), old(cells[i].v.curr)))
      decreases f.bound, 7
    {
      CalcVisible(i, f);
      CalcDir(i, f);
      CalcRev(i, f);
      CalcImplied(i, f);
    }

    /** The value of a bool or tristate symbol whose visibility is known. */
    method CalcLogical(i: nat, ghost f: Reading) returns (tri: Tristate)
      requires Evaluating(i, f) && (decls[i].stype == Boolean || decls[i].stype == Tri)
      modifies this`cells, this`modulesVal
      ensures Evaluating(i, f) && Kept(old(cells), f.bound) && modulesVal == old(modulesVal)
      ensures var d, v := decls[i], cells[i].v;
              tri == Settle(d.stype, f.c.modules,
                  Wanted(d, user[i], v.visible, v.implied, Shown(f.c, f.bound)), v.dir, v.rev, v.implied)
      decreases f.bound, 6
    {
      var d, v := decls[i], cells[i].v;
      var wanted := NO;
      if v.visible != NO && user[i].Some? {
        wanted := TriAnd(user[i].value.tri, v.visible);
      } else {
        var k, cond := FindDefault(i, f);
        if k.Some? {
          PropIsIncluded(d.props, k.value);
          var e := CalcExpr(d.props[k.value].expr, f);
          wanted := TriAnd(e, cond);
        }
        if v.implied != NO {
          wanted := TriOr(wanted, v.implied);
        }
      }
      if v.dir == NO && v.rev != NO {
        tri := NO;
      } else {
        tri := TriOr(wanted, v.rev);
      }
      if tri == MOD && (EffectiveType(d.stype, modulesVal) == Boolean || v.implied == YES) {
        tri := YES;
      }
    }

    /** The text of a string, int or hex symbol whose visibility is known. */
    method CalcText(i: nat, ghost f: Reading) returns (text: string)
      requires Evaluating(i, f)
      modifies this`cells, this`modulesVal
      ensures Evaluating(i, f) && Kept(old(cells), f.bound) && modulesVal == old(modulesVal)
      ensures text == TextOf(decls[i], user[i], cells[i].v.visible, Shown(f.c, f.bound), Raw(f.c, f.bound))
      decreases f.bound, 6
    {
      var d := decls[i];
      text := "";
      if cells[i].v.visible != NO && user[i].Some? {
        text := user[i].value.str;
      } else {
        var k, _ := FindDefault(i, f);
        if k.Some? && d.props[k.value].expr.Sym? {
          PropIsIncluded(d.props, k.value);
          var v := ReadSymbol(d.props[k.value].expr.s, f);
          text := v.str;
        }
      }
    }

    method ValidateRange(i: nat, text: string, ghost f: Reading) returns (clamped: string)
      requires Evaluating(i, f)
      modifies this`cells, this`modulesVal
      ensures Evaluating(i, f) && Kept(old(cells), f.bound) && modulesVal == old(modulesVal)
      ensures clamped == Clamped(decls[i], Shown(f.c, f.bound), text)
      decreases f.bound, 6
    {
      clamped := text;
      if decls[i].stype == Int || decls[i].stype == Hex {
        var k := FindRange(i, f);
        if k.Some? {
          clamped := decls[i].props[k.value].clamp(text);
        }
      }
    }

    /** Fills in the fields of a typed symbol that is already marked valid. */
    method Evaluate(i: nat, ghost f: Reading)
      requires Evaluating(i, f) && decls[i].stype != Unknown
      modifies this`cells, this`modulesVal
      ensures Evaluating(i, f) && KeptBut(old(cells), f.bound, i) && modulesVal == old(modulesVal)
      ensures cells[i] == Cell(true, f.values[i])
      decreases f.bound, 8
    {
      assert f.values[i] == SymbolValue(f.c, i);
      CalcVisibility(i, f);
      var logical := decls[i].stype == Boolean || decls[i].stype == Tri;
      SetCurr(i, f, Value(NO, if logical then "n" else ""));
      if logical {
        var tri := CalcLogical(i, f);
        SetCurr(i, f, Value(tri, "n"));
      } else {
        var text := CalcText(i, f);
        text := ValidateRange(i, text, f);
        SetCurr(i, f, Value(NO, text));
      }
    }

    method SetCurr(i: nat, ghost f: Reading, v: Value)
      requires Evaluating(i, f)
      modifies this`cells
      ensures Evaluating(i, f) && cells == old(cells)[i := Cell(true, old(cells[i].v).(curr := v))]
    {
      cells := cells[i := Cell(true, cells[i].v.(curr := v))];
    }

    method CalcValue(i: nat, ghost f: Reading)
      requires MayRead(f) && i < |decls| && i !in f.active
      requires f.syms == SymbolsOfDecl(decls[i]) && f.bound == rank[i]
      requires decls[i].stype == Tri ==> f.c.modules == modulesVal
      requires modules.Config? && modules.id == i ==> modulesVal == cells[i].v.curr.tri
      modifies this`cells, this`modulesVal
      ensures Inv(f.active, f.values) && Kept(old(cells), rank[i] + 1)
      ensures cells[i].valid
      ensures modulesVal == (if modules.Config? && modules.id == i && !old(cells[i].valid)
                             then f.values[i].curr.tri else old(modulesVal))
      decreases f.bound, 10
    {
      if cells[i].valid {
        return;
      }
      var oldval := cells[i].v.curr;
      Recalculate(i, f);
      if oldval != cells[i].v.curr && modules.Config? && modules.id == i {
        modulesVal := cells[i].v.curr.tri;
      }
    }

    /** Marks symbol i valid and computes its fields. */
    method Recalculate(i: nat, ghost f: Reading)
      requires MayRead(f) && i < |decls| && i !in f.active && !cells[i].valid
      requires f.syms == SymbolsOfDecl(decls[i]) && f.bound == rank[i]
      requires decls[i].stype == Tri ==> f.c.modules == modulesVal
      modifies this`cells, this`modulesVal
      ensures Inv(f.active, f.values) && Kept(old(cells), rank[i] + 1)
      ensures cells[i].valid && modulesVal == old(modulesVal)
      decreases f.bound, 9
    {
      hide SymbolsOfDecl, SymbolsOfProps, SymbolsOfMaybe, SymbolsOfProp, RankedBelow, ComputeWith, CurrOf;
      cells := cells[i := cells[i].(valid := true)];
      ghost var g := f.(active := f.active + {i});
      assert Evaluating(i, g);
      if decls[i].stype == Unknown {
        ValueOfUntyped(f.c, f.values, i);
        SetCurr(i, g, Value(NO, decls[i].name));
      } else {
        Evaluate(i, g);
      }
    }

    // ----- what callers see -----

    ghost function Ctx(): Context
      reads this
    {
      Context(decls, user, modulesVal, rank)
    }

    /** The state between calls: every valid symbol holds exactly the value of
        the evaluator that has no cache, and MODULES is known. */
    ghost predicate Exact()
      reads this
    {
      && Static() && |cells| == |user| == |decls|
      && Inv({}, ValuesOf(Ctx())) && ModulesKnown({})
    }

    ghost predicate Shaped()
      reads this
    {
      && Static() && |cells| == |user| == |decls|
      && modulesVal == (if modules.Config? then cells[modules.id].v.curr.tri else NO)
    }

    constructor (decls: seq<SymbolDecl>, modules: Symbol, ghost rank: seq<nat>, ghost cone: set<nat>)
      requires Ranked(decls, rank) && Closed(decls, cone) && forall i | i in cone :: decls[i].stype != Tri
      requires modules == SymNo || (modules.Config? && modules.id in cone && modules.stype == decls[modules.id].stype)
      ensures Exact() && this.decls == decls && this.modules == modules && this.rank == rank && this.cone == cone
      ensures user == seq(|decls|, _ => None)
    {
      this.decls, this.modules, this.rank, this.cone := decls, modules, rank, cone;
      user := seq(|decls|, _ => None);
      cells := seq(|decls|, _ => Cell(false, ZEROS));
      modulesVal := NO;
      new;
      ClearAllValid();
    }

    /** sym_calc_value as callers use it. */
    method SymCalcValue(i: nat)
      requires Exact() && i < |decls|
      modifies this`cells, this`modulesVal
      ensures Exact() && modulesVal == old(modulesVal)
      ensures cells[i].valid && CellIs(decls[i].stype, cells[i].v, SymbolValue(Ctx(), i))
    {
      ghost var values := ValuesOf(Ctx());
      CalcValue(i, Reading({}, Ctx(), values, SymbolsOfDecl(decls[i]), rank[i]));
      assert values[i] == SymbolValue(Ctx(), i);
    }

    /** Forgets every value and computes MODULES again. */
    method ClearAllValid()
      requires Shaped()
      modifies this`cells, this`modulesVal
      ensures Exact()
    {
      for i := 0 to |cells|
        invariant Shaped() && forall j | 0 <= j < i :: !cells[j].valid
      {
        cells := cells[i := cells[i].(valid := false)];
      }
      if modules.Config? {
        ghost var value := SymbolValue(Ctx(), modules.id).curr.tri;
        ghost var c := Ctx().(modules := value);
        SameValueWithin(Ctx(), c, cone, modules.id);
        ghost var f := Reading({}, c, ValuesOf(c), SymbolsOfDecl(decls[modules.id]), rank[modules.id]);
        CalcValue(modules.id, f);
        assert f.values[modules.id] == SymbolValue(c, modules.id);
      }
    }

    lemma ModulesValue()
      requires Exact() && modules.Config?
      ensures modulesVal == SymbolValue(Ctx(), modules.id).curr.tri
    {
      assert ValuesOf(Ctx())[modules.id] == SymbolValue(Ctx(), modules.id);
    }

    /** The symbols below i that decide about its value; with MODULES, if i is
        one of the symbols that MODULES depends on. */
    ghost function Lower(i: nat): set<nat>
      requires Static() && i < |decls|
    {
      set j | 0 <= j < |decls| && rank[j] < rank[i] && (i in cone ==> j in cone)
    }

    lemma LowerIsSame(c: Context, d: Context, i: nat)
      requires Static() && i < |decls| && IsContext(c) && IsContext(d)
      requires c.decls == d.decls == decls && c.rank == d.rank == rank
      requires forall j | 0 <= j < |decls| && j != i :: c.user[j] == d.user[j]
      requires i !in cone ==> c.modules == d.modules
      ensures SameBelow(c, d, i, Lower(i))
    {
    }

    /** Changing a user value and recomputing leaves MODULES alone unless it
        depends on the symbol. */
    lemma ModulesUnaffected(c: Context, d: Context, i: nat)
      requires Static() && modules.Config? && i !in cone && IsContext(c) && IsContext(d)
      requires c.decls == d.decls == decls && c.rank == d.rank == rank
      requires forall j | 0 <= j < |decls| && j != i :: c.user[j] == d.user[j]
      ensures SymbolValue(c, modules.id) == SymbolValue(d, modules.id)
    {
      SameValueWithin(c, d, cone, modules.id);
    }

    /** sym_set_tristate_value. */
    method SetTristateValue(i: nat, val: Tristate) returns (ok: bool)
      requires Exact() && i < |decls| && cells[i].valid && (decls[i].stype == Boolean || decls[i].stype == Tri)
      modifies this
      ensures ok
              <==> val == old(cells[i].v.curr.tri) || WithinRange(decls[i].stype, old(modulesVal), old(cells[i].v), val)
      ensures !ok ==> user == old(user) && cells == old(cells) && modulesVal == old(modulesVal)
      ensures ok ==> |user| == |decls| && user == old(user)[i := user[i]] && user[i].Some? && user[i].value.tri == val
      // a new value: every cached value is exact again, and the symbol has the value
      ensures ok && val != old(cells[i].v.curr.tri) ==> Exact()
      ensures ok && val != old(cells[i].v.curr.tri) ==>
                var v := old(cells[i].v);
                SymbolValue(Ctx(), i).curr.tri == (if v.dir == NO && v.rev != NO then NO else val)
      // the value it had: nothing is recomputed, which is right exactly if harmless
      ensures ok && val == old(cells[i].v.curr.tri) ==>
                && cells == old(cells) && modulesVal == old(modulesVal)
                && (Exact() <==> Harmless(decls[i].stype, modulesVal, old(cells[i].v), val))
    {
      ghost var c := Ctx();
      ghost var v := cells[i].v;
      assert v == SymbolValue(c, i) by {
        assert ValuesOf(c)[i] == SymbolValue(c, i);
      }
      var oldval := cells[i].v.curr.tri;
      if oldval != val && !WithinRange(decls[i].stype, modulesVal, cells[i].v, val) {
        return false;
      }
      user := user[i := Some(Value(val, if user[i].Some? then user[i].value.str else ""))];
      if oldval != val {
        SetAndRecompute(i, val, c);
      } else {
        CacheAfterUnchangedSet(i, val, c);
      }
      return true;
    }

    method SetAndRecompute(i: nat, val: Tristate, ghost c: Context)
      requires Shaped() && i < |decls| && IsContext(c) && c.decls == decls && c.rank == rank
      requires UserSet(Ctx(), i, val) && WithinRange(decls[i].stype, c.modules, SymbolValue(c, i), val)
      requires forall j | 0 <= j < |decls| && j != i :: c.user[j] == user[j]
      requires if modules.Config? then c.modules == SymbolValue(c, modules.id).curr.tri else c.modules == NO
      modifies this`cells, this`modulesVal
      ensures Exact()
      ensures var v := SymbolValue(c, i);
              SymbolValue(Ctx(), i).curr.tri == (if v.dir == NO && v.rev != NO then NO else val)
    {
      ClearAllValid();
      ghost var d := Ctx();
      if modules.Config? {
        ModulesValue();
        if i !in cone {
          ModulesUnaffected(c, d, i);
        }
      }
      LowerIsSame(c, d, i);
      AcceptedChange(c, d, i, val, Lower(i));
    }

    lemma CacheAfterUnchangedSet(i: nat, val: Tristate, c: Context)
      requires Static() && |cells| == |user| == |decls| && i < |decls| && cells[i].valid
      requires UserSet(Ctx(), i, val) && IsContext(c) && c == Ctx().(user := c.user)
      requires forall j | 0 <= j < |decls| && j != i :: c.user[j] == user[j]
      requires Inv({}, ValuesOf(c)) && ModulesKnown({})
              && val == SymbolValue(c, i).curr.tri && cells[i].v == SymbolValue(c, i)
      ensures Exact() <==> Harmless(decls[i].stype, modulesVal, cells[i].v, val)
    {
      var d := Ctx();
      LowerIsSame(c, d, i);
      UnchangedSet(c, d, i, val, Lower(i));
      var before, after := ValuesOf(c), ValuesOf(d);
      assert before[i] == SymbolValue(c, i) && after[i] == SymbolValue(d, i);
      if Harmless(decls[i].stype, modulesVal, cells[i].v, val) {
        forall j | 0 <= j < |decls|
          ensures after[j] == before[j]
        {
          OthersUnchanged(c, d, i, j);
          assert before[j] == SymbolValue(c, j) && after[j] == SymbolValue(d, j);
        }
      }
    }
  }
}
