// How menu_finalize in scripts/config/menu.c rewrites the conditions of menu
// entries and properties, and what this means for the values of symbols.

module MenuConditions {
  import opened Wrappers
  import opened TristateLogic
  import opened Exprs
  import opened ExprJoin
  import opened ExprDups
  import ExprCompare
  import opened ExprTransform
  import opened Symbols
  import opened SymbolFacts

  function AllocAnd(a: MaybeExpr, b: MaybeExpr): MaybeExpr {
    match (a, b)
    case (None, _) => b
    case (_, None) => a
    case (Some(x), Some(y)) => Some(Bin(AndOp, x, y))
  }

  function AllocOr(a: MaybeExpr, b: MaybeExpr): MaybeExpr {
    match (a, b)
    case (None, _) => b
    case (_, None) => a
    case (Some(x), Some(y)) => Some(Bin(OrOp, x, y))
  }

  /** A bare m becomes m && MODULES. */
  function RewriteM(e: Expr, modules: Symbol): Expr {
    match e
    case Sym(s) => if s == SymMod then Bin(AndOp, e, Sym(modules)) else e
    case Comp(_, _, _) => e
    case Not(x) => Not(RewriteM(x, modules))
    case Bin(op, l, r) => Bin(op, RewriteM(l, modules), RewriteM(r, modules))
  }

  /** The assignment in which a bare m is worth n while MODULES is n. */
  function LimitM(env: Env, modules: Symbol): Env {
    (s: Symbol) => if s == SymMod then Value(TriAnd(MOD, env(modules).tri), "m") else env(s)
  }

  lemma {:induction false} RewriteMMeaning(env: Env, e: Expr, modules: Symbol)
    requires WellTyped(env)
    ensures Eval(env, RewriteM(e, modules)) == Eval(LimitM(env, modules), e)
  {
    YesValue(env);
    match e
    case Sym(_) =>
    case Comp(_, l, r) => assert ValueOk(SymMod, env(SymMod));
    case Not(x) => RewriteMMeaning(env, x, modules);
    case Bin(_, l, r) =>
      RewriteMMeaning(env, l, modules);
      RewriteMMeaning(env, r, modules);
  }

  lemma {:induction false} RewriteMPlain(e: Expr, modules: Symbol)
    requires PlainConsts(e)
    ensures PlainConsts(RewriteM(e, modules))
  {
    match e
    case Not(x) => RewriteMPlain(x, modules);
    case Bin(_, l, r) =>
      RewriteMPlain(l, modules);
      RewriteMPlain(r, modules);
    case _ =>
  }

  predicate MaybePlain(e: MaybeExpr) { e.Some? ==> PlainConsts(e.value) }

  predicate MaybeNormal(e: MaybeExpr) { e.Some? ==> IsNormal(e.value) }

  /** The condition of an entry or property inside one with condition outer,
      simplified; before expr_trans_bool. */
  method Inherit(outer: MaybeExpr, dep: MaybeExpr, modules: Symbol) returns (r: MaybeExpr)
    requires MaybeNormal(outer) && MaybePlain(outer) && MaybePlain(dep)
    ensures MaybeNormal(r) && MaybePlain(r) && (r.Some? ==> DupFree(r.value))
    ensures forall env: Env | WellTyped(env) ::
              EvalMaybe(env, r) == TriAnd(EvalMaybe(env, outer), EvalMaybe(LimitM(env, modules), dep))
  {
    var own := if dep.Some? then Some(Transform(RewriteM(dep.value, modules))) else None;
    var both := AllocAnd(outer, own);
    if dep.Some? {
      RewriteMPlain(dep.value, modules);
      ExprCompare.TransformPlain(RewriteM(dep.value, modules));
      TransformIsNormal(RewriteM(dep.value, modules));
    }
    forall env: Env | WellTyped(env)
      ensures EvalMaybe(env, both) == TriAnd(EvalMaybe(env, outer), EvalMaybe(LimitM(env, modules), dep))
    {
      if dep.Some? {
        RewriteMMeaning(env, dep.value, modules);
        TransformKeepsValue(env, RewriteM(dep.value, modules));
      }
    }
    if both.Some? {
      var e, wrong := EliminateDups(both.value);
      r := Some(e);
    } else {
      r := None;
    }
  }

  /** The condition of a property: for a symbol that is not a tristate only the
      distinction between n and the rest is kept. */
  method PropertyCondition(t: SymbolType, outer: MaybeExpr, dep: MaybeExpr, modules: Symbol) returns (r: MaybeExpr)
    requires MaybeNormal(outer) && MaybePlain(outer) && MaybePlain(dep)
    ensures forall env: Env | WellTyped(env) ::
              SameFor(t, EvalMaybe(env, r), TriAnd(EvalMaybe(env, outer), EvalMaybe(LimitM(env, modules), dep)))
    ensures t != Tri && r.Some? ==> !TestsNonZero(r.value)
  {
    r := Inherit(outer, dep, modules);
    if t != Tri && r.Some? {
      var before := r.value;
      forall env: Env | WellTyped(env)
        ensures Promote(Eval(env, TransBool(before))) == Promote(Eval(env, before))
      {
        TransBoolKeepsNonZero(env, before);
      }
      TransBoolRemovesAll(before);
      r := Some(TransBool(before));
    }
  }

  predicate SameFor(t: SymbolType, a: Tristate, b: Tristate) {
    if t == Tri then a == b else Promote(a) == Promote(b)
  }

  /** The conditions of an entry and of one of its prompts, as menu_finalize makes
      them: the prompt needs the entry. */
  method EntryConditions(t: SymbolType, outer: MaybeExpr, entryDep: MaybeExpr, dep: MaybeExpr, modules: Symbol)
    returns (base: MaybeExpr, prompt: MaybeExpr)
    requires MaybeNormal(outer) && MaybePlain(outer) && MaybePlain(entryDep) && MaybePlain(dep)
    ensures forall env: Env | WellTyped(env) ::
              && EvalMaybe(env, base) == TriAnd(EvalMaybe(env, outer), EvalMaybe(LimitM(env, modules), entryDep))
              && SameFor(t, EvalMaybe(env, prompt), TriAnd(EvalMaybe(env, base), EvalMaybe(LimitM(env, modules), dep)))
              && (EvalMaybe(env, prompt) != NO ==> EvalMaybe(env, base) != NO)
  {
    base := Inherit(outer, entryDep, modules);
    prompt := PropertyCondition(t, base, dep, modules);
  }

  /** The direct dependencies of a symbol with entries of these conditions. */
  function DirDepOf(bases: seq<MaybeExpr>): MaybeExpr {
    if bases == [] then None else AllocOr(DirDepOf(bases[..|bases| - 1]), bases[|bases| - 1])
  }

  /** There are entries with a condition, and all these fail. */
  predicate AllFail(env: Env, bases: seq<MaybeExpr>) {
    && (exists j :: 0 <= j < |bases| && bases[j].Some?)
    && (forall j | 0 <= j < |bases| && bases[j].Some? :: EvalMaybe(env, bases[j]) == NO)
  }

  /** Entries without a condition are dropped from the disjunction, although they
      are worth y. */
  lemma {:induction false} DirDepFails(env: Env, bases: seq<MaybeExpr>)
    ensures DirDepOf(bases).None? <==> forall j | 0 <= j < |bases| :: bases[j].None?
    ensures EvalMaybe(env, DirDepOf(bases)) == NO <==> AllFail(env, bases)
  {
    if bases != [] {
      var init, last := bases[..|bases| - 1], bases[|bases| - 1];
      DirDepFails(env, init);
      assert forall j | 0 <= j < |init| :: init[j] == bases[j];
    }
  }

  /** The declaration comes from entries of these conditions, property k from the
      entry at[k]; EntryConditions says what this means for a prompt. */
  ghost predicate FromEntries(d: SymbolDecl, bases: seq<MaybeExpr>, at: seq<nat>) {
    && |at| == |d.props| && d.dirDep == DirDepOf(bases)
    && forall k | 0 <= k < |at| && d.props[k].Prompt? ::
         && at[k] < |bases|
         && forall env: Env | WellTyped(env) :: EvalMaybe(env, d.props[k].visible) != NO ==>
             EvalMaybe(env, bases[at[k]]) != NO
  }

  /** A prompt's condition implies the direct dependencies of its symbol. */
  ghost predicate PromptsNeedDependencies(d: SymbolDecl) {
    forall k, env: Env | 0 <= k < |d.props| && d.props[k].Prompt? && WellTyped(env) ::
      EvalMaybe(env, d.props[k].visible) != NO ==> EvalMaybe(env, d.dirDep) != NO
  }

  lemma {:induction false} PromptImpliesDependencies(d: SymbolDecl, env: Env, k: nat)
    requires PromptsNeedDependencies(d) && WellTyped(env) && k <= |d.props|
    ensures PromptsUpTo(env, d.props, k) != NO ==> EvalMaybe(env, d.dirDep) != NO
  {
    if k > 0 {
      PromptImpliesDependencies(d, env, k - 1);
    }
  }

  /** So it does exactly if no prompt of an entry without a condition is visible
      while the conditions of all other entries fail. */
  lemma PromptsNeedDependenciesExactly(d: SymbolDecl, bases: seq<MaybeExpr>, at: seq<nat>)
    requires FromEntries(d, bases, at)
    ensures PromptsNeedDependencies(d)
            <==> forall k, env: Env | 0 <= k < |at| && d.props[k].Prompt?
                && bases[at[k]].None? && WellTyped(env) && AllFail(env, bases) ::
                   EvalMaybe(env, d.props[k].visible) == NO
  {
    forall env: Env
      ensures EvalMaybe(env, d.dirDep) == NO <==> AllFail(env, bases)
    {
      DirDepFails(env, bases);
    }
  }

  /** It always does if all entries have conditions, or none has. */
  lemma UniformEntries(d: SymbolDecl, bases: seq<MaybeExpr>, at: seq<nat>)
    requires FromEntries(d, bases, at)
    requires (forall j | 0 <= j < |bases| :: bases[j].Some?) || (forall j | 0 <= j < |bases| :: bases[j].None?)
    ensures PromptsNeedDependencies(d)
  {
    PromptsNeedDependenciesExactly(d, bases, at);
  }

  /** An accepted change takes effect exactly if nothing selects the symbol or some
      entry with a condition, if there is any, is not n. */
  lemma AcceptedChangeExactly(c: Context, d: Context, i: nat,
          val: Tristate, ids: set<nat>, bases: seq<MaybeExpr>, at: seq<nat>)
    requires UserSet(d, i, val) && SameBelow(c, d, i, ids) && FromEntries(c.decls[i], bases, at)
    requires WithinRange(c.decls[i].stype, c.modules, SymbolValue(c, i), val)
    ensures SymbolValue(d, i).curr.tri == val
            <==> SymbolValue(c, i).rev == NO || !AllFail(Shown(c, c.rank[i]), bases)
  {
    AcceptedChange(c, d, i, val, ids);
    DirDepFails(Shown(c, c.rank[i]), bases);
  }

  /** In particular, with prompts that need the dependencies it always does. */
  lemma AcceptedChangeTakesEffect(c: Context, d: Context, i: nat, val: Tristate, ids: set<nat>)
    requires UserSet(d, i, val) && SameBelow(c, d, i, ids) && PromptsNeedDependencies(c.decls[i])
    requires WithinRange(c.decls[i].stype, c.modules, SymbolValue(c, i), val)
    ensures SymbolValue(d, i).curr.tri == val
  {
    AcceptedChange(c, d, i, val, ids);
    ShownIsWellTyped(c, c.rank[i]);
    PromptImpliesDependencies(c.decls[i], Shown(c, c.rank[i]), |c.decls[i].props|);
  }

  // ----- reverse dependencies from simplified conditions -----

  /** A select or imply: the symbol it stands in, and its condition. */
  datatype Select = Select(source: Symbol, dep: MaybeExpr)

  /** rev_dep or implied of a symbol, from all that select or imply it. */
  function ReverseOf(selects: seq<Select>): (r: MaybeExpr)
    ensures r.None? <==> selects == []
  {
    if selects == [] then None
    else
      var last := selects[|selects| - 1];
      AllocOr(ReverseOf(selects[..|selects| - 1]), AllocAnd(Some(Sym(last.source)), last.dep))
  }

  /** The condition that menu_finalize stores for one. */
  function Stored(s: Select): Select {
    if TypeOf(s.source) != Tri && s.dep.Some? then s.(dep := Some(TransBool(s.dep.value))) else s
  }

  function AllStored(selects: seq<Select>): (r: seq<Select>)
    ensures |r| == |selects|
  {
    seq(|selects|, k requires 0 <= k < |selects| => Stored(selects[k]))
  }

  function Strength(env: Env, s: Select): Tristate {
    TriAnd(env(s.source).tri, EvalMaybe(env, s.dep))
  }

  function Strongest(env: Env, rev: MaybeExpr): Tristate {
    if rev.Some? then Eval(env, rev.value) else NO
  }

  lemma ReverseStep(env: Env, selects: seq<Select>)
    requires selects != []
    ensures Strongest(env, ReverseOf(selects))
         == TriOr(Strongest(env, ReverseOf(selects[..|selects| - 1])), Strength(env, selects[|selects| - 1]))
  {
    var last := selects[|selects| - 1];
    var (rev, own) := (ReverseOf(selects[..|selects| - 1]), AllocAnd(Some(Sym(last.source)), last.dep));
    assert own.Some? && Eval(env, own.value) == Strength(env, last);
    assert ReverseOf(selects) == AllocOr(rev, own);
    hide ReverseOf, AllocAnd, Strength;
  }

  ghost predicate NormalSelects(selects: seq<Select>) {
    forall k | 0 <= k < |selects| :: MaybeNormal(selects[k].dep)
  }

  /** The select stands in a bool whose condition is y only because of tristates at m. */
  predicate Falls(env: Env, s: Select) {
    TypeOf(s.source) != Tri && env(s.source).tri == YES && s.dep.Some? && RestsOnTests(env, s.dep.value)
  }

  lemma StoredStrength(env: Env, s: Select)
    requires WellTyped(env) && MaybeNormal(s.dep)
    ensures Strength(env, Stored(s)) == if Falls(env, s) then MOD else Strength(env, s)
    ensures Falls(env, s) ==> Strength(env, s) == YES
  {
    if s.dep.Some? {
      TransBoolExactly(env, s.dep.value);
    }
    assert ValueOk(s.source, env(s.source));
  }

  /** Some select keeps the symbol at y. */
  predicate SomeHolds(env: Env, selects: seq<Select>) {
    exists k :: 0 <= k < |selects| && Strength(env, selects[k]) == YES && !Falls(env, selects[k])
  }

  lemma SomeHoldsStep(env: Env, selects: seq<Select>)
    requires selects != []
    ensures var last := selects[|selects| - 1];
            SomeHolds(env, selects)
            <==> SomeHolds(env, selects[..|selects| - 1]) || (Strength(env, last) == YES && !Falls(env, last))
  {
    hide Strength, Falls;
    var init := selects[..|selects| - 1];
    if SomeHolds(env, init) {
      var k :| 0 <= k < |init| && Strength(env, init[k]) == YES && !Falls(env, init[k]);
      assert selects[k] == init[k];
    }
    if SomeHolds(env, selects) {
      var k :| 0 <= k < |selects| && Strength(env, selects[k]) == YES && !Falls(env, selects[k]);
      assert k < |init| ==> init[k] == selects[k];
    }
  }

  /** What expr_trans_bool does to a reverse dependency: n stays n, the value never
      grows, and it falls, from y to m, exactly if every select at y does. */
  lemma {:induction false} StoredReverse(env: Env, selects: seq<Select>)
    requires WellTyped(env) && NormalSelects(selects)
    ensures var (before, after) := (Strongest(env, ReverseOf(selects)), Strongest(env, ReverseOf(AllStored(selects))));
            && Promote(after) == Promote(before) && after <= before
            && (after == before <==> before != YES || SomeHolds(env, selects))
            && (SomeHolds(env, selects) ==> before == YES)
  {
    if selects != [] {
      var init, last := selects[..|selects| - 1], selects[|selects| - 1];
      assert NormalSelects(init);
      StoredReverse(env, init);
      assert AllStored(selects)[..|selects| - 1] == AllStored(init);
      ReverseStep(env, selects);
      ReverseStep(env, AllStored(selects));
      StoredStrength(env, last);
      SomeHoldsStep(env, selects);
      hide ReverseOf, Strength, Falls, Strongest, SomeHolds, NormalSelects, Stored, WellTyped;
    }
  }

  /** So a symbol that counts as bool does not notice, and no symbol does while all
      selects stand in tristates, or no tested tristate is m. */
  lemma StoredReverseKept(d: SymbolDecl, modules: Tristate, env: Env, selects: seq<Select>)
    requires WellTyped(env) && NormalSelects(selects)
    requires EffectiveType(d.stype, modules) == Boolean
          || forall k | 0 <= k < |selects| && selects[k].dep.Some? ::
               TypeOf(selects[k].source) == Tri || !TestsM(env, selects[k].dep.value)
    ensures RevOf(d.(revDep := ReverseOf(AllStored(selects))), modules, env)
         == RevOf(d.(revDep := ReverseOf(selects)), modules, env)
    ensures ImpliedOf(d.(implied := ReverseOf(AllStored(selects))), modules, env)
         == ImpliedOf(d.(implied := ReverseOf(selects)), modules, env)
  {
    StoredReverse(env, selects);
    var before, after := Strongest(env, ReverseOf(selects)), Strongest(env, ReverseOf(AllStored(selects)));
    if EffectiveType(d.stype, modules) != Boolean && before == YES {
      var k := StrongestSelect(env, selects);
      if selects[k].dep.Some? {
        TransBoolAtTests(env, selects[k].dep.value);
      }
      assert !Falls(env, selects[k]);
    }
    assert EffectiveType(d.stype, modules) != Boolean ==> after == before;
    hide ReverseOf, AllStored, Eval;
  }

  lemma {:induction false} StrongestSelect(env: Env, selects: seq<Select>) returns (k: nat)
    requires Strongest(env, ReverseOf(selects)) == YES
    ensures k < |selects| && Strength(env, selects[k]) == YES
  {
    ReverseStep(env, selects);
    k := |selects| - 1;
    if Strength(env, selects[k]) != YES {
      k := StrongestSelect(env, selects[..k]);
    }
  }

  // ----- when simplified conditions keep the values of all symbols -----

  ghost predicate SameCondition(t: SymbolType, a: MaybeExpr, b: MaybeExpr) {
    forall env: Env | WellTyped(env) :: SameFor(t, EvalMaybe(env, a), EvalMaybe(env, b))
  }

  ghost predicate SimplifiedProp(t: SymbolType, p: Property, q: Property) {
    && SameCondition(t, p.visible, q.visible)
    && match p
       case Prompt(_) => q.Prompt?
       case Default(_, e) => q.Default? && q.expr == e
       case Range(_, clamp) => q.Range? && q.clamp == clamp
       case Entry(_) => q.Entry?
  }

  /** The conditions of properties and the direct dependencies are simplified;
      nothing is said of the reverse dependencies. */
  ghost predicate SimplifiedDecl(m: Tristate, d: SymbolDecl, e: SymbolDecl) {
    && d.name == e.name && d.stype == e.stype && |d.props| == |e.props|
    && (forall k | 0 <= k < |d.props| :: SimplifiedProp(EffectiveType(d.stype, m), d.props[k], e.props[k]))
    && SameCondition(Tri, d.dirDep, e.dirDep)
  }

  lemma {:induction false} SimplifiedPrompts(m: Tristate, d: SymbolDecl, e: SymbolDecl, env: Env, k: nat)
    requires SimplifiedDecl(m, d, e) && WellTyped(env) && k <= |d.props|
    ensures SameFor(EffectiveType(d.stype, m), PromptsUpTo(env, d.props, k), PromptsUpTo(env, e.props, k))
  {
    if k > 0 {
      SimplifiedPrompts(m, d, e, env, k - 1);
      assert SimplifiedProp(EffectiveType(d.stype, m), d.props[k - 1], e.props[k - 1]);
    }
  }

  lemma {:induction false} SimplifiedFirst(m: Tristate, d: SymbolDecl, e: SymbolDecl, env: Env, k: nat)
    requires SimplifiedDecl(m, d, e) && WellTyped(env) && k <= |d.props|
    ensures FirstDefault(env, d.props, k) == FirstDefault(env, e.props, k)
    ensures FirstRange(env, d.props, k) == FirstRange(env, e.props, k)
    decreases |d.props| - k
  {
    if k < |d.props| {
      SimplifiedFirst(m, d, e, env, k + 1);
      assert SimplifiedProp(EffectiveType(d.stype, m), d.props[k], e.props[k]);
    }
  }

  lemma SimplifiedDependencies(m: Tristate, d: SymbolDecl, e: SymbolDecl, env: Env)
    requires SimplifiedDecl(m, d, e) && WellTyped(env)
    ensures VisibleOf(d, m, env) == VisibleOf(e, m, env) && DirOf(d, m, env) == DirOf(e, m, env)
  {
    SimplifiedPrompts(m, d, e, env, |d.props|);
  }

  lemma SimplifiedWanted(m: Tristate, d: SymbolDecl, e: SymbolDecl, user: Option<Value>, visible: Tristate,
                         implied: Tristate, env: Env)
    requires SimplifiedDecl(m, d, e) && WellTyped(env)
    ensures SameFor(EffectiveType(d.stype, m),
            Wanted(d, user, visible, implied, env), Wanted(e, user, visible, implied, env))
  {
    SimplifiedFirst(m, d, e, env, 0);
    var k := FirstDefault(env, d.props, 0);
    if k.Some? {
      assert SimplifiedProp(EffectiveType(d.stype, m), d.props[k.value], e.props[k.value]);
    }
  }

  lemma SettleSame(t: SymbolType, m: Tristate, a: Tristate,
          b: Tristate, dir: Tristate, rev: Tristate, implied: Tristate)
    requires SameFor(EffectiveType(t, m), a, b) && (t == Boolean || t == Tri)
    ensures Settle(t, m, a, dir, rev, implied) == Settle(t, m, b, dir, rev, implied)
  {
  }

  lemma SimplifiedCompute(m: Tristate, d: SymbolDecl, e: SymbolDecl, user: Option<Value>, env: Env, raw: Env)
    requires SimplifiedDecl(m, d, e) && WellTyped(env)
    requires RevOf(d, m, env) == RevOf(e, m, env) && ImpliedOf(d, m, env) == ImpliedOf(e, m, env)
    ensures ComputeWith(d, user, m, env, raw) == ComputeWith(e, user, m, env, raw)
  {
    SimplifiedDependencies(m, d, e, env);
    SimplifiedFirst(m, d, e, env, 0);
    var k := FirstDefault(env, d.props, 0);
    if k.Some? {
      assert SimplifiedProp(EffectiveType(d.stype, m), d.props[k.value], e.props[k.value]);
    }
    var j := FirstRange(env, d.props, 0);
    if j.Some? {
      assert SimplifiedProp(EffectiveType(d.stype, m), d.props[j.value], e.props[j.value]);
    }
    var visible, implied := VisibleOf(d, m, env), ImpliedOf(d, m, env);
    SimplifiedWanted(m, d, e, user, visible, implied, env);
    if d.stype == Boolean || d.stype == Tri {
      SettleSame(d.stype, m, Wanted(d, user, visible, implied, env), Wanted(e, user, visible, implied, env),
                 DirOf(d, m, env), RevOf(d, m, env), implied);
    }
  }

  ghost predicate SimplifiedContext(c: Context, d: Context) {
    && IsContext(c) && IsContext(d) && c.user == d.user && c.modules == d.modules && c.rank == d.rank
    && Ranked(c.decls, c.rank) && Ranked(d.decls, d.rank)
    && forall i | 0 <= i < |c.decls| :: SimplifiedDecl(c.modules, c.decls[i], d.decls[i])
  }

  /** What selects and implies symbol i has the same strength in both, at the
      values of the first. */
  ghost predicate DependenciesAgree(c: Context, d: Context, i: nat)
    requires IsContext(c) && IsContext(d) && i < |c.decls| && |d.decls| == |c.decls|
  {
    var env := Shown(c, c.rank[i]);
    && RevOf(c.decls[i], c.modules, env) == RevOf(d.decls[i], c.modules, env)
    && ImpliedOf(c.decls[i], c.modules, env) == ImpliedOf(d.decls[i], c.modules, env)
  }

  ghost predicate AllAgree(c: Context, d: Context)
    requires IsContext(c) && IsContext(d) && |d.decls| == |c.decls|
  {
    forall i | 0 <= i < |c.decls| :: DependenciesAgree(c, d, i)
  }

  ghost predicate SameValues(c: Context, d: Context)
    requires IsContext(c) && IsContext(d) && |d.decls| == |c.decls|
  {
    forall i {:trigger SymbolValue(c, i)} | 0 <= i < |c.decls| :: SymbolValue(c, i) == SymbolValue(d, i)
  }

  lemma SameInputs(c: Context, d: Context, bound: nat, s: Symbol)
    requires SimplifiedContext(c, d)
    requires s.Config? && s.id < |c.decls| && c.rank[s.id] < bound ==> SymbolValue(c, s.id) == SymbolValue(d, s.id)
    ensures Raw(c, bound)(s) == Raw(d, bound)(s) && Shown(c, bound)(s) == Shown(d, bound)(s)
  {
    if s.Config? && s.id < |c.decls| {
      assert SimplifiedDecl(c.modules, c.decls[s.id], d.decls[s.id]);
    }
    assert Shown(c, bound)(s) == ShownValue(s, Raw(c, bound)(s), c.modules);
    assert Shown(d, bound)(s) == ShownValue(s, Raw(d, bound)(s), d.modules);
  }

  lemma {:induction false} AgreeingKeepsValue(c: Context, d: Context, i: nat)
    requires SimplifiedContext(c, d) && AllAgree(c, d) && i < |c.decls|
    ensures SymbolValue(c, i) == SymbolValue(d, i)
    decreases c.rank[i], 1
  {
    var bound := c.rank[i];
    forall s | s in SymbolsOfDecl(d.decls[i])
      ensures Raw(c, bound)(s) == Raw(d, bound)(s) && Shown(c, bound)(s) == Shown(d, bound)(s)
    {
      if s.Config? && s.id < |c.decls| && c.rank[s.id] < bound {
        AgreeingKeepsValue(c, d, s.id);
      }
      SameInputs(c, d, bound, s);
    }
    ShownIsWellTyped(c, bound);
    assert SimplifiedDecl(c.modules, c.decls[i], d.decls[i]) && DependenciesAgree(c, d, i);
    SimplifiedCompute(c.modules, c.decls[i], d.decls[i], c.user[i], Shown(c, bound), Raw(c, bound));
    ComputeAgrees(d.decls[i], c.user[i], c.modules, d.modules,
        Shown(c, bound), Shown(d, bound), Raw(c, bound), Raw(d, bound));
  }

  /** Replacing every condition by its simplified form changes no value exactly
      if it changes no reverse dependency. */
  lemma SimplificationKeepsValues(c: Context, d: Context)
    requires SimplifiedContext(c, d)
    ensures SameValues(c, d) <==> AllAgree(c, d)
  {
    if AllAgree(c, d) {
      forall i {:trigger SymbolValue(c, i)} | 0 <= i < |c.decls|
        ensures SymbolValue(c, i) == SymbolValue(d, i)
      {
        AgreeingKeepsValue(c, d, i);
      }
    }
    if SameValues(c, d) {
      forall i | 0 <= i < |c.decls|
        ensures DependenciesAgree(c, d, i)
      {
        KeptValueAgrees(c, d, i);
      }
    }
  }

  lemma KeptValueAgrees(c: Context, d: Context, i: nat)
    requires SimplifiedContext(c, d) && SameValues(c, d) && i < |c.decls|
    ensures DependenciesAgree(c, d, i)
  {
    var bound := c.rank[i];
    forall s | s in SymbolsOfDecl(d.decls[i])
      ensures Raw(c, bound)(s) == Raw(d, bound)(s) && Shown(c, bound)(s) == Shown(d, bound)(s)
    {
      SameInputs(c, d, bound, s);
    }
    assert SymbolValue(c, i) == SymbolValue(d, i);
    ComputeAgrees(d.decls[i], c.user[i], c.modules, d.modules,
        Shown(c, bound), Shown(d, bound), Raw(c, bound), Raw(d, bound));
  }

  // ----- what menu_finalize does to the values -----

  /** The reverse dependencies come from these selects and implies, as written in
      the first and as stored by menu_finalize in the second. */
  ghost predicate FromSelects(c: Context, d: Context, selects: seq<seq<Select>>, implies: seq<seq<Select>>) {
    && |selects| == |implies| == |c.decls| == |d.decls|
    && forall i | 0 <= i < |c.decls| ::
         && NormalSelects(selects[i]) && NormalSelects(implies[i])
         && c.decls[i].revDep == ReverseOf(selects[i]) && d.decls[i].revDep == ReverseOf(AllStored(selects[i]))
         && c.decls[i].implied == ReverseOf(implies[i]) && d.decls[i].implied == ReverseOf(AllStored(implies[i]))
  }

  /** A tristate that is selected at y has a select at y that does not fall. */
  ghost predicate Upheld(c: Context, i: nat, selects: seq<Select>)
    requires IsContext(c) && i < |c.decls|
  {
    var env := Shown(c, c.rank[i]);
    EffectiveType(c.decls[i].stype, c.modules) == Boolean
    || Strongest(env, ReverseOf(selects)) != YES || SomeHolds(env, selects)
  }

  /** Exactly then does menu_finalize keep all values. */
  lemma FinalizeKeepsValues(c: Context, d: Context, selects: seq<seq<Select>>, implies: seq<seq<Select>>)
    requires SimplifiedContext(c, d) && FromSelects(c, d, selects, implies)
    ensures SameValues(c, d) <==> forall i | 0 <= i < |c.decls| ::
              && Upheld(c, i, selects[i])
              && (DirOf(c.decls[i], c.modules, Shown(c, c.rank[i])) != NO ==> Upheld(c, i, implies[i]))
  {
    SimplificationKeepsValues(c, d);
    forall i | 0 <= i < |c.decls|
      ensures DependenciesAgree(c, d, i)
              <==> && Upheld(c, i, selects[i])
                   && (DirOf(c.decls[i], c.modules, Shown(c, c.rank[i])) != NO ==> Upheld(c, i, implies[i]))
    {
      FinalizedDecl(c, d, i, selects[i], implies[i]);
    }
  }

  lemma FinalizedDecl(c: Context, d: Context, i: nat, selects: seq<Select>, implies: seq<Select>)
    requires SimplifiedContext(c, d) && i < |c.decls| && NormalSelects(selects) && NormalSelects(implies)
    requires c.decls[i].revDep == ReverseOf(selects) && d.decls[i].revDep == ReverseOf(AllStored(selects))
    requires c.decls[i].implied == ReverseOf(implies) && d.decls[i].implied == ReverseOf(AllStored(implies))
    ensures DependenciesAgree(c, d, i)
            <==> && Upheld(c, i, selects)
                 && (DirOf(c.decls[i], c.modules, Shown(c, c.rank[i])) != NO ==> Upheld(c, i, implies))
  {
    var env := Shown(c, c.rank[i]);
    ShownIsWellTyped(c, c.rank[i]);
    StoredReverse(env, selects);
    StoredReverse(env, implies);
    assert SimplifiedDecl(c.modules, c.decls[i], d.decls[i]);
    SimplifiedDependencies(c.modules, c.decls[i], d.decls[i], env);
    hide ReverseOf, AllStored, Eval, SimplifiedDecl, SimplifiedContext, SomeHolds, Shown, Raw;
  }

  /** Not always: a bool (1) selects a tristate (2) if the tristate 0 is not n.
      With 0 at m, the tristate is y by the condition as written, and m by the
      condition as stored. */
  function ExampleSelect(stored: bool): Select {
    var select := Select(Config(1, Boolean), Some(Comp(Unequal, Config(0, Tri), SymNo)));
    if stored then Stored(select) else select
  }

  function ExampleContext(stored: bool): (c: Context)
    ensures IsContext(c) && |c.decls| == 3
  {
    Context([SymbolDecl("C", Tri, [Prompt(None)], None, None, None),
             SymbolDecl("X", Boolean, [Prompt(None)], None, None, None),
             SymbolDecl("T", Tri, [], None, ReverseOf([ExampleSelect(stored)]), None)],
            [Some(Value(MOD, "m")), Some(Value(YES, "y")), None], YES, [0, 0, 1])
  }

  lemma PromptedValue(c: Context, i: nat)
    requires IsContext(c) && i < |c.decls| && c.modules == YES && c.user[i].Some?
    requires c.decls[i].props == [Prompt(None)] && (c.decls[i].stype == Tri || c.user[i].value.tri != MOD)
    requires c.decls[i].stype == Tri || c.decls[i].stype == Boolean
    requires c.decls[i].dirDep == c.decls[i].revDep == c.decls[i].implied == None
    ensures SymbolValue(c, i).curr.tri == c.user[i].value.tri
  {
    var env := Shown(c, c.rank[i]);
    assert PromptsUpTo(env, c.decls[i].props, 0) == NO;
    assert VisibleOf(c.decls[i], c.modules, env) == YES;
  }

  lemma SelectedValue(c: Context, i: nat, s: Select)
    requires IsContext(c) && i < |c.decls| && c.modules == YES && c.user[i].None?
    requires c.decls[i].props == [] && c.decls[i].stype == Tri && c.decls[i].dirDep == c.decls[i].implied == None
    requires c.decls[i].revDep == ReverseOf([s])
    ensures SymbolValue(c, i).curr.tri == Strength(Shown(c, c.rank[i]), s)
  {
    var env := Shown(c, c.rank[i]);
    assert [s][..0] == [];
    ReverseStep(env, [s]);
    assert Strongest(env, ReverseOf([])) == NO;
    hide ReverseOf, Strength;
  }

  lemma SelectedValueFalls()
    ensures var (c, d) := (ExampleContext(false), ExampleContext(true));
            && SimplifiedContext(c, d)
            && FromSelects(c, d, [[], [], [ExampleSelect(false)]], [[], [], []])
            && SymbolValue(c, 2).curr.tri == YES && SymbolValue(d, 2).curr.tri == MOD
  {
    ExampleValue(false);
    ExampleValue(true);
    ExampleIsSimplified();
    ExampleIsFromSelects();
    hide SymbolValue, SimplifiedContext, FromSelects, ExampleContext;
  }

  lemma ExampleIsFromSelects()
    ensures FromSelects(ExampleContext(false), ExampleContext(true), [[], [], [ExampleSelect(false)]], [[], [], []])
  {
    assert AllStored([]) == [];
    assert AllStored([ExampleSelect(false)]) == [ExampleSelect(true)];
    assert NormalSelects([ExampleSelect(false)]);
    hide ReverseOf, AllStored, NormalSelects, ExampleSelect;
    assert NormalSelects([]);
    assert ReverseOf([]) == None;
  }

  lemma ExampleIsSimplified()
    ensures SimplifiedContext(ExampleContext(false), ExampleContext(true))
  {
    ExampleIsRanked(false);
    ExampleIsRanked(true);
    hide Ranked, ReverseOf, ExampleSelect;
    var c, d := ExampleContext(false), ExampleContext(true);
    forall i | 0 <= i < 3
      ensures SimplifiedDecl(YES, c.decls[i], d.decls[i])
    {
      assert c.decls[i].props == d.decls[i].props && c.decls[i].dirDep == d.decls[i].dirDep;
    }
  }

  lemma ExampleSymbols(stored: bool)
    ensures SymbolsOfMaybe(ReverseOf([ExampleSelect(stored)])) <= {Config(0, Tri), Config(1, Boolean), SymNo}
    ensures SymbolsOfProps([]) == SymbolsOfProps([Prompt(None)]) == {}
  {
    var select, prompt := ExampleSelect(stored), [Prompt(None)];
    assert prompt[1..] == [] && [select][..0] == [];
    assert ReverseOf([select]) == AllocAnd(Some(Sym(select.source)), select.dep);
  }

  lemma ExampleIsRanked(stored: bool)
    ensures Ranked(ExampleContext(stored).decls, ExampleContext(stored).rank)
  {
    var c := ExampleContext(stored);
    ExampleSymbols(stored);
    hide SymbolsOfProps, ReverseOf, ExampleSelect;
    assert SymbolsOfDecl(c.decls[0]) == {} == SymbolsOfDecl(c.decls[1]);
    assert SymbolsOfDecl(c.decls[2]) <= {Config(0, Tri), Config(1, Boolean), SymNo};
  }

  lemma ExampleStrength(env: Env, stored: bool)
    requires WellTyped(env) && env(Config(0, Tri)).tri == MOD && env(Config(1, Boolean)).tri == YES
    ensures Strength(env, ExampleSelect(stored)) == if stored then MOD else YES
  {
    StoredStrength(env, ExampleSelect(false));
    ComparesWithConst(env, Config(0, Tri), Unequal, SymNo);
  }

  lemma ExampleValue(stored: bool)
    ensures SymbolValue(ExampleContext(stored), 2).curr.tri == if stored then MOD else YES
  {
    var c := ExampleContext(stored);
    var env := Shown(c, 1);
    PromptedValue(c, 0);
    PromptedValue(c, 1);
    SelectedValue(c, 2, ExampleSelect(stored));
    assert Raw(c, 1)(Config(0, Tri)) == SymbolValue(c, 0).curr
        && Raw(c, 1)(Config(1, Boolean)) == SymbolValue(c, 1).curr;
    ShownIsWellTyped(c, 1);
    hide SymbolValue, Strength, ExampleSelect, ReverseOf, WellTyped;
    ExampleStrength(env, stored);
  }

  // ----- a symbol with two entries, one without a condition -----

  /** The tristate T (2) is declared twice, the second time depending on the bool
      B (0), and selected by the tristate X (1).  B is n and X is m. */
  function TwoEntries(user: Option<Value>): (c: Context)
    ensures IsContext(c) && |c.decls| == 3
  {
    var onB := Some(Sym(Config(0, Boolean)));
    Context([SymbolDecl("B", Boolean, [Prompt(None)], None, None, None),
             SymbolDecl("X", Tri, [Prompt(None)], None, None, None),
             SymbolDecl("T", Tri, [Prompt(None), Prompt(onB)], DirDepOf([None, onB]), Some(Sym(Config(1, Tri))), None)],
            [Some(Value(NO, "n")), Some(Value(MOD, "m")), user], YES, [0, 0, 1])
  }

  /** T is offered at y and the change to y accepted, but T becomes n. */
  lemma AcceptedChangeIsLost()
    ensures var (c, d) := (TwoEntries(None), TwoEntries(Some(Value(YES, "y"))));
            && Ranked(c.decls, c.rank) && Ranked(d.decls, d.rank)
            && FromEntries(c.decls[2], [None, Some(Sym(Config(0, Boolean)))], [0, 1])
            && UserSet(d, 2, YES) && WithinRange(Tri, YES, SymbolValue(c, 2), YES)
            && SymbolValue(d, 2).curr.tri == NO
  {
    TwoEntriesValue(None);
    TwoEntriesValue(Some(Value(YES, "y")));
    TwoEntriesRanked(None);
    TwoEntriesRanked(Some(Value(YES, "y")));
    TwoEntriesMade();
    hide SymbolValue, Ranked, FromEntries;
  }

  lemma TwoEntriesMade()
    ensures FromEntries(TwoEntries(None).decls[2], [None, Some(Sym(Config(0, Boolean)))], [0, 1])
  {
    hide DirDepOf;
  }

  lemma TwoEntriesRanked(user: Option<Value>)
    ensures Ranked(TwoEntries(user).decls, TwoEntries(user).rank)
  {
    var c := TwoEntries(user);
    var onB := Some(Sym(Config(0, Boolean)));
    ExampleSymbols(false);
    var bases: seq<MaybeExpr> := [None, onB];
    assert bases[..1] == [None] && bases[..1][..0] == [];
    assert DirDepOf(bases) == onB;
    assert [Prompt(None), Prompt(onB)][1..] == [Prompt(onB)] && [Prompt(onB)][1..] == [];
    assert SymbolsOfProps([Prompt(onB)]) == {Config(0, Boolean)};
    assert SymbolsOfProps([Prompt(None), Prompt(onB)]) == {Config(0, Boolean)};
    hide SymbolsOfProps, DirDepOf;
    assert SymbolsOfDecl(c.decls[0]) == {} == SymbolsOfDecl(c.decls[1]);
    assert SymbolsOfDecl(c.decls[2]) == {Config(0, Boolean), Config(1, Tri)};
  }

  lemma TwoEntriesValue(user: Option<Value>)
    requires user.Some? ==> user.value.tri == YES
    ensures var v := SymbolValue(TwoEntries(user), 2);
            v.visible == YES && v.dir == NO && v.rev == MOD && v.implied == NO && v.curr.tri == NO
  {
    var c := TwoEntries(user);
    var env := Shown(c, 1);
    PromptedValue(c, 0);
    PromptedValue(c, 1);
    assert Raw(c, 1)(Config(0, Boolean)) == SymbolValue(c, 0).curr
        && Raw(c, 1)(Config(1, Tri)) == SymbolValue(c, 1).curr;
    assert env(Config(0, Boolean)).tri == NO && env(Config(1, Tri)).tri == MOD;
    TwoEntriesFields(c, env, user);
  }

  lemma TwoEntriesFields(c: Context, env: Env, user: Option<Value>)
    requires c == TwoEntries(user) && env(Config(0, Boolean)).tri == NO && env(Config(1, Tri)).tri == MOD
    requires user.Some? ==> user.value.tri == YES
    ensures var d := c.decls[2];
            && VisibleOf(d, YES, env) == YES && DirOf(d, YES, env) == NO && RevOf(d, YES, env) == MOD
            && ImpliedOf(d, YES, env) == NO && CurrOf(d, user, YES, env, env).tri == NO
  {
    var d := c.decls[2];
    var onB := Some(Sym(Config(0, Boolean)));
    assert PromptsUpTo(env, d.props, 0) == NO;
    assert PromptsUpTo(env, d.props, 1) == YES;
    DirDepFails(env, [None, onB]);
    assert [None, onB][1].Some?;
    assert AllFail(env, [None, onB]);
  }
}
