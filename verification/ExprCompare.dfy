// Conditions of the form "e != n" and the test that puts an entry into an
// automatic submenu (expr_contains_symbol, expr_depends_symbol and
// expr_trans_compare in scripts/config/expr.c, menu_finalize in
// scripts/config/menu.c).

module ExprCompare {
  import opened Wrappers
  import opened TristateLogic
  import opened Exprs
  import opened ExprEquality
  import opened ExprJoin
  import opened ExprDups
  import opened ExprSlots
  import opened ExprTransform

  predicate ContainsSymbol(e: Expr, s: Symbol) {
    match e
    case Sym(x) => x == s
    case Comp(_, l, r) => l == s || r == s
    case Not(x) => ContainsSymbol(x, s)
    case Bin(_, l, r) => ContainsSymbol(l, s) || ContainsSymbol(r, s)
  }

  predicate DependsSymbol(e: Expr, s: Symbol) {
    match e
    case Bin(AndOp, l, r) => DependsSymbol(l, s) || DependsSymbol(r, s)
    case Sym(x) => x == s
    case Comp(Equal, l, r) => l == s && (r == SymYes || r == SymMod)
    case Comp(Unequal, l, r) => l == s && r == SymNo
    case _ => false
  }

  /** Bare symbols are n exactly if their text is.  This is always so for bool and
      tristate symbols and for y, m, n; any other symbol has the value n, so its
      text has to be "n". */
  predicate TextsAgree(env: Env, e: Expr) {
    match e
    case Sym(s) => env(s).tri == NO <==> env(s).str == "n"
    case Comp(_, _, _) => true
    case Not(x) => TextsAgree(env, x)
    case Bin(_, l, r) => TextsAgree(env, l) && TextsAgree(env, r)
  }

  predicate NotFree(e: Expr) {
    match e
    case Not(_) => false
    case Bin(_, l, r) => NotFree(l) && NotFree(r)
    case _ => true
  }

  function NotIf(b: bool, e: Expr): Expr {
    if b then Not(e) else e
  }

  /** Inserts "= c" or "!= c" into e, for c = y or c = n. */
  function TransCompare(e: Expr, rel: Relation, c: Symbol): Expr
    requires (rel == Equal || rel == Unequal) && (c == SymYes || c == SymNo)
  {
    match e
    case Sym(s) => Comp(rel, s, c)
    case Comp(_, _, _) => NotIf((rel == Equal) != (c == SymYes), e)
    case Not(x) => TransCompare(x, Negate(rel), c)
    case Bin(op, l, r) =>
      var op' := if c == SymYes then op else Dual(op);
      NotIf(rel == Unequal, Bin(op', TransCompare(l, Equal, c), TransCompare(r, Equal, c)))
  }

  function TransCompareMaybe(e: MaybeExpr, rel: Relation, c: Symbol): Expr
    requires (rel == Equal || rel == Unequal) && (c == SymYes || c == SymNo)
  {
    match e
    case None => NotIf(rel == Unequal, Sym(c))
    case Some(x) => TransCompare(x, rel, c)
  }

  /** w is a yes/no answer to "is v different from n?" that is right whenever v
      is n or y, and whenever v is m if exact is set. */
  predicate AnswersNonZero(v: Tristate, w: Tristate, exact: bool) {
    && w != MOD
    && (v == YES ==> w == YES)
    && (w == YES ==> v != NO)
    && (exact ==> (w == YES <==> v != NO))
  }

  /** Comparing with n: always right up to m, and exact without !.  The = and
      the != form are opposite answers. */
  lemma {:induction false} TransCompareToNo(env: Env, e: Expr)
    requires WellTyped(env) && TextsAgree(env, e)
    ensures AnswersNonZero(Eval(env, e), Eval(env, TransCompare(e, Unequal, SymNo)), NotFree(e))
    ensures Eval(env, TransCompare(e, Equal, SymNo)) == TriNot(Eval(env, TransCompare(e, Unequal, SymNo)))
  {
    match e
    case Sym(s) => SymbolAgainstNo(env, s);
    case Comp(_, _, _) =>
    case Not(x) => TransCompareToNo(env, x);
    case Bin(_, l, r) =>
      TransCompareToNo(env, l);
      TransCompareToNo(env, r);
  }

  /** A comparison with n looks at the text. */
  lemma SymbolAgainstNo(env: Env, s: Symbol)
    requires WellTyped(env)
    ensures Eval(env, Comp(Unequal, s, SymNo)) == OfBool(env(s).str != "n")
    ensures Eval(env, Comp(Equal, s, SymNo)) == OfBool(env(s).str == "n")
  {
    assert ValueOk(SymNo, env(SymNo));
    NamesAreNotNumbers();
    StrCmpZero(env(s).str, "n");
  }

  /** For a bare symbol the inserted comparison is right exactly then; for a string,
      or an undefined symbol, with another text than "n" it is wrong. */
  lemma BareSymbolAgainstNo(env: Env, s: Symbol)
    requires WellTyped(env)
    ensures AnswersNonZero(Eval(env, Sym(s)), Eval(env, TransCompare(Sym(s), Unequal, SymNo)), true)
            <==> TextsAgree(env, Sym(s))
    ensures TextsAgree(env, Sym(s)) <==> IsLogical(s) || IsTriConst(s) || env(s).str == "n"
  {
    SymbolAgainstNo(env, s);
    assert ValueOk(s, env(s));
  }

  /** The answer for m below a ! is the wrong one: !a is m and so not n, yet the
      inserted comparison says it is. */
  lemma TransCompareIsNotExact(id: nat)
    ensures var (e, env) := (Not(Sym(Config(id, Tri))), EnvWith(Config(id, Tri), MOD));
            WellTyped(env) && Eval(env, e) != NO && Eval(env, TransCompare(e, Unequal, SymNo)) == NO
  {
    var s := Config(id, Tri);
    EnvWithIsWellTyped(s, MOD);
    SymbolAgainstNo(EnvWith(s, MOD), s);
  }

  /** An absolute dependency: the entry is n whenever the text of the symbol is
      "n", and so, for a bool or tristate symbol, whenever the symbol is n. */
  lemma {:induction false} DependsSymbolIsRight(env: Env, e: Expr, s: Symbol)
    requires WellTyped(env) && DependsSymbol(e, s) && Eval(env, e) != NO
    ensures env(s).str != "n" && (IsLogical(s) ==> env(s).tri != NO)
  {
    assert ValueOk(s, env(s));
    match e
    case Bin(AndOp, l, r) =>
      if DependsSymbol(l, s) {
        DependsSymbolIsRight(env, l, s);
      } else {
        DependsSymbolIsRight(env, r, s);
      }
    case Comp(Equal, _, r) => EqualTexts(env, s, r);
    case Comp(Unequal, _, _) => SymbolAgainstNo(env, s);
    case _ =>
  }

  lemma EqualTexts(env: Env, s: Symbol, c: Symbol)
    requires WellTyped(env) && (c == SymYes || c == SymMod)
    ensures Eval(env, Comp(Equal, s, c)) == OfBool(env(s).str == env(c).str) && env(c).str != "n"
  {
    assert ValueOk(c, env(c)) && ValueOk(s, env(s));
    NamesAreNotNumbers();
    StrCmpZero(env(s).str, env(c).str);
  }

  /** The conditions that fail whenever s is n. */
  predicate NeedsDirectly(x: Expr, s: Symbol) {
    x == Sym(s) || x == Comp(Equal, s, SymYes) || x == Comp(Equal, s, SymMod) || x == Comp(Unequal, s, SymNo)
  }

  /** Exactly then is a dependency absolute: one operand of the outermost && level
      is such a condition. */
  lemma DependsSymbolExactly(e: Expr, s: Symbol)
    ensures DependsSymbol(e, s) <==> exists p :: IsOperand(AndOp, e, p) && NeedsDirectly(Get(AndOp, e, p), s)
  {
    if DependsSymbol(e, s) {
      var p := DirectOperand(e, s);
    }
    forall p | IsOperand(AndOp, e, p) && NeedsDirectly(Get(AndOp, e, p), s)
      ensures DependsSymbol(e, s)
    {
      OperandIsEnough(e, s, p);
    }
  }

  lemma {:induction false} DirectOperand(e: Expr, s: Symbol) returns (p: Path)
    requires DependsSymbol(e, s)
    ensures IsOperand(AndOp, e, p) && NeedsDirectly(Get(AndOp, e, p), s)
  {
    if IsLevel(AndOp, e) {
      var right := !DependsSymbol(e.left, s);
      p := DirectOperand(if right then e.right else e.left, s);
      BelowOperand(e, p, right);
      p := [right] + p;
    } else {
      p := [];
    }
  }

  lemma {:induction false} OperandIsEnough(e: Expr, s: Symbol, p: Path)
    requires IsOperand(AndOp, e, p) && NeedsDirectly(Get(AndOp, e, p), s)
    ensures DependsSymbol(e, s)
    decreases |p|
  {
    if p != [] {
      OperandIsEnough(if p[0] then e.right else e.left, s, p[1..]);
    }
  }

  lemma BelowOperand(e: Expr, p: Path, right: bool)
    requires IsLevel(AndOp, e) && IsOperand(AndOp, if right then e.right else e.left, p)
    ensures IsOperand(AndOp, e, [right] + p)
            && Get(AndOp, e, [right] + p) == Get(AndOp, if right then e.right else e.left, p)
  {
    assert ([right] + p)[1..] == p;
  }

  // ----- the submenu test -----

  ghost predicate Answers(dep: MaybeExpr, w: Expr) {
    forall env: Env | WellTyped(env) && MaybeTextsAgree(env, dep) ::
      AnswersNonZero(EvalMaybe(env, dep), Eval(env, w), dep.None? || NotFree(dep.value))
  }

  predicate MaybeTextsAgree(env: Env, dep: MaybeExpr) {
    dep.Some? ==> TextsAgree(env, dep.value)
  }

  predicate Supported(dep: MaybeExpr) {
    dep.Some? ==> PlainConsts(dep.value)
  }

  /** The simplified form of "dep != n". */
  method SubmenuCondition(dep: MaybeExpr) returns (w: Expr)
    ensures Supported(dep) ==> Answers(dep, w)
  {
    ghost var wrong;
    w, wrong := EliminateDups(Transform(TransCompareMaybe(dep, Unequal, SymNo)));
    if Supported(dep) {
      TransCompareMaybePlain(dep);
      TransformPlain(TransCompareMaybe(dep, Unequal, SymNo));
      forall env: Env | WellTyped(env) && MaybeTextsAgree(env, dep)
        ensures AnswersNonZero(EvalMaybe(env, dep), Eval(env, w), dep.None? || NotFree(dep.value))
      {
        YesValue(env);
        if dep.Some? {
          TransCompareToNo(env, dep.value);
        }
        TransformKeepsValue(env, TransCompareMaybe(dep, Unequal, SymNo));
      }
    }
  }

  /** dep needs the symbol s, whatever the value of dep above n. */
  ghost predicate NeedsSymbol(dep: MaybeExpr, s: Symbol) {
    forall env: Env | WellTyped(env) && EvalMaybe(env, dep) != NO ::
      env(s).str != "n" && (IsLogical(s) ==> env(s).tri != NO)
  }

  /** dep = y needs the parent's condition, and so does dep = m without a !. */
  ghost predicate NeedsCondition(dep: MaybeExpr, parentDep: MaybeExpr) {
    forall env: Env | WellTyped(env) && MaybeTextsAgree(env, dep) && MaybeTextsAgree(env, parentDep)
                      && EvalMaybe(env, parentDep) == NO ::
      EvalMaybe(env, dep) != YES && (dep.Some? && NotFree(dep.value) ==> EvalMaybe(env, dep) == NO)
  }

  /** Does the entry with condition dep go below the entry of symbol s, whose
      own condition is parentDep, simplified to base? */
  method BelongsBelow(s: Symbol, base: Expr, dep: MaybeExpr, ghost parentDep: MaybeExpr)
          returns (b: bool, ghost w: Expr)
    requires Supported(dep) && Answers(parentDep, base)
    ensures dep.None? || !ContainsSymbol(dep.value, s) ==> !b
    ensures dep.Some? && ContainsSymbol(dep.value, s) && DependsSymbol(dep.value, s) ==> b
    ensures dep.Some? && ContainsSymbol(dep.value, s) && !DependsSymbol(dep.value, s) ==>
              Answers(dep, w) && (b <==> IsYes(Some(EliminateEq(w, base).1)))
    ensures b ==> NeedsSymbol(dep, s) || NeedsCondition(dep, parentDep)
  {
    w := base;
    if dep.None? || !ContainsSymbol(dep.value, s) {
      return false, w;
    }
    if DependsSymbol(dep.value, s) {
      forall env: Env | WellTyped(env) && EvalMaybe(env, dep) != NO
        ensures env(s).str != "n" && (IsLogical(s) ==> env(s).tri != NO)
      {
        DependsSymbolIsRight(env, dep.value, s);
      }
      return true, w;
    }
    var v := SubmenuCondition(dep);
    w := v;
    var (_, rest) := EliminateEq(v, base);
    b := IsYes(Some(rest));
    if b {
      forall env: Env | WellTyped(env)
        ensures Eval(env, v) == YES ==> Eval(env, base) == YES
      {
        SupersetIsStronger(env, v, base);
      }
    }
  }

  /** Once all of base has been cancelled, w is at most base. */
  lemma SupersetIsStronger(env: Env, w: Expr, base: Expr)
    requires WellTyped(env) && IsYes(Some(EliminateEq(w, base).1))
    ensures Eval(env, w) <= Eval(env, base)
  {
    EliminateEqFactors(env, w, base);
    YesValue(env);
  }

  /** For conjunctions the cancellation test is exactly the superset test. */
  lemma SupersetExactly(w: Expr, base: Expr)
    requires IsLevel(AndOp, w) && IsLevel(AndOp, base) && YnFree(w) && YnFree(base)
    ensures IsYes(Some(EliminateEq(w, base).1)) <==> Operands(AndOp, base) <= Operands(AndOp, w)
  {
    EliminateEqDifference(AndOp, w, base);
    var p, q := Operands(AndOp, base), Operands(AndOp, w);
    if p <= q {
      assert p - q == multiset{};
    } else {
      var c :| p[c] > q[c];
      assert (p - q)[c] > 0;
    }
  }

  lemma {:induction false} TransComparePlain(e: Expr, rel: Relation)
    requires PlainConsts(e) && (rel == Equal || rel == Unequal)
    ensures PlainConsts(TransCompare(e, rel, SymNo))
  {
    match e
    case Not(x) => TransComparePlain(x, Negate(rel));
    case Bin(_, l, r) =>
      TransComparePlain(l, Equal);
      TransComparePlain(r, Equal);
    case _ =>
  }

  lemma TransCompareMaybePlain(dep: MaybeExpr)
    requires Supported(dep)
    ensures PlainConsts(TransCompareMaybe(dep, Unequal, SymNo))
  {
    if dep.Some? {
      TransComparePlain(dep.value, Unequal);
    }
  }

  lemma {:induction false} TransformPlain(e: Expr)
    requires PlainConsts(e)
    ensures PlainConsts(Transform(e))
    decreases Weight(e), 1
  {
    match e
    case Sym(_) =>
    case Comp(_, _, _) =>
    case Bin(_, l, r) =>
      TransformPlain(l);
      TransformPlain(r);
    case Not(x) =>
      TransformPlain(x);
      TransformNotPlain(Transform(x));
  }

  lemma {:induction false} TransformNotPlain(x: Expr)
    requires PlainConsts(x)
    ensures PlainConsts(TransformNot(x))
    decreases 2 * Weight(x), 0
  {
    match x
    case Not(y) => TransformPlain(y);
    case Bin(op, l, r) =>
      PushingDownIsLighter(op, l, r);
      TransformPlain(Bin(Dual(op), Not(l), Not(r)));
    case _ =>
  }
}
