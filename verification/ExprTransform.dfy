// Normalisation of expressions (expr_transform and expr_trans_bool in
// scripts/config/expr.c).

module ExprTransform {
  import opened TristateLogic
  import opened Exprs
  import opened ExprJoin

  /** Pushing a ! inside may repeat work on operands that were transformed
      already; a ! therefore counts double. */
  function Weight(e: Expr): (n: nat)
    ensures n >= 1
  {
    match e
    case Sym(_) => 1
    case Comp(_, _, _) => 2
    case Not(x) => 2 * Weight(x)
    case Bin(_, l, r) => 1 + Weight(l) + Weight(r)
  }

  lemma PushingDownIsLighter(op: BoolOp, l: Expr, r: Expr)
    ensures Weight(Bin(Dual(op), Not(l), Not(r))) < 2 * Weight(Bin(op, l, r))
  {
    assert Weight(Not(l)) == 2 * Weight(l) && Weight(Not(r)) == 2 * Weight(r);
  }

  function Negate(rel: Relation): Relation {
    match rel
    case Equal => Unequal
    case Unequal => Equal
    case Less => GreaterEq
    case LessEq => Greater
    case Greater => LessEq
    case GreaterEq => Less
  }

  /** A bool symbol compared with y, m or n needs no comparison. */
  function TransformComp(rel: Relation, l: Symbol, r: Symbol): (e: Expr)
    ensures Weight(e) <= 2
  {
    if TypeOf(l) != Boolean then Comp(rel, l, r)
    else if rel == Equal then
      if r == SymNo then Not(Sym(l))
      else if r == SymMod then Sym(SymNo)
      else if r == SymYes then Sym(l)
      else Comp(rel, l, r)
    else if rel == Unequal then
      if r == SymNo then Sym(l)
      else if r == SymMod then Sym(SymYes)
      else if r == SymYes then Not(Sym(l))
      else Comp(rel, l, r)
    else Comp(rel, l, r)
  }

  /** !!a, !(a = b), !(a && b) and so on; x is already transformed. */
  function TransformNot(x: Expr): (e: Expr)
    ensures Weight(e) <= 2 * Weight(x)
    decreases 2 * Weight(x), 0
  {
    match x
    case Not(y) => Transform(y)
    case Comp(rel, l, r) => Comp(Negate(rel), l, r)
    case Bin(op, l, r) =>
      PushingDownIsLighter(op, l, r);
      Transform(Bin(Dual(op), Not(l), Not(r)))
    case Sym(SymYes) => Sym(SymNo)
    case Sym(SymMod) => Sym(SymMod)
    case Sym(SymNo) => Sym(SymYes)
    case Sym(_) => Not(x)
  }

  function Transform(e: Expr): (r: Expr)
    ensures Weight(r) <= Weight(e)
    decreases Weight(e), 1
  {
    match e
    case Sym(_) => e
    case Comp(rel, l, r) => TransformComp(rel, l, r)
    case Bin(op, l, r) => Bin(op, Transform(l), Transform(r))
    case Not(x) => TransformNot(Transform(x))
  }

  /** ! stands only before symbols other than y, m and n, and no bool symbol is
      tested for equality with y, m or n. */
  predicate IsNormal(e: Expr) {
    match e
    case Sym(_) => true
    case Comp(rel, l, r) => !((rel == Equal || rel == Unequal) && TypeOf(l) == Boolean && IsTriConst(r))
    case Not(x) => x.Sym? && !IsTriConst(x.s)
    case Bin(_, l, r) => IsNormal(l) && IsNormal(r)
  }

  lemma TransformCompIsRight(env: Env, rel: Relation, l: Symbol, r: Symbol)
    requires WellTyped(env)
    ensures Eval(env, TransformComp(rel, l, r)) == Eval(env, Comp(rel, l, r))
  {
    if TypeOf(l) == Boolean && (rel == Equal || rel == Unequal) && IsTriConst(r) {
      YesValue(env);
      ComparesWithConst(env, l, rel, r);
    }
  }

  lemma {:induction false} TransformNotKeepsValue(env: Env, x: Expr)
    requires WellTyped(env)
    ensures Eval(env, TransformNot(x)) == TriNot(Eval(env, x))
    decreases 2 * Weight(x), 0
  {
    match x
    case Not(y) => TransformKeepsValue(env, y);
    case Bin(op, l, r) =>
      PushingDownIsLighter(op, l, r);
      TransformKeepsValue(env, Bin(Dual(op), Not(l), Not(r)));
    case Sym(s) => YesValue(env);
    case Comp(_, _, _) =>
  }

  lemma {:induction false} TransformKeepsValue(env: Env, e: Expr)
    requires WellTyped(env)
    ensures Eval(env, Transform(e)) == Eval(env, e)
    decreases Weight(e), 1
  {
    match e
    case Sym(_) =>
    case Comp(rel, l, r) => TransformCompIsRight(env, rel, l, r);
    case Bin(op, l, r) =>
      TransformKeepsValue(env, l);
      TransformKeepsValue(env, r);
    case Not(x) =>
      TransformKeepsValue(env, x);
      TransformNotKeepsValue(env, Transform(x));
  }

  lemma {:induction false} TransformNotIsNormal(x: Expr)
    requires IsNormal(x)
    ensures IsNormal(TransformNot(x))
    decreases 2 * Weight(x), 0
  {
    match x
    case Not(y) => TransformIsNormal(y);
    case Bin(op, l, r) =>
      PushingDownIsLighter(op, l, r);
      TransformIsNormal(Bin(Dual(op), Not(l), Not(r)));
    case Sym(s) =>
    case Comp(_, _, _) =>
  }

  lemma {:induction false} TransformIsNormal(e: Expr)
    ensures IsNormal(Transform(e))
    decreases Weight(e), 1
  {
    match e
    case Sym(_) =>
    case Comp(_, _, _) =>
    case Bin(_, l, r) =>
      TransformIsNormal(l);
      TransformIsNormal(r);
    case Not(x) =>
      TransformIsNormal(x);
      TransformNotIsNormal(Transform(x));
  }

  /** The normal forms are exactly the expressions left unchanged; with
      TransformIsNormal, transforming twice is transforming once. */
  lemma {:induction false} NormalIsFixed(e: Expr)
    ensures IsNormal(e) <==> Transform(e) == e
  {
    if Transform(e) == e {
      TransformIsNormal(e);
    } else if IsNormal(e) {
      match e
      case Bin(_, l, r) =>
        NormalIsFixed(l);
        NormalIsFixed(r);
      case _ =>
    }
  }

  // ----- expr_trans_bool -----

  /** a != n becomes a for a tristate symbol. */
  function TransBool(e: Expr): Expr {
    match e
    case Bin(op, l, r) => Bin(op, TransBool(l), TransBool(r))
    case Not(x) => Not(TransBool(x))
    case Comp(Unequal, l, SymNo) => if TypeOf(l) == Tri then Sym(l) else e
    case _ => e
  }

  /** Some comparison != n of a tristate symbol is left. */
  predicate TestsNonZero(e: Expr) {
    match e
    case Sym(_) => false
    case Comp(rel, l, r) => rel == Unequal && TypeOf(l) == Tri && r == SymNo
    case Not(x) => TestsNonZero(x)
    case Bin(_, l, r) => TestsNonZero(l) || TestsNonZero(r)
  }

  /** All such comparisons go, and nothing else changes. */
  lemma {:induction false} TransBoolRemovesAll(e: Expr)
    ensures !TestsNonZero(TransBool(e)) && (TransBool(e) == e <==> !TestsNonZero(e))
  {
    match e
    case Not(x) => TransBoolRemovesAll(x);
    case Bin(_, l, r) =>
      TransBoolRemovesAll(l);
      TransBoolRemovesAll(r);
    case _ =>
  }

  /** Where a bool symbol is shown: anything but n counts as y. */
  function Promote(t: Tristate): Tristate {
    if t == MOD then YES else t
  }

  lemma {:induction false} TransBoolKeepsNonZero(env: Env, e: Expr)
    requires WellTyped(env) && IsNormal(e)
    ensures Promote(Eval(env, TransBool(e))) == Promote(Eval(env, e))
  {
    match e
    case Bin(op, l, r) =>
      TransBoolKeepsNonZero(env, l);
      TransBoolKeepsNonZero(env, r);
      PromoteDistributes(op, Eval(env, l), Eval(env, r));
      PromoteDistributes(op, Eval(env, TransBool(l)), Eval(env, TransBool(r)));
    case Comp(Unequal, l, SymNo) =>
      if TypeOf(l) == Tri {
        ComparesWithConst(env, l, Unequal, SymNo);
      }
    case _ =>
  }

  lemma PromoteDistributes(op: BoolOp, a: Tristate, b: Tristate)
    ensures Promote(Apply(op, a, b)) == Apply(op, Promote(a), Promote(b))
  {
  }

  /** Neither half can be strengthened: the value itself may change, and below a
      ! even the distinction between n and the rest is lost. */
  lemma TransBoolIsNotExact(id: nat)
    ensures var s := Config(id, Tri);
            var (e, env) := (Comp(Unequal, s, SymNo), EnvWith(s, MOD));
            && WellTyped(env) && IsNormal(e) && Eval(env, TransBool(e)) != Eval(env, e)
            && Promote(Eval(env, TransBool(Not(e)))) != Promote(Eval(env, Not(e)))
  {
    var s := Config(id, Tri);
    EnvWithIsWellTyped(s, MOD);
    ComparesWithConst(EnvWith(s, MOD), s, Unequal, SymNo);
  }

  /** The value y of e rests on tests != n of tristates that are m: every operand
      of a || that is y does, and some operand of an &&. */
  predicate RestsOnTests(env: Env, e: Expr) {
    match e
    case Bin(AndOp, l, r) => Eval(env, e) == YES && (RestsOnTests(env, l) || RestsOnTests(env, r))
    case Bin(OrOp, l, r) =>
      && Eval(env, e) == YES
      && (Eval(env, l) == YES ==> RestsOnTests(env, l)) && (Eval(env, r) == YES ==> RestsOnTests(env, r))
    case Comp(Unequal, l, SymNo) => TypeOf(l) == Tri && env(l).tri == MOD
    case _ => false
  }

  /** The value never grows, and exactly in this case it falls, from y to m. */
  lemma {:induction false} TransBoolExactly(env: Env, e: Expr)
    requires WellTyped(env) && IsNormal(e)
    ensures Eval(env, TransBool(e)) == if RestsOnTests(env, e) then MOD else Eval(env, e)
    ensures RestsOnTests(env, e) ==> Eval(env, e) == YES
  {
    match e
    case Bin(_, l, r) =>
      TransBoolExactly(env, l);
      TransBoolExactly(env, r);
    case Comp(Unequal, l, SymNo) =>
      if TypeOf(l) == Tri {
        ComparesWithConst(env, l, Unequal, SymNo);
      }
    case _ =>
  }

  /** Some tristate that e tests for != n is m. */
  predicate TestsM(env: Env, e: Expr) {
    match e
    case Comp(Unequal, l, SymNo) => TypeOf(l) == Tri && env(l).tri == MOD
    case Not(x) => TestsM(env, x)
    case Bin(_, l, r) => TestsM(env, l) || TestsM(env, r)
    case _ => false
  }

  /** Tests, and conditions without any, joined by &&. */
  predicate TestsJoined(e: Expr) {
    match e
    case Bin(AndOp, l, r) => TestsJoined(l) && TestsJoined(r)
    case Comp(_, _, _) => true
    case _ => !TestsNonZero(e)
  }

  /** Without a tested tristate at m the value is kept, and on an && level such a
      test is all that it takes to lose the y. */
  lemma {:induction false} TransBoolAtTests(env: Env, e: Expr)
    requires WellTyped(env) && IsNormal(e)
    ensures RestsOnTests(env, e) ==> TestsM(env, e)
    ensures TestsM(env, e) ==> TestsNonZero(e)
    ensures TestsJoined(e) ==> (RestsOnTests(env, e) <==> Eval(env, e) == YES && TestsM(env, e))
  {
    match e
    case Bin(_, l, r) =>
      TransBoolAtTests(env, l);
      TransBoolAtTests(env, r);
    case Not(x) => TransBoolAtTests(env, x);
    case Comp(Unequal, l, SymNo) =>
      if TypeOf(l) == Tri {
        ComparesWithConst(env, l, Unequal, SymNo);
      }
    case _ =>
  }

  /** The shape alone does not decide it: "C != n || C = m" loses its test, but
      never its value. */
  lemma TestedAndKept(id: nat)
    ensures var s := Config(id, Tri);
            var e := Bin(OrOp, Comp(Unequal, s, SymNo), Comp(Equal, s, SymMod));
            IsNormal(e) && TransBool(e) != e && Equivalent(TransBool(e), e)
  {
    var s := Config(id, Tri);
    var e := Bin(OrOp, Comp(Unequal, s, SymNo), Comp(Equal, s, SymMod));
    forall env: Env | WellTyped(env)
      ensures Eval(env, TransBool(e)) == Eval(env, e)
    {
      ComparesWithConst(env, s, Equal, SymMod);
      TransBoolExactly(env, e);
    }
  }

  /** The highest of several prompts' conditions. */
  function AnyOf(env: Env, prompts: seq<Expr>): Tristate {
    if prompts == [] then NO else TriOr(AnyOf(env, prompts[..|prompts| - 1]), Eval(env, prompts[|prompts| - 1]))
  }

  function TransBoolAll(prompts: seq<Expr>): (r: seq<Expr>)
    ensures |r| == |prompts|
  {
    seq(|prompts|, i requires 0 <= i < |prompts| => TransBool(prompts[i]))
  }

  /** The visibility of a symbol that is not a tristate does not notice
      expr_trans_bool, however many prompts it has. */
  lemma {:induction false} VisibilityUnchanged(env: Env, prompts: seq<Expr>)
    requires WellTyped(env) && forall i | 0 <= i < |prompts| :: IsNormal(prompts[i])
    ensures Promote(AnyOf(env, TransBoolAll(prompts))) == Promote(AnyOf(env, prompts))
  {
    if prompts != [] {
      var init, last := prompts[..|prompts| - 1], prompts[|prompts| - 1];
      assert TransBoolAll(prompts)[..|prompts| - 1] == TransBoolAll(init);
      VisibilityUnchanged(env, init);
      TransBoolKeepsNonZero(env, last);
      PromoteDistributes(OrOp, AnyOf(env, init), Eval(env, last));
      PromoteDistributes(OrOp, AnyOf(env, TransBoolAll(init)), Eval(env, TransBool(last)));
    }
  }
}
