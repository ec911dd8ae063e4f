// Removal of constant operands (expr_eliminate_yn in scripts/config/expr.c).

module ExprConstants {
  import opened Exprs

  /** One && or || whose operands are already simplified. */
  function Absorb(op: BoolOp, l: Expr, r: Expr): (e: Expr)
    ensures Size(e) <= 1 + Size(l) + Size(r)
  {
    if l == Zero(op) then Zero(op)
    else if l == Unit(op) then r
    else if r == Zero(op) then Zero(op)
    else if r == Unit(op) then l
    else Bin(op, l, r)
  }

  /** Operands of && and || are simplified first; nothing below a ! is. */
  function EliminateYn(e: Expr): (r: Expr)
    ensures Size(r) <= Size(e)
  {
    match e
    case Bin(op, l, r) => Absorb(op, EliminateYn(l), EliminateYn(r))
    case _ => e
  }

  predicate IsYn(e: Expr) {
    e == Sym(SymYes) || e == Sym(SymNo)
  }

  /** Some operand, at any depth of && and ||, is the constant y or n. */
  predicate HasYn(e: Expr) {
    e.Bin? && (IsYn(e.left) || IsYn(e.right) || HasYn(e.left) || HasYn(e.right))
  }

  lemma AbsorbKeepsValue(env: Env, op: BoolOp, l: Expr, r: Expr)
    requires WellTyped(env)
    ensures Eval(env, Absorb(op, l, r)) == Apply(op, Eval(env, l), Eval(env, r))
  {
    UnitValue(env, op);
  }

  lemma {:induction false} EliminateYnKeepsValue(env: Env, e: Expr)
    requires WellTyped(env)
    ensures Eval(env, EliminateYn(e)) == Eval(env, e)
  {
    match e
    case Bin(op, l, r) =>
      EliminateYnKeepsValue(env, l);
      EliminateYnKeepsValue(env, r);
      AbsorbKeepsValue(env, op, EliminateYn(l), EliminateYn(r));
    case _ =>
  }

  lemma {:induction false} EliminateYnRemovesAll(e: Expr)
    ensures !HasYn(EliminateYn(e))
  {
    if e.Bin? {
      EliminateYnRemovesAll(e.left);
      EliminateYnRemovesAll(e.right);
    }
  }

  /** The expression is left alone exactly when it has no constant operand;
      otherwise it shrinks. */
  lemma {:induction false} EliminateYnShrinks(e: Expr)
    ensures if HasYn(e) then Size(EliminateYn(e)) < Size(e) else EliminateYn(e) == e
  {
    if e.Bin? {
      EliminateYnShrinks(e.left);
      EliminateYnShrinks(e.right);
      AbsorbShrinks(e.op, EliminateYn(e.left), EliminateYn(e.right));
    }
  }

  lemma AbsorbShrinks(op: BoolOp, l: Expr, r: Expr)
    ensures if IsYn(l) || IsYn(r) then Size(Absorb(op, l, r)) < 1 + Size(l) + Size(r)
            else Absorb(op, l, r) == Bin(op, l, r)
  {
  }
}
