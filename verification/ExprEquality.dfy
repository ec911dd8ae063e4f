// Structural equality and removal of common operands (expr_eq,
// __expr_eliminate_eq and expr_eliminate_eq in scripts/config/expr.c).

module ExprEquality {
  import opened TristateLogic
  import opened Exprs
  import opened ExprConstants

  // The three C functions call each other.  The rank breaks ties between
  // calls whose operands have the same combined size.

  function ExprEq(a: Expr, b: Expr): bool
    decreases Size(a) + Size(b), 4
  {
    match (a, b)
    case (Not(x), Not(y)) => ExprEq(x, y)
    case (Bin(op, _, _), Bin(op', _, _)) =>
      op == op' &&
      var (x, y) := EliminateEq(a, b);
      x.Sym? && x == y
    case _ => a == b
  }

  /** Compares every operand of a with every operand of b at the level of op,
      and replaces two equal ones by the unit of op. */
  function EliminateEq1(op: BoolOp, a: Expr, b: Expr): (r: (Expr, Expr))
    ensures Size(r.0) <= Size(a) && Size(r.1) <= Size(b)
    decreases Size(a) + Size(b), if IsLevel(op, a) || IsLevel(op, b) then 2 else 6
  {
    if IsLevel(op, a) then
      var (l, b1) := EliminateEq1(op, a.left, b);
      var (r, b2) := EliminateEq1(op, a.right, b1);
      (Bin(op, l, r), b2)
    else EliminateOperand(op, a, b)
  }

  /** The part of the walk in which a is a single operand. */
  function EliminateOperand(op: BoolOp, a: Expr, b: Expr): (r: (Expr, Expr))
    ensures Size(r.0) <= Size(a) && Size(r.1) <= Size(b)
    decreases Size(a) + Size(b), if IsLevel(op, b) then 1 else 5
  {
    if IsLevel(op, b) then
      var (a1, l) := EliminateOperand(op, a, b.left);
      var (a2, r) := EliminateOperand(op, a1, b.right);
      (a2, Bin(op, l, r))
    else if a == b && IsYn(a) then (a, b)
    else if !ExprEq(a, b) then (a, b)
    else (Unit(op), Unit(op))
  }

  function EliminateEq(a: Expr, b: Expr): (r: (Expr, Expr))
    ensures Size(r.0) <= Size(a) && Size(r.1) <= Size(b)
    decreases Size(a) + Size(b), 3
  {
    var (x, y) := if a.Bin? then EliminateEq1(a.op, a, b) else (a, b);
    var (x', y') := if y.Bin? && !IsLevel(y.op, x) then EliminateEq1(y.op, x, y) else (x, y);
    (EliminateYn(x'), EliminateYn(y'))
  }

  // ----- soundness: what is removed is common to both sides -----

  /** The operands that EliminateEq1 takes away from both sides. */
  ghost function Common1(op: BoolOp, a: Expr, b: Expr): Expr {
    if IsLevel(op, a) then
      Bin(op, Common1(op, a.left, b), Common1(op, a.right, EliminateEq1(op, a.left, b).1))
    else CommonOperand(op, a, b)
  }

  ghost function CommonOperand(op: BoolOp, a: Expr, b: Expr): Expr
    decreases b
  {
    if IsLevel(op, b) then
      Bin(op, CommonOperand(op, a, b.left), CommonOperand(op, EliminateOperand(op, a, b.left).0, b.right))
    else if (a == b && IsYn(a)) || !ExprEq(a, b) then Unit(op)
    else a
  }

  /** The operator and the common part that EliminateEq factors out. */
  ghost function Common(a: Expr, b: Expr): (BoolOp, Expr) {
    var (x, y) := if a.Bin? then EliminateEq1(a.op, a, b) else (a, b);
    if y.Bin? && !IsLevel(y.op, x) then (y.op, Common1(y.op, x, y))
    else if a.Bin? then (a.op, Common1(a.op, a, b))
    else (AndOp, Unit(AndOp))
  }

  lemma Regroup(op: BoolOp, c: Tristate, l: Tristate, d: Tristate, r: Tristate, x: Tristate)
    ensures Apply(op, Apply(op, c, l), Apply(op, d, r)) == Apply(op, Apply(op, c, d), Apply(op, l, r))
    ensures Apply(op, c, Apply(op, d, x)) == Apply(op, Apply(op, c, d), x)
  {
  }

  /** c is the part common to a and b that x and y lack. */
  ghost predicate Factored(env: Env, op: BoolOp, a: Expr, b: Expr, c: Expr, x: Expr, y: Expr) {
    && Eval(env, a) == Apply(op, Eval(env, c), Eval(env, x))
    && Eval(env, b) == Apply(op, Eval(env, c), Eval(env, y))
  }

  lemma FactoredTwice(env: Env, op: BoolOp, a: Expr, b: Expr, c: Expr, x: Expr, y: Expr, a': Expr, c': Expr,
          x': Expr, y': Expr)
    requires Factored(env, op, a, b, c, x, y) && Factored(env, op, a', y, c', x', y')
    ensures Factored(env, op, Bin(op, a, a'), b, Bin(op, c, c'), Bin(op, x, x'), y')
  {
    Regroup(op, Eval(env, c), Eval(env, x), Eval(env, c'), Eval(env, x'), Eval(env, y'));
  }

  lemma {:induction false} EliminateEq1Factors(env: Env, op: BoolOp, a: Expr, b: Expr)
    requires WellTyped(env)
    ensures var (x, y) := EliminateEq1(op, a, b); Factored(env, op, a, b, Common1(op, a, b), x, y)
    decreases Size(a) + Size(b), if IsLevel(op, a) || IsLevel(op, b) then 2 else 6
  {
    if IsLevel(op, a) {
      var (l, b1) := EliminateEq1(op, a.left, b);
      var (r, b2) := EliminateEq1(op, a.right, b1);
      EliminateEq1Factors(env, op, a.left, b);
      EliminateEq1Factors(env, op, a.right, b1);
      FactoredTwice(env, op, a.left, b, Common1(op, a.left, b), l, b1, a.right, Common1(op, a.right, b1), r, b2);
    } else {
      EliminateOperandFactors(env, op, a, b);
    }
  }

  lemma {:induction false} EliminateOperandFactors(env: Env, op: BoolOp, a: Expr, b: Expr)
    requires WellTyped(env)
    ensures var (x, y) := EliminateOperand(op, a, b); Factored(env, op, a, b, CommonOperand(op, a, b), x, y)
    decreases Size(a) + Size(b), if IsLevel(op, b) then 1 else 5
  {
    if IsLevel(op, b) {
      var (a1, l) := EliminateOperand(op, a, b.left);
      var (a2, r) := EliminateOperand(op, a1, b.right);
      EliminateOperandFactors(env, op, a, b.left);
      EliminateOperandFactors(env, op, a1, b.right);
      FactoredTwice(env, op, b.left, a, CommonOperand(op, a, b.left),
          l, a1, b.right, CommonOperand(op, a1, b.right), r, a2);
    } else {
      UnitValue(env, op);
      if ExprEq(a, b) {
        ExprEqSound(env, a, b);
      }
    }
  }

  /** When b is one operand, either nothing matched or b became the unit. */
  lemma {:induction false} SingleOperand(op: BoolOp, a: Expr, b: Expr)
    requires !IsLevel(op, b)
    ensures EliminateEq1(op, a, b) == (a, b) || EliminateEq1(op, a, b).1 == Unit(op)
    decreases Size(a)
  {
    if IsLevel(op, a) {
      var (l, b1) := EliminateEq1(op, a.left, b);
      SingleOperand(op, a.left, b);
      SingleOperand(op, a.right, b1);
    }
  }

  /** One operator and one common part account for the whole rewriting, even
      when the two sides start as levels of different operators. */
  lemma {:induction false} EliminateEqFactors(env: Env, a: Expr, b: Expr)
    requires WellTyped(env)
    ensures var (x, y) := EliminateEq(a, b);
            var (op, c) := Common(a, b);
            Factored(env, op, a, b, c, x, y)
    decreases Size(a) + Size(b), 3
  {
    var (x, y) := if a.Bin? then EliminateEq1(a.op, a, b) else (a, b);
    if a.Bin? {
      EliminateEq1Factors(env, a.op, a, b);
    }
    var (x', y') := if y.Bin? && !IsLevel(y.op, x) then EliminateEq1(y.op, x, y) else (x, y);
    EliminateYnKeepsValue(env, x');
    EliminateYnKeepsValue(env, y');
    UnitValue(env, AndOp);
    if y.Bin? && !IsLevel(y.op, x) {
      if a.Bin? {
        KeepsLevels(a.op, a, b);
        SingleOperand(a.op, a, b);
      }
      EliminateEq1Factors(env, y.op, a, b);
    }
  }

  lemma {:induction false} ExprEqSound(env: Env, a: Expr, b: Expr)
    requires WellTyped(env) && ExprEq(a, b)
    ensures Eval(env, a) == Eval(env, b)
    decreases Size(a) + Size(b), 4
  {
    match (a, b)
    case (Not(x), Not(y)) => ExprEqSound(env, x, y);
    case (Bin(_, _, _), Bin(_, _, _)) => EliminateEqFactors(env, a, b);
    case _ =>
  }

  lemma {:induction false} KeepsLevels(op: BoolOp, a: Expr, b: Expr)
    ensures var (x, y) := EliminateEq1(op, a, b);
            (IsLevel(op, a) <==> IsLevel(op, x)) && (IsLevel(op, b) <==> IsLevel(op, y))
  {
    if IsLevel(op, a) {
      KeepsLevels(op, a.left, b);
      KeepsLevels(op, a.right, EliminateEq1(op, a.left, b).1);
    } else {
      OperandKeepsLevels(op, a, b);
    }
  }

  lemma {:induction false} OperandKeepsLevels(op: BoolOp, a: Expr, b: Expr)
    requires !IsLevel(op, a)
    ensures var (x, y) := EliminateOperand(op, a, b); !IsLevel(op, x) && (IsLevel(op, b) <==> IsLevel(op, y))
    decreases b
  {
    if IsLevel(op, b) {
      OperandKeepsLevels(op, a, b.left);
      OperandKeepsLevels(op, EliminateOperand(op, a, b.left).0, b.right);
    }
  }

  // ----- exactness: equality is identity up to reordering and regrouping -----

  /** An expression with the order and grouping of operands forgotten. */
  datatype Canon = Atom(e: Expr) | Negated(c: Canon) | Level(op: BoolOp, parts: multiset<Canon>)

  ghost function Canonical(e: Expr): Canon
    decreases Size(e), 1
  {
    match e
    case Not(x) => Negated(Canonical(x))
    case Bin(op, l, r) => Level(op, Operands(op, l) + Operands(op, r))
    case _ => Atom(e)
  }

  ghost function Operands(op: BoolOp, e: Expr): multiset<Canon>
    decreases Size(e), 2
  {
    if IsLevel(op, e) then Operands(op, e.left) + Operands(op, e.right)
    else multiset{Canonical(e)}
  }

  /** Operands other than the unit, which marks a removed one. */
  ghost function Live(op: BoolOp, e: Expr): multiset<Canon> {
    if IsLevel(op, e) then Live(op, e.left) + Live(op, e.right)
    else if e == Unit(op) then multiset{}
    else multiset{Canonical(e)}
  }

  /** No operand of any && or || is the constant y or n. */
  predicate YnFree(e: Expr) {
    match e
    case Not(x) => YnFree(x)
    case Bin(_, l, r) => !IsYn(l) && !IsYn(r) && YnFree(l) && YnFree(r)
    case _ => true
  }

  lemma {:induction false} YnFreeHasNone(e: Expr)
    requires YnFree(e)
    ensures !HasYn(e)
  {
    if e.Bin? {
      YnFreeHasNone(e.left);
      YnFreeHasNone(e.right);
    }
  }

  predicate Clean(op: BoolOp, e: Expr) {
    if IsLevel(op, e) then Clean(op, e.left) && Clean(op, e.right)
    else e == Unit(op) || (!IsYn(e) && YnFree(e))
  }

  lemma {:induction false} CleanWithoutYn(op: BoolOp, e: Expr)
    requires YnFree(e) && !IsYn(e)
    ensures Clean(op, e) && Live(op, e) == Operands(op, e)
  {
    if IsLevel(op, e) {
      CleanWithoutYn(op, e.left);
      CleanWithoutYn(op, e.right);
    }
  }

  /** Removing the units leaves the live operands, or the unit if none is left. */
  ghost predicate Reduced(op: BoolOp, r: Expr, live: multiset<Canon>) {
    if live == multiset{} then r == Unit(op)
    else !IsYn(r) && Operands(op, r) == live
  }

  lemma AbsorbReduced(op: BoolOp, l: Expr, r: Expr, p: multiset<Canon>, q: multiset<Canon>)
    requires Reduced(op, l, p) && Reduced(op, r, q)
    ensures Reduced(op, Absorb(op, l, r), p + q)
  {
    var e := Absorb(op, l, r);
    if p == multiset{} {
      assert p + q == q && e == r;
    } else if q == multiset{} {
      assert p + q == p && e == l;
    } else {
      assert e == Bin(op, l, r);
      assert p <= p + q;
    }
  }

  lemma {:induction false} YnOfClean(op: BoolOp, e: Expr)
    requires Clean(op, e)
    ensures Reduced(op, EliminateYn(e), Live(op, e))
  {
    if IsLevel(op, e) {
      YnOfClean(op, e.left);
      YnOfClean(op, e.right);
      AbsorbReduced(op, EliminateYn(e.left), EliminateYn(e.right), Live(op, e.left), Live(op, e.right));
    } else if e != Unit(op) {
      YnFreeHasNone(e);
      EliminateYnShrinks(e);
    }
  }

  /** Each side keeps exactly the operands that the other side lacks, counted
      with multiplicity. */
  ghost predicate Difference(op: BoolOp, a: Expr, b: Expr, x: Expr, y: Expr) {
    && Clean(op, x) && Live(op, x) == Live(op, a) - Live(op, b)
    && Clean(op, y) && Live(op, y) == Live(op, b) - Live(op, a)
  }

  lemma DifferenceTwice(op: BoolOp, a: Expr, b: Expr, x: Expr, y: Expr, a': Expr, x': Expr, y': Expr)
    requires Difference(op, a, b, x, y) && Difference(op, a', y, x', y')
    ensures Difference(op, Bin(op, a, a'), b, Bin(op, x, x'), y')
  {
    MinusTwice(Live(op, a), Live(op, a'), Live(op, b), Live(op, x), Live(op, y), Live(op, x'), Live(op, y'));
  }

  lemma MinusTwice<T>(l: multiset<T>, r: multiset<T>, b: multiset<T>,
                      l': multiset<T>, b1: multiset<T>, r': multiset<T>, b2: multiset<T>)
    requires l' == l - b && b1 == b - l && r' == r - b1 && b2 == b1 - r
    ensures l' + r' == (l + r) - b && b2 == b - (l + r)
  {
  }

  lemma {:induction false} EliminateEq1Difference(op: BoolOp, a: Expr, b: Expr)
    requires Clean(op, a) && Clean(op, b)
    ensures var (x, y) := EliminateEq1(op, a, b); Difference(op, a, b, x, y)
    decreases Size(a) + Size(b), if IsLevel(op, a) || IsLevel(op, b) then 2 else 6
  {
    if IsLevel(op, a) {
      var (l, b1) := EliminateEq1(op, a.left, b);
      var (r, b2) := EliminateEq1(op, a.right, b1);
      EliminateEq1Difference(op, a.left, b);
      EliminateEq1Difference(op, a.right, b1);
      DifferenceTwice(op, a.left, b, l, b1, a.right, r, b2);
    } else {
      EliminateOperandDifference(op, a, b);
    }
  }

  lemma {:induction false} EliminateOperandDifference(op: BoolOp, a: Expr, b: Expr)
    requires Clean(op, a) && Clean(op, b) && !IsLevel(op, a)
    ensures var (x, y) := EliminateOperand(op, a, b); Difference(op, a, b, x, y)
    decreases Size(a) + Size(b), if IsLevel(op, b) then 1 else 5, 1
  {
    if IsLevel(op, b) {
      var (a1, l) := EliminateOperand(op, a, b.left);
      var (a2, r) := EliminateOperand(op, a1, b.right);
      OperandKeepsLevels(op, a, b.left);
      EliminateOperandDifference(op, a, b.left);
      EliminateOperandDifference(op, a1, b.right);
      DifferenceTwice(op, b.left, a, l, a1, b.right, r, a2);
    } else {
      TwoOperandsDifference(op, a, b);
    }
  }

  lemma {:induction false} TwoOperandsDifference(op: BoolOp, a: Expr, b: Expr)
    requires Clean(op, a) && Clean(op, b) && !IsLevel(op, a) && !IsLevel(op, b)
    ensures var (x, y) := EliminateOperand(op, a, b); Difference(op, a, b, x, y)
    decreases Size(a) + Size(b), 5, 0
  {
    if a == Unit(op) || b == Unit(op) {
      assert ExprEq(a, b) == (a == b);
    } else {
      ExprEqExact(a, b);
      OneMinusOne(Canonical(a), Canonical(b));
    }
  }

  lemma OneMinusOne<T>(a: T, b: T)
    ensures multiset{a} - multiset{b} == if a == b then multiset{} else multiset{a}
    ensures multiset{b} - multiset{a} == if a == b then multiset{} else multiset{b}
  {
  }

  lemma SameRest(op: BoolOp, x: Expr, y: Expr, p: multiset<Canon>, q: multiset<Canon>)
    requires Reduced(op, x, p - q) && Reduced(op, y, q - p)
    ensures (x.Sym? && x == y) <==> p == q
  {
    var c := Canonical(x);
    if x.Sym? && x == y {
      assert x != Unit(op) ==> Operands(op, x) == multiset{c};
      assert (p - q)[c] == 0 || (q - p)[c] == 0;
      assert x == Unit(op);
      forall d: Canon
        ensures p[d] == q[d]
      {
        assert (p - q)[d] == 0 && (q - p)[d] == 0;
      }
    }
  }

  /** For expressions without y/n operands, expr_eq holds exactly when the two
      are the same up to reordering and regrouping of && and || operands, with
      repeated operands counted. */
  lemma {:induction false} ExprEqExact(a: Expr, b: Expr)
    requires YnFree(a) && YnFree(b)
    ensures ExprEq(a, b) <==> Canonical(a) == Canonical(b)
    decreases Size(a) + Size(b), 4
  {
    match (a, b)
    case (Not(x), Not(y)) =>
      ExprEqExact(x, y);
    case (Bin(op, _, _), Bin(op', _, _)) =>
      if op == op' {
        EliminateEqDifference(op, a, b);
        var (x, y) := EliminateEq(a, b);
        SameRest(op, x, y, Operands(op, a), Operands(op, b));
      }
    case _ =>
  }

  lemma {:induction false} EliminateEqDifference(op: BoolOp, a: Expr, b: Expr)
    requires IsLevel(op, a) && IsLevel(op, b) && YnFree(a) && YnFree(b)
    ensures var (x, y) := EliminateEq(a, b);
            var (p, q) := (Operands(op, a) - Operands(op, b), Operands(op, b) - Operands(op, a));
            Reduced(op, x, p) && Reduced(op, y, q)
    decreases Size(a) + Size(b), 3
  {
    CleanWithoutYn(op, a);
    CleanWithoutYn(op, b);
    EliminateEq1Difference(op, a, b);
    KeepsLevels(op, a, b);
    var (x, y) := EliminateEq1(op, a, b);
    YnOfClean(op, x);
    YnOfClean(op, y);
  }

  /** Operands are matched one to one: that each operand of one side equals some
      operand of the other is not enough. */
  lemma RepeatedOperandsDiffer(op: BoolOp, a: Expr, b: Expr)
    requires a.Sym? && b.Sym? && a != b && !IsYn(a) && !IsYn(b)
    ensures !ExprEq(Bin(op, a, Bin(op, a, b)), Bin(op, a, Bin(op, b, b)))
  {
    var x, y := Bin(op, a, Bin(op, a, b)), Bin(op, a, Bin(op, b, b));
    ExprEqExact(x, y);
    assert Operands(op, a) == multiset{Atom(a)} && Operands(op, b) == multiset{Atom(b)};
    assert Operands(op, x.right) == Operands(op, a) + Operands(op, b);
    assert Operands(op, y.right) == Operands(op, b) + Operands(op, b);
    assert Canonical(x).parts[Atom(a)] == 2 && Canonical(y).parts[Atom(a)] == 1;
  }
}
