// Joining two operands of the same && or || (expr_join_or and expr_join_and
// in scripts/config/expr.c).

module ExprJoin {
  import opened Wrappers
  import opened TristateLogic
  import opened Exprs
  import opened ExprEquality

  predicate IsEqual(e: Expr) { e.Comp? && e.rel == Equal }

  predicate IsUnequal(e: Expr) { e.Comp? && e.rel == Unequal }

  /** The symbol that a symbol, an equality or the negation of one is about. */
  function Subject(e: Expr): Option<Symbol> {
    match e
    case Sym(s) => Some(s)
    case Comp(rel, l, _) => if rel == Equal || rel == Unequal then Some(l) else None
    case Not(Sym(s)) => Some(s)
    case Not(Comp(rel, l, _)) => if rel == Equal || rel == Unequal then Some(l) else None
    case _ => None
  }

  /** The second operand may be negated only if it is a symbol. */
  function Subject2(e: Expr): Option<Symbol> {
    if e.Not? && !e.e.Sym? then None else Subject(e)
  }

  predicate SameSubject(a: Expr, b: Expr) {
    Subject(a).Some? && Subject(a) == Subject2(b) && IsLogical(Subject(a).value)
  }

  /** The right-hand sides of a and b are x and y in either order. */
  predicate Against(a: Expr, b: Expr, x: Symbol, y: Symbol)
    requires a.Comp? && b.Comp?
  {
    (a.r == x && b.r == y) || (a.r == y && b.r == x)
  }

  function JoinOr(a: Expr, b: Expr): Option<Expr> {
    if ExprEq(a, b) then Some(a)
    else if !SameSubject(a, b) then None
    else
      var s := Subject(a).value;
      if TypeOf(s) == Tri && IsEqual(a) && IsEqual(b) && Against(a, b, SymYes, SymMod) then
        Some(Comp(Unequal, s, SymNo))
      else if TypeOf(s) == Tri && IsEqual(a) && IsEqual(b) && Against(a, b, SymYes, SymNo) then
        Some(Comp(Unequal, s, SymMod))
      else if TypeOf(s) == Tri && IsEqual(a) && IsEqual(b) && Against(a, b, SymMod, SymNo) then
        Some(Comp(Unequal, s, SymYes))
      else if TypeOf(s) == Boolean && ((a.Not? && a.e.Sym? && b.Sym?) || (b.Not? && b.e.Sym? && a.Sym?)) then
        Some(Sym(SymYes))
      else None
  }

  /** One operand is the bare symbol, the other compares it with c. */
  predicate WithBare(a: Expr, b: Expr, rel: Relation, c: Symbol) {
    || (a.Sym? && b.Comp? && b.rel == rel && b.r == c)
    || (b.Sym? && a.Comp? && a.rel == rel && a.r == c)
  }

  function JoinAnd(a: Expr, b: Expr): Option<Expr> {
    if ExprEq(a, b) then Some(a)
    else if !SameSubject(a, b) then None
    else
      var s := Subject(a).value;
      if WithBare(a, b, Equal, SymYes) then Some(Comp(Equal, s, SymYes))
      else if WithBare(a, b, Unequal, SymNo) then Some(Sym(s))
      else if WithBare(a, b, Unequal, SymMod) then Some(Comp(Equal, s, SymYes))
      else if TypeOf(s) != Tri then None
      else if IsEqual(a) && IsUnequal(b) && IsConst(b.r) && IsConst(a.r) then
        Some(if a.r != b.r then Comp(Equal, s, a.r) else Sym(SymNo))
      else if IsUnequal(a) && IsEqual(b) && IsConst(a.r) && IsConst(b.r) then
        Some(if b.r != a.r then Comp(Equal, s, b.r) else Sym(SymNo))
      else if IsUnequal(a) && IsUnequal(b) && Against(a, b, SymYes, SymNo) then Some(Comp(Equal, s, SymMod))
      else if IsUnequal(a) && IsUnequal(b) && Against(a, b, SymYes, SymMod) then Some(Comp(Equal, s, SymNo))
      else if IsUnequal(a) && IsUnequal(b) && Against(a, b, SymMod, SymNo) then Some(Comp(Equal, s, SymYes))
      else None
  }

  function Join(op: BoolOp, a: Expr, b: Expr): Option<Expr> {
    match op
    case AndOp => JoinAnd(a, b)
    case OrOp => JoinOr(a, b)
  }

  // ----- what joining preserves, and exactly when -----

  /** a='b' && a!='c' where the two constants differ as symbols although some
      value of a equals both of them. */
  predicate Clash(a: Expr, b: Expr) {
    && ((IsEqual(a) && IsUnequal(b)) || (IsUnequal(a) && IsEqual(b)))
    && a.l == b.l && TypeOf(a.l) == Tri && IsConst(a.r) && IsConst(b.r) && a.r != b.r
    && TriOf(a.r).Some? && TriOf(a.r) == TriOf(b.r)
  }

  lemma ComparesWithConst(env: Env, s: Symbol, rel: Relation, c: Symbol)
    requires WellTyped(env) && IsLogical(s) && IsConst(c) && (rel == Equal || rel == Unequal)
    ensures Eval(env, Comp(rel, s, c)) == OfBool((rel == Equal) == (TriOf(c) == Some(env(s).tri)))
    ensures TypeOf(s) == Boolean ==> env(s).tri != MOD
  {
    LogicalEqualsConst(env, s, c);
    assert ValueOk(s, env(s));
  }

  lemma YesValue(env: Env)
    requires WellTyped(env)
    ensures env(SymYes).tri == YES && env(SymNo).tri == NO && env(SymMod).tri == MOD
  {
    assert ValueOk(SymYes, env(SymYes)) && ValueOk(SymNo, env(SymNo)) && ValueOk(SymMod, env(SymMod));
  }

  lemma JoinEqualities(env: Env, a: Expr, b: Expr)
    requires WellTyped(env) && JoinOr(a, b).Some? && !ExprEq(a, b) && a.Comp? && b.Comp?
    ensures Eval(env, JoinOr(a, b).value) == TriOr(Eval(env, a), Eval(env, b))
  {
    ComparesWithConst(env, a.l, Equal, a.r);
    ComparesWithConst(env, a.l, Equal, b.r);
    ComparesWithConst(env, a.l, Unequal, JoinOr(a, b).value.r);
  }

  lemma JoinOrKeepsValue(env: Env, a: Expr, b: Expr)
    requires WellTyped(env) && JoinOr(a, b).Some?
    ensures Eval(env, JoinOr(a, b).value) == TriOr(Eval(env, a), Eval(env, b))
  {
    if ExprEq(a, b) {
      ExprEqSound(env, a, b);
    } else if a.Comp? && b.Comp? {
      JoinEqualities(env, a, b);
    } else {
      YesValue(env);
      assert ValueOk(Subject(a).value, env(Subject(a).value));
    }
  }

  lemma JoinWithBare(env: Env, a: Expr, b: Expr, rel: Relation, c: Symbol)
    requires WellTyped(env) && SameSubject(a, b) && WithBare(a, b, rel, c)
            && IsTriConst(c) && (rel == Equal || rel == Unequal)
    ensures var v := env(Subject(a).value).tri;
            TriAnd(Eval(env, a), Eval(env, b)) == if (rel == Equal) == (TriOf(c) == Some(v)) then v else NO
    ensures TypeOf(Subject(a).value) == Boolean ==> env(Subject(a).value).tri != MOD
  {
    ComparesWithConst(env, Subject(a).value, rel, c);
  }

  /** Joining under && keeps the value unless the two constants clash. */
  lemma JoinAndKeepsValue(env: Env, a: Expr, b: Expr)
    requires WellTyped(env) && JoinAnd(a, b).Some? && !Clash(a, b)
    ensures Eval(env, JoinAnd(a, b).value) == TriAnd(Eval(env, a), Eval(env, b))
  {
    if ExprEq(a, b) {
      ExprEqSound(env, a, b);
    } else {
      var s := Subject(a).value;
      YesValue(env);
      ComparesWithConst(env, s, Equal, SymYes);
      if WithBare(a, b, Equal, SymYes) {
        JoinWithBare(env, a, b, Equal, SymYes);
      } else if WithBare(a, b, Unequal, SymNo) {
        JoinWithBare(env, a, b, Unequal, SymNo);
      } else if WithBare(a, b, Unequal, SymMod) {
        JoinWithBare(env, a, b, Unequal, SymMod);
      } else {
        JoinComparisons(env, a, b);
      }
    }
  }

  lemma JoinComparisons(env: Env, a: Expr, b: Expr)
    requires WellTyped(env) && JoinAnd(a, b).Some? && !Clash(a, b) && !ExprEq(a, b) && a.Comp? && b.Comp?
    ensures Eval(env, JoinAnd(a, b).value) == TriAnd(Eval(env, a), Eval(env, b))
  {
    YesValue(env);
    ComparesWithConst(env, a.l, a.rel, a.r);
    ComparesWithConst(env, a.l, b.rel, b.r);
    var t := JoinAnd(a, b).value;
    if t.Comp? {
      ComparesWithConst(env, a.l, t.rel, t.r);
    }
  }

  /** An assignment that gives one tristate symbol a chosen value. */
  function EnvWith(s: Symbol, v: Tristate): Env {
    (x: Symbol) =>
      if IsConst(x) then ConstValue(x) else if x == s then Value(v, TriName(v)) else Value(NO, "n")
  }

  lemma EnvWithIsWellTyped(s: Symbol, v: Tristate)
    requires TypeOf(s) == Tri
    ensures WellTyped(EnvWith(s, v)) && EnvWith(s, v)(s).tri == v
  {
    var env := EnvWith(s, v);
    forall x
      ensures ValueOk(x, env(x))
    {
    }
  }

  /** Exactly when the && rules are right: the joined expression means the same
      as the conjunction if and only if the two constants do not clash. */
  lemma JoinAndExact(a: Expr, b: Expr)
    requires JoinAnd(a, b).Some?
    ensures Equivalent(JoinAnd(a, b).value, Bin(AndOp, a, b)) <==> !Clash(a, b)
  {
    if Clash(a, b) {
      var v := TriOf(a.r).value;
      var env := EnvWith(a.l, v);
      EnvWithIsWellTyped(a.l, v);
      ComparesWithConst(env, a.l, a.rel, a.r);
      ComparesWithConst(env, a.l, b.rel, b.r);
      ComparesWithConst(env, a.l, Equal, if a.rel == Equal then a.r else b.r);
      assert !ExprEq(a, b);
      assert Eval(env, Bin(AndOp, a, b)) == NO && Eval(env, JoinAnd(a, b).value) == YES;
    } else {
      forall env: Env | WellTyped(env)
        ensures Eval(env, JoinAnd(a, b).value) == Eval(env, Bin(AndOp, a, b))
      {
        JoinAndKeepsValue(env, a, b);
      }
    }
  }

  /** Comparisons of a tristate symbol with y, m and n always join: two of the
      three values exclude or leave the third. */
  lemma ComparisonsJoin(s: Symbol, x: Symbol, y: Symbol, z: Symbol)
    requires TypeOf(s) == Tri && IsTriConst(x) && IsTriConst(y) && IsTriConst(z) && x != y && y != z && x != z
    ensures JoinOr(Comp(Equal, s, x), Comp(Equal, s, y)) == Some(Comp(Unequal, s, z))
    ensures JoinAnd(Comp(Unequal, s, x), Comp(Unequal, s, y)) == Some(Comp(Equal, s, z))
    ensures JoinAnd(Comp(Equal, s, x), Comp(Unequal, s, y))
            == JoinAnd(Comp(Unequal, s, y), Comp(Equal, s, x)) == Some(Comp(Equal, s, x))
    ensures JoinAnd(Comp(Equal, s, x), Comp(Unequal, s, x)) == Some(Sym(SymNo))
  {
    assert !ExprEq(Comp(Equal, s, x), Comp(Equal, s, y)) && !ExprEq(Comp(Unequal, s, x), Comp(Unequal, s, y));
    assert !ExprEq(Comp(Equal, s, x), Comp(Unequal, s, x)) && !ExprEq(Comp(Equal, s, x), Comp(Unequal, s, y));
  }

  /** Two tests of one tristate for different ones of y, m and n. */
  predicate TwoTests(a: Expr, b: Expr, rel: Relation) {
    && a.Comp? && b.Comp? && a.rel == rel && b.rel == rel && a.l == b.l && TypeOf(a.l) == Tri
    && IsTriConst(a.r) && IsTriConst(b.r) && a.r != b.r
  }

  /** A test for a constant and one against a constant, of one tristate. */
  predicate TestAndTest(a: Expr, b: Expr) {
    && a.Comp? && b.Comp? && a.rel == Equal && b.rel == Unequal
    && a.l == b.l && TypeOf(a.l) == Tri && IsConst(a.r) && IsConst(b.r)
  }

  /** A bool or tristate symbol, and a test of it that its value y passes and that
      n, or m, does not. */
  predicate BareAndTest(a: Expr, b: Expr) {
    a.Sym? && IsLogical(a.s)
    && (b == Comp(Equal, a.s, SymYes) || b == Comp(Unequal, a.s, SymNo) || b == Comp(Unequal, a.s, SymMod))
  }

  predicate Opposites(a: Expr, b: Expr) {
    a.Sym? && TypeOf(a.s) == Boolean && b == Not(a)
  }

  /** Exactly which operands of an || join. */
  lemma JoinsOfOr(a: Expr, b: Expr)
    ensures JoinOr(a, b).Some? <==> ExprEq(a, b) || TwoTests(a, b, Equal) || Opposites(a, b) || Opposites(b, a)
    ensures ExprEq(a, b) ==> JoinOr(a, b) == Some(a)
  {
  }

  /** Exactly which operands of an && join. */
  lemma JoinsOfAnd(a: Expr, b: Expr)
    ensures JoinAnd(a, b).Some?
            <==> || ExprEq(a, b) || BareAndTest(a, b) || BareAndTest(b, a)
                 || TestAndTest(a, b) || TestAndTest(b, a) || TwoTests(a, b, Unequal)
    ensures ExprEq(a, b) ==> JoinAnd(a, b) == Some(a)
  {
  }

  /** A concrete clash: m is written "1" in one comparison. */
  lemma NumericConstantsClash(id: nat)
    ensures var s := Config(id, Tri);
            var (a, b) := (Comp(Equal, s, Const("1")), Comp(Unequal, s, SymMod));
            JoinAnd(a, b) == Some(a) && !Equivalent(a, Bin(AndOp, a, b))
  {
    var s := Config(id, Tri);
    var a, b := Comp(Equal, s, Const("1")), Comp(Unequal, s, SymMod);
    assert SkipSpaces("1") == "1" && DigitsValue("1", 10) == Some(1);
    assert TriOf(Const("1")) == Some(MOD);
    assert Clash(a, b);
    JoinAndExact(a, b);
  }
}
