// Printing expressions and reading them back (expr_compare_type and expr_print
// in scripts/config/expr.c, the expression grammar of
// scripts/config/parser.tab.c).

module ExprText {
  import opened Wrappers
  import opened TristateLogic
  import opened Exprs

  datatype Token = Name(s: Symbol) | RelTok(rel: Relation) | Bang | OpenParen | CloseParen | OpTok(op: BoolOp)

  datatype ExprType = TNone | TOp(op: BoolOp) | TNot | TRel(rel: Relation) | TSym | TList

  function TypeOfExpr(e: Expr): ExprType {
    match e
    case Sym(_) => TSym
    case Comp(rel, _, _) => TRel(rel)
    case Not(_) => TNot
    case Bin(op, _, _) => TOp(op)
  }

  /** 1 when t2 binds less tightly than t1; each case of the original falls
      through to the ones below it. */
  function CompareType(t1: ExprType, t2: ExprType): int {
    if t1 == t2 then 0
    else if t1.TRel? && t1.rel != Equal && t1.rel != Unequal && (t2 == TRel(Equal) || t2 == TRel(Unequal)) then 1
    else if t1.TRel? && t2 == TNot then 1
    else if (t1.TRel? || t1 == TNot) && t2 == TOp(AndOp) then 1
    else if (t1.TRel? || t1 == TNot || t1 == TOp(AndOp)) && t2 == TOp(OrOp) then 1
    else if (t1.TRel? || t1 == TNot || t1.TOp?) && t2 == TList then 1
    else if (t1.TRel? || t1 == TNot || t1.TOp? || t1 == TList) && t2 == TNone then 1
    else -1
  }

  function Print(e: Expr, prev: ExprType): seq<Token>
    decreases e, 1
  {
    if CompareType(prev, TypeOfExpr(e)) > 0 then [OpenParen] + PrintBare(e) + [CloseParen] else PrintBare(e)
  }

  function PrintBare(e: Expr): seq<Token>
    decreases e, 0
  {
    match e
    case Sym(s) => [Name(s)]
    case Comp(rel, l, r) => [Name(l), RelTok(rel), Name(r)]
    case Not(x) => [Bang] + Print(x, TNot)
    case Bin(op, l, r) => Print(l, TOp(op)) + [OpTok(op)] + Print(r, TOp(op))
  }

  function PrintMaybe(e: MaybeExpr): seq<Token> {
    match e
    case None => [Name(SymYes)]
    case Some(x) => Print(x, TNone)
  }

  // ----- the grammar: || binds least, then &&, then !; both group to the left -----

  datatype Parse = Fail | Done(e: Expr, rest: seq<Token>)

  function ParseOperand(ts: seq<Token>): (p: Parse)
    ensures p.Done? ==> |p.rest| < |ts|
    decreases |ts|, 0
  {
    if ts == [] then Fail
    else
      match ts[0]
      case Bang =>
        (match ParseOperand(ts[1..])
         case Fail => Fail
         case Done(x, rest) => Done(Not(x), rest))
      case OpenParen =>
        (match ParseLevel(OrOp, ts[1..])
         case Fail => Fail
         case Done(x, rest) => if rest != [] && rest[0] == CloseParen then Done(x, rest[1..]) else Fail)
      case Name(l) =>
        if |ts| >= 2 && ts[1].RelTok? then
          if |ts| >= 3 && ts[2].Name? then Done(Comp(ts[1].rel, l, ts[2].s), ts[3..]) else Fail
        else Done(Sym(l), ts[1..])
      case _ => Fail
  }

  /** What an operator combines: operands for &&, conjunctions for ||. */
  function ParseBelow(op: BoolOp, ts: seq<Token>): (p: Parse)
    ensures p.Done? ==> |p.rest| < |ts|
    decreases |ts|, if op == AndOp then 1 else 3
  {
    if op == AndOp then ParseOperand(ts) else ParseLevel(AndOp, ts)
  }

  function ParseLevel(op: BoolOp, ts: seq<Token>): (p: Parse)
    ensures p.Done? ==> |p.rest| < |ts|
    decreases |ts|, if op == AndOp then 2 else 4
  {
    match ParseBelow(op, ts)
    case Fail => Fail
    case Done(x, rest) => ParseMore(op, x, rest)
  }

  function ParseMore(op: BoolOp, acc: Expr, ts: seq<Token>): (p: Parse)
    ensures p.Done? ==> |p.rest| <= |ts|
    decreases |ts|
  {
    if ts != [] && ts[0] == OpTok(op) then
      match ParseBelow(op, ts[1..])
      case Fail => Fail
      case Done(x, rest) => ParseMore(op, Bin(op, acc, x), rest)
    else Done(acc, ts)
  }

  function ParseExpr(ts: seq<Token>): Option<Expr> {
    match ParseLevel(OrOp, ts)
    case Done(e, rest) => if rest == [] then Some(e) else None
    case Fail => None
  }

  // ----- the round trip -----

  /** The same operands in the same order, grouped to the left. */
  function LeftGrouped(e: Expr): Expr
    decreases Size(e), 0
  {
    match e
    case Not(x) => Not(LeftGrouped(x))
    case Bin(op, l, r) => Graft(op, LeftGrouped(l), r)
    case _ => e
  }

  /** Appends the operands of e to a level. */
  function Graft(op: BoolOp, acc: Expr, e: Expr): Expr
    decreases Size(e), 1
  {
    if IsLevel(op, e) then Graft(op, Graft(op, acc, e.left), e.right)
    else Bin(op, acc, LeftGrouped(e))
  }

  lemma {:induction false} GraftKeepsValue(env: Env, op: BoolOp, acc: Expr, e: Expr)
    ensures Eval(env, Graft(op, acc, e)) == Apply(op, Eval(env, acc), Eval(env, e))
    decreases Size(e), 1
  {
    if IsLevel(op, e) {
      GraftKeepsValue(env, op, acc, e.left);
      GraftKeepsValue(env, op, Graft(op, acc, e.left), e.right);
      Associates(op, Eval(env, acc), Eval(env, e.left), Eval(env, e.right));
    } else {
      LeftGroupedKeepsValue(env, e);
    }
  }

  lemma Associates(op: BoolOp, a: Tristate, b: Tristate, c: Tristate)
    ensures Apply(op, Apply(op, a, b), c) == Apply(op, a, Apply(op, b, c))
  {
  }

  lemma {:induction false} LeftGroupedKeepsValue(env: Env, e: Expr)
    ensures Eval(env, LeftGrouped(e)) == Eval(env, e)
    decreases Size(e), 0
  {
    match e
    case Not(x) => LeftGroupedKeepsValue(env, x);
    case Bin(op, l, r) =>
      LeftGroupedKeepsValue(env, l);
      GraftKeepsValue(env, op, LeftGrouped(l), r);
    case _ =>
  }

  /** No token that would continue an operand. */
  predicate Ends(ts: seq<Token>) {
    ts == [] || !ts[0].RelTok?
  }

  predicate EndsLevel(op: BoolOp, ts: seq<Token>) {
    Ends(ts) && (ts == [] || ts[0] != OpTok(op))
  }

  lemma {:induction false} ReadsOperand(e: Expr, rest: seq<Token>)
    requires Ends(rest)
    ensures ParseOperand(Print(e, TNot) + rest) == Done(LeftGrouped(e), rest)
    decreases Size(e), 1
  {
    match e
    case Sym(s) =>
      assert Print(e, TNot) == [Name(s)];
      assert ([Name(s)] + rest)[1..] == rest;
    case Comp(rel, l, r) =>
      assert Print(e, TNot) == [Name(l), RelTok(rel), Name(r)];
      assert ([Name(l), RelTok(rel), Name(r)] + rest)[3..] == rest;
    case Not(x) =>
      assert Print(e, TNot) == [Bang] + Print(x, TNot);
      assert ([Bang] + Print(x, TNot) + rest)[1..] == Print(x, TNot) + rest;
      ReadsOperand(x, rest);
    case Bin(op, _, _) =>
      assert op == AndOp || op == OrOp;
      assert Print(e, TNot) == [OpenParen] + PrintBare(e) + [CloseParen];
      var tail := [CloseParen] + rest;
      assert ([OpenParen] + PrintBare(e) + [CloseParen] + rest)[1..] == PrintBare(e) + tail;
      ReadsParenthesised(e, tail);
      assert tail[1..] == rest;
  }

  /** Inside parentheses a whole || or && level is read. */
  lemma {:induction false} ReadsParenthesised(e: Expr, tail: seq<Token>)
    requires e.Bin? && EndsLevel(OrOp, tail) && EndsLevel(AndOp, tail)
    ensures ParseLevel(OrOp, PrintBare(e) + tail) == Done(LeftGrouped(e), tail)
    decreases Size(e), 0
  {
    ReadsLevel(e.op, e, tail);
    assert ParseMore(e.op, LeftGrouped(e), tail) == Done(LeftGrouped(e), tail);
    assert ParseMore(OrOp, LeftGrouped(e), tail) == Done(LeftGrouped(e), tail);
    if e.op == AndOp {
      assert ParseBelow(OrOp, PrintBare(e) + tail) == ParseLevel(AndOp, PrintBare(e) + tail);
    }
  }

  /** A printed level is read up to its end, and then reading goes on. */
  lemma {:induction false} ReadsLevel(op: BoolOp, e: Expr, rest: seq<Token>)
    requires IsLevel(op, e) && Ends(rest) && (op == OrOp ==> EndsLevel(AndOp, rest))
    ensures ParseLevel(op, PrintBare(e) + rest) == ParseMore(op, LeftGrouped(e), rest)
    decreases Size(e), 0, 0
  {
    var after := [OpTok(op)] + Print(e.right, TOp(op)) + rest;
    assert PrintBare(e) + rest == Print(e.left, TOp(op)) + after;
    ReadsFirst(op, e.left, after);
    ReadsMore(op, LeftGrouped(e.left), e.right, rest);
  }

  lemma {:induction false} ReadsFirst(op: BoolOp, e: Expr, rest: seq<Token>)
    requires Ends(rest) && (op == OrOp ==> EndsLevel(AndOp, rest))
    ensures ParseLevel(op, Print(e, TOp(op)) + rest) == ParseMore(op, LeftGrouped(e), rest)
    decreases Size(e), 3
  {
    if IsLevel(op, e) {
      ReadsLevel(op, e, rest);
    } else {
      ReadsBelow(op, e, rest);
    }
  }

  lemma {:induction false} ReadsBelow(op: BoolOp, e: Expr, rest: seq<Token>)
    requires !IsLevel(op, e) && Ends(rest) && (op == OrOp ==> EndsLevel(AndOp, rest))
    ensures ParseBelow(op, Print(e, TOp(op)) + rest) == Done(LeftGrouped(e), rest)
    decreases Size(e), 2
  {
    if op == OrOp && IsLevel(AndOp, e) {
      ReadsLevel(AndOp, e, rest);
    } else {
      assert op == AndOp || op == OrOp;
      assert Print(e, TOp(op)) == Print(e, TNot);
      ReadsOperand(e, rest);
      var ts := Print(e, TOp(op)) + rest;
      assert ParseBelow(AndOp, ts) == ParseOperand(ts);
      if op == OrOp {
        assert ParseBelow(OrOp, ts) == ParseLevel(AndOp, ts) == ParseMore(AndOp, LeftGrouped(e), rest);
      }
    }
  }

  lemma {:induction false} ReadsMore(op: BoolOp, acc: Expr, e: Expr, rest: seq<Token>)
    requires Ends(rest) && (op == OrOp ==> EndsLevel(AndOp, rest))
    ensures ParseMore(op, acc, [OpTok(op)] + Print(e, TOp(op)) + rest) == ParseMore(op, Graft(op, acc, e), rest)
    decreases Size(e), 3
  {
    var ts := [OpTok(op)] + Print(e, TOp(op)) + rest;
    if IsLevel(op, e) {
      var after := [OpTok(op)] + Print(e.right, TOp(op)) + rest;
      assert ts == [OpTok(op)] + Print(e.left, TOp(op)) + after;
      ReadsMore(op, acc, e.left, after);
      ReadsMore(op, Graft(op, acc, e.left), e.right, rest);
    } else {
      assert ts[1..] == Print(e, TOp(op)) + rest;
      ReadsBelow(op, e, rest);
    }
  }

  /** Reading what was printed gives the expression back, grouped to the left. */
  lemma PrintThenParse(e: Expr)
    ensures ParseExpr(Print(e, TNone)) == Some(LeftGrouped(e))
  {
    assert Print(e, TNone) + [] == PrintBare(e);
    if e.Bin? {
      ReadsParenthesised(e, []);
    } else {
      assert Print(e, TOp(OrOp)) == PrintBare(e);
      ReadsBelow(OrOp, e, []);
      assert ParseMore(OrOp, LeftGrouped(e), []) == Done(LeftGrouped(e), []);
    }
  }

  /** So the value survives, also for the absent condition, printed as y. */
  lemma PrintThenParseKeepsValue(env: Env, e: MaybeExpr)
    requires WellTyped(env)
    ensures var p := ParseExpr(PrintMaybe(e)); p.Some? && Eval(env, p.value) == EvalMaybe(env, e)
  {
    match e
    case None =>
      PrintThenParse(Sym(SymYes));
      UnitValue(env, AndOp);
      assert ValueOk(SymYes, env(SymYes));
    case Some(x) =>
      PrintThenParse(x);
      LeftGroupedKeepsValue(env, x);
  }

  /** Grouping does not show in print, so two expressions print alike exactly
      when they differ in grouping only. */
  lemma PrintsAlike(a: Expr, b: Expr)
    ensures Print(a, TNone) == Print(b, TNone) <==> LeftGrouped(a) == LeftGrouped(b)
  {
    PrintThenParse(a);
    PrintThenParse(b);
    LeftGroupedPrintsSame(a, TNone);
    LeftGroupedPrintsSame(b, TNone);
  }

  lemma {:induction false} LeftGroupedPrintsSame(e: Expr, prev: ExprType)
    ensures Print(LeftGrouped(e), prev) == Print(e, prev) && TypeOfExpr(LeftGrouped(e)) == TypeOfExpr(e)
    decreases Size(e), 0
  {
    match e
    case Not(x) => LeftGroupedPrintsSame(x, TNot);
    case Bin(op, l, r) =>
      LeftGroupedPrintsSame(l, TOp(op));
      GraftPrints(op, LeftGrouped(l), r);
    case _ =>
  }

  lemma {:induction false} GraftPrints(op: BoolOp, acc: Expr, e: Expr)
    ensures IsLevel(op, Graft(op, acc, e))
    ensures PrintBare(Graft(op, acc, e)) == Print(acc, TOp(op)) + [OpTok(op)] + Print(e, TOp(op))
    decreases Size(e), 1
  {
    if IsLevel(op, e) {
      GraftPrints(op, acc, e.left);
      GraftPrints(op, Graft(op, acc, e.left), e.right);
    } else {
      LeftGroupedPrintsSame(e, TOp(op));
    }
  }

  // ----- no superfluous parentheses -----

  function OpenParens(ts: seq<Token>): nat {
    if ts == [] then 0 else (if ts[0] == OpenParen then 1 else 0) + OpenParens(ts[1..])
  }

  lemma {:induction false} OpenParensConcat(a: seq<Token>, b: seq<Token>)
    ensures OpenParens(a + b) == OpenParens(a) + OpenParens(b)
  {
    if a == [] {
      assert a + b == b;
    } else {
      assert (a + b)[1..] == a[1..] + b;
      OpenParensConcat(a[1..], b);
    }
  }

  /** The places where the grammar would read something else without parentheses:
      an && or || below a !, and an || below an &&. */
  function Needed(e: Expr): nat {
    match e
    case Not(x) => Needed(x) + (if x.Bin? then 1 else 0)
    case Bin(op, l, r) => Needed(l) + Needed(r) + NeededBelow(op, l) + NeededBelow(op, r)
    case _ => 0
  }

  function NeededBelow(op: BoolOp, e: Expr): nat {
    if op == AndOp && IsLevel(OrOp, e) then 1 else 0
  }

  lemma {:induction false} PrintedParentheses(e: Expr, prev: ExprType)
    ensures OpenParens(Print(e, prev)) == Needed(e) + if CompareType(prev, TypeOfExpr(e)) > 0 then 1 else 0
    decreases e, 1
  {
    BareParentheses(e);
    OneToken(OpenParen);
    OneToken(CloseParen);
    OpenParensConcat([OpenParen], PrintBare(e));
    OpenParensConcat([OpenParen] + PrintBare(e), [CloseParen]);
    hide OpenParens, PrintBare, CompareType, Needed;
  }

  lemma {:induction false} BareParentheses(e: Expr)
    ensures OpenParens(PrintBare(e)) == Needed(e)
    decreases e, 0
  {
    match e
    case Sym(s) => OneToken(Name(s));
    case Comp(rel, l, r) =>
      OneToken(Name(l));
      OneToken(RelTok(rel));
      OneToken(Name(r));
      ThreeParts([Name(l)], [RelTok(rel)], [Name(r)]);
      hide OpenParens;
      assert PrintBare(e) == [Name(l)] + [RelTok(rel)] + [Name(r)];
    case Not(x) =>
      OneToken(Bang);
      PrintedParentheses(x, TNot);
      OpenParensConcat([Bang], Print(x, TNot));
      hide OpenParens;
    case Bin(op, l, r) =>
      OneToken(OpTok(op));
      PrintedParentheses(l, TOp(op));
      PrintedParentheses(r, TOp(op));
      ThreeParts(Print(l, TOp(op)), [OpTok(op)], Print(r, TOp(op)));
      hide OpenParens, Print;
  }

  lemma ThreeParts(a: seq<Token>, b: seq<Token>, c: seq<Token>)
    ensures OpenParens(a + b + c) == OpenParens(a) + OpenParens(b) + OpenParens(c)
  {
    OpenParensConcat(a, b);
    OpenParensConcat(a + b, c);
  }

  lemma OneToken(t: Token)
    ensures OpenParens([t]) == if t == OpenParen then 1 else 0
  {
    assert [t][1..] == [];
  }

  /** Parentheses are printed only where they are needed. */
  lemma OnlyNeededParentheses(e: Expr)
    ensures OpenParens(Print(e, TNone)) == Needed(e)
  {
    PrintedParentheses(e, TNone);
  }
}
