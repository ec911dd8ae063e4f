// Removal of redundant operands (expr_eliminate_dups1 and expr_eliminate_dups
// in scripts/config/expr.c).

module ExprDups {
  import opened TristateLogic
  import opened Exprs
  import opened ExprConstants
  import opened ExprJoin
  import opened ExprSlots
  import opened ExprTransform

  /** No tristate is tested by = or != against a constant other than y, m or n that
      still denotes a tristate value, such as "1" for m. */
  predicate PlainConsts(e: Expr) {
    match e
    case Sym(_) => true
    case Comp(rel, l, r) => TypeOf(l) == Tri && (rel == Equal || rel == Unequal) && r.Const? ==> TriOf(r).None?
    case Not(x) => PlainConsts(x)
    case Bin(_, l, r) => PlainConsts(l) && PlainConsts(r)
  }

  /** No two operands of any level can be joined. */
  ghost predicate DupFree(e: Expr)
    decreases Size(e)
  {
    e.Bin? ==>
      && (forall p | IsOperand(e.op, e, p) && p != [] :: DupFree(Get(e.op, e, p)))
      && (forall p, q | IsOperand(e.op, e, p) && IsOperand(e.op, e, q) && p != q ::
            Join(e.op, Get(e.op, e, p), Get(e.op, e, q)).None?)
  }

  /** The part of DupFree that one walk from slots p and q establishes. */
  ghost predicate PairsDone(op: BoolOp, e: Expr, p: Path, q: Path) {
    forall a, b | IsOperand(op, e, a) && IsOperand(op, e, b) && p <= a && q <= b && a != b ::
      Join(op, Get(op, e, a), Get(op, e, b)).None? && DupFree(Get(op, e, a))
  }

  /** What rewriting e to e' must keep. */
  ghost predicate Keeps(e: Expr, e': Expr) {
    && Size(e') <= Size(e)
    && (HasYn(e) ==> HasYn(e'))
    && (IsNormal(e) ==> IsNormal(e'))
    && (PlainConsts(e) ==> PlainConsts(e'))
  }

  /** The only joins that do not keep the value. */
  predicate Wrong(op: BoolOp, a: Expr, b: Expr) {
    op == AndOp && Clash(a, b)
  }

  /** The joins so far, and whether one of them was wrong. */
  datatype Joins = Joins(count: nat, wrong: bool)

  /** A walk rewrote e to e' while the joins went from n to n'. */
  ghost predicate Walked(op: BoolOp, e: Expr, n: Joins, e': Expr, n': Joins) {
    && ShapeOf(op, e') == ShapeOf(op, e) && Keeps(e, e')
    && n.count <= n'.count && (if n.count < n'.count then HasYn(e') else e' == e)
    && (!n'.wrong ==> !n.wrong && Equivalent(e, e'))
    && (PlainConsts(e) ==> n'.wrong == n.wrong)
  }

  lemma WalkedTwice(op: BoolOp, a: Expr, i: Joins, b: Expr, j: Joins, c: Expr, k: Joins)
    requires Walked(op, a, i, b, j) && Walked(op, b, j, c, k)
    ensures Walked(op, a, i, c, k)
  {
  }

  lemma {:induction false} GetPlain(op: BoolOp, e: Expr, p: Path)
    requires IsSlot(op, e, p) && PlainConsts(e)
    ensures PlainConsts(Get(op, e, p))
  {
    if p != [] {
      GetPlain(op, if p[0] then e.right else e.left, p[1..]);
    }
  }

  lemma {:induction false} PutPlain(op: BoolOp, e: Expr, p: Path, x: Expr)
    requires IsSlot(op, e, p) && PlainConsts(e) && PlainConsts(x)
    ensures PlainConsts(Put(op, e, p, x))
  {
    if p != [] {
      PutPlain(op, if p[0] then e.right else e.left, p[1..], x);
    }
  }

  lemma {:induction false} GetNormal(op: BoolOp, e: Expr, p: Path)
    requires IsSlot(op, e, p) && IsNormal(e)
    ensures IsNormal(Get(op, e, p))
  {
    if p != [] {
      GetNormal(op, if p[0] then e.right else e.left, p[1..]);
    }
  }

  lemma {:induction false} PutNormal(op: BoolOp, e: Expr, p: Path, x: Expr)
    requires IsSlot(op, e, p) && IsNormal(e) && IsNormal(x)
    ensures IsNormal(Put(op, e, p, x))
  {
    if p != [] {
      PutNormal(op, if p[0] then e.right else e.left, p[1..], x);
    }
  }

  lemma JoinNormal(op: BoolOp, a: Expr, b: Expr)
    requires IsNormal(a) && IsNormal(b) && Join(op, a, b).Some?
    ensures IsNormal(Join(op, a, b).value)
  {
  }

  lemma JoinKeepsValue(env: Env, op: BoolOp, a: Expr, b: Expr)
    requires Join(op, a, b).Some? && !Wrong(op, a, b) && WellTyped(env)
    ensures Eval(env, Join(op, a, b).value) == Apply(op, Eval(env, a), Eval(env, b))
  {
    match op
    case AndOp => JoinAndKeepsValue(env, a, b);
    case OrOp => JoinOrKeepsValue(env, a, b);
  }

  lemma JoinPlain(op: BoolOp, a: Expr, b: Expr)
    requires PlainConsts(a) && PlainConsts(b) && Join(op, a, b).Some?
    ensures PlainConsts(Join(op, a, b).value) && !Wrong(op, a, b)
  {
  }

  lemma JoinIsOperand(op: BoolOp, a: Expr, b: Expr)
    requires !IsLevel(op, a) && !IsLevel(op, b) && Join(op, a, b).Some?
    ensures !IsLevel(op, Join(op, a, b).value)
    ensures Size(Join(op, a, b).value) <= Size(a)
  {
  }

  /** Joining the operands at p and q keeps everything and leaves a constant. */
  lemma JoinStep(op: BoolOp, e: Expr, p: Path, q: Path)
    requires IsOperand(op, e, p) && IsOperand(op, e, q) && p != q
    requires Join(op, Get(op, e, p), Get(op, e, q)).Some?
    ensures IsOperand(op, Put(op, e, p, Unit(op)), q)
    ensures var e' := Put(op, Put(op, e, p, Unit(op)), q, Join(op, Get(op, e, p), Get(op, e, q)).value);
            && Keeps(e, e') && ShapeOf(op, e') == ShapeOf(op, e) && HasYn(e')
            && (!Wrong(op, Get(op, e, p), Get(op, e, q)) ==> Equivalent(e, e'))
    ensures PlainConsts(e) ==> !Wrong(op, Get(op, e, p), Get(op, e, q))
  {
    var a, b := Get(op, e, p), Get(op, e, q);
    var t := Join(op, a, b).value;
    JoinIsOperand(op, a, b);
    PutElsewhere(op, e, p, q, Unit(op));
    var d := Put(op, e, p, Unit(op));
    var e' := Put(op, d, q, t);
    PutAtSlot(op, e, p, Unit(op));
    PutAtSlot(op, d, q, t);
    JoinLeavesYn(op, e, p, q, t);
    if IsNormal(e) {
      GetNormal(op, e, p);
      GetNormal(op, e, q);
      JoinNormal(op, a, b);
      PutNormal(op, e, p, Unit(op));
      PutNormal(op, d, q, t);
    }
    if PlainConsts(e) {
      GetPlain(op, e, p);
      GetPlain(op, e, q);
      PutPlain(op, e, p, Unit(op));
      JoinPlain(op, a, b);
      PutPlain(op, d, q, t);
    }
    if !Wrong(op, a, b) {
      forall env: Env | WellTyped(env)
        ensures Eval(env, e') == Eval(env, e)
      {
        JoinKeepsValue(env, op, a, b);
        JoinTwo(env, op, e, p, q, t);
      }
    }
  }

  lemma JoinLeavesYn(op: BoolOp, e: Expr, p: Path, q: Path, t: Expr)
    requires IsOperand(op, e, p) && IsOperand(op, e, q) && p != q && !IsLevel(op, t)
    requires IsOperand(op, Put(op, e, p, Unit(op)), q)
    ensures HasYn(Put(op, Put(op, e, p, Unit(op)), q, t))
  {
    var d := Put(op, e, p, Unit(op));
    var e' := Put(op, d, q, t);
    GetAfterPut(op, e, p, Unit(op));
    PutElsewhere(op, d, q, p, t);
    PutBack(op, e', p);
    PutYn(op, e', p, Unit(op));
  }

  /** Rewriting one operand that is itself a level keeps the whole. */
  lemma OperandStep(op: BoolOp, e: Expr, p: Path, x: Expr)
    requires IsOperand(op, e, p) && Get(op, e, p).Bin? && x.Bin? && x.op == Get(op, e, p).op
    requires Keeps(Get(op, e, p), x)
    ensures Keeps(e, Put(op, e, p, x)) && ShapeOf(op, Put(op, e, p, x)) == ShapeOf(op, e)
    ensures HasYn(x) ==> HasYn(Put(op, e, p, x))
    ensures Equivalent(Get(op, e, p), x) ==> Equivalent(e, Put(op, e, p, x))
    ensures PlainConsts(e) ==> PlainConsts(Get(op, e, p))
  {
    var a := Get(op, e, p);
    PutAtSlot(op, e, p, x);
    if HasYn(x) || HasYn(e) {
      PutYn(op, e, p, x);
    }
    if IsNormal(e) {
      GetNormal(op, e, p);
      PutNormal(op, e, p, x);
    }
    if PlainConsts(e) {
      GetPlain(op, e, p);
      PutPlain(op, e, p, x);
    }
    if Equivalent(a, x) {
      forall env: Env | WellTyped(env)
        ensures Eval(env, Put(op, e, p, x)) == Eval(env, e)
      {
        PullOut(env, op, e, p, x);
        PullOut(env, op, e, p, a);
        PutBack(op, e, p);
      }
    }
  }

  lemma DupFreeLevel(e: Expr)
    requires e.Bin? && PairsDone(e.op, e, [], [])
    ensures DupFree(e)
  {
    forall p | IsOperand(e.op, e, p) && p != []
      ensures DupFree(Get(e.op, e, p))
    {
      var q := OtherSide(e.op, e, p);
      assert [] <= p && [] <= q;
    }
  }

  lemma DupFreePairs(e: Expr)
    requires e.Bin? && DupFree(e)
    ensures PairsDone(e.op, e, [], [])
  {
  }

  lemma PairsOfLeft(op: BoolOp, e: Expr, p: Path, q: Path)
    requires IsSlot(op, e, p) && IsLevel(op, Get(op, e, p))
    ensures PairsDone(op, e, p, q) <==> PairsDone(op, e, p + [false], q) && PairsDone(op, e, p + [true], q)
  {
    if PairsDone(op, e, p + [false], q) && PairsDone(op, e, p + [true], q) {
      forall a, b | IsOperand(op, e, a) && IsOperand(op, e, b) && p <= a && q <= b && a != b
        ensures Join(op, Get(op, e, a), Get(op, e, b)).None? && DupFree(Get(op, e, a))
      {
        BelowSlot(op, e, p, a);
      }
    }
  }

  lemma PairsOfRight(op: BoolOp, e: Expr, p: Path, q: Path)
    requires IsSlot(op, e, q) && IsLevel(op, Get(op, e, q))
    ensures PairsDone(op, e, p, q) <==> PairsDone(op, e, p, q + [false]) && PairsDone(op, e, p, q + [true])
  {
    if PairsDone(op, e, p, q + [false]) && PairsDone(op, e, p, q + [true]) {
      forall a, b | IsOperand(op, e, a) && IsOperand(op, e, b) && p <= a && q <= b && a != b
        ensures Join(op, Get(op, e, a), Get(op, e, b)).None? && DupFree(Get(op, e, a))
      {
        BelowSlot(op, e, q, b);
      }
    }
  }

  lemma PairsOfOperands(op: BoolOp, e: Expr, p: Path, q: Path)
    requires IsOperand(op, e, p) && IsOperand(op, e, q)
    ensures PairsDone(op, e, p, q)
            <==> p == q || (Join(op, Get(op, e, p), Get(op, e, q)).None? && DupFree(Get(op, e, p)))
  {
    assert p <= p && q <= q;
    if p == q || (Join(op, Get(op, e, p), Get(op, e, q)).None? && DupFree(Get(op, e, p))) {
      forall a, b | IsOperand(op, e, a) && IsOperand(op, e, b) && p <= a && q <= b && a != b
        ensures Join(op, Get(op, e, a), Get(op, e, b)).None? && DupFree(Get(op, e, a))
      {
        BelowSlot(op, e, p, a);
        BelowSlot(op, e, q, b);
      }
    }
  }

  /** Going down one step stays inside the level after a rewriting of it. */
  lemma StepDown(op: BoolOp, e: Expr, e': Expr, p: Path, right: bool)
    requires IsSlot(op, e, p) && IsLevel(op, Get(op, e, p)) && ShapeOf(op, e') == ShapeOf(op, e)
    ensures IsSlot(op, e', p + [right]) && IsSlot(op, e', p) && IsLevel(op, Get(op, e', p))
    ensures Forks(ShapeOf(op, Get(op, e', p + [right]))) < Forks(ShapeOf(op, Get(op, e, p)))
  {
    SameShapeSlot(op, e, e', p);
    SlotBelow(op, e', p, right);
  }

  /** One level that is rewritten in place.  Both handles of the walk point into
      the same tree, so a write through one is seen through the other. */
  class DupEliminator {
    var tree: Expr
    var transCount: nat
    /** Some join did not keep the value. */
    ghost var wrong: bool

    constructor (e: Expr)
      ensures tree == e && transCount == 0 && !wrong
    {
      tree := e;
      transCount := 0;
      wrong := false;
    }

    ghost function Now(): Joins
      reads this
    {
      Joins(transCount, wrong)
    }

    /** Compares each operand of the level at p with each operand at q. */
    method EliminateDups1(op: BoolOp, p: Path, q: Path)
      requires IsSlot(op, tree, p) && IsSlot(op, tree, q)
      modifies this
      ensures Walked(op, old(tree), old(Now()), tree, Now())
      ensures transCount == old(transCount) <==> PairsDone(op, old(tree), p, q)
      decreases Size(tree), 1, Forks(ShapeOf(op, Get(op, tree, p))), Forks(ShapeOf(op, Get(op, tree, q)))
    {
      if IsLevel(op, Get(op, tree, p)) {
        StepDown(op, tree, tree, p, false);
        EliminateDups1(op, p + [false], q);
        ghost var middle, joins := tree, Now();
        SameShapeSlot(op, old(tree), tree, q);
        StepDown(op, old(tree), tree, p, true);
        EliminateDups1(op, p + [true], q);
        WalkedTwice(op, old(tree), old(Now()), middle, joins, tree, Now());
        PairsOfLeft(op, old(tree), p, q);
        return;
      }
      if IsLevel(op, Get(op, tree, q)) {
        StepDown(op, tree, tree, q, false);
        EliminateDups1(op, p, q + [false]);
        ghost var middle, joins := tree, Now();
        SameShapeSlot(op, old(tree), tree, p);
        StepDown(op, old(tree), tree, q, true);
        EliminateDups1(op, p, q + [true]);
        WalkedTwice(op, old(tree), old(Now()), middle, joins, tree, Now());
        PairsOfRight(op, old(tree), p, q);
        return;
      }
      CompareOperands(op, p, q);
    }

    /** Both handles have reached a single operand. */
    method CompareOperands(op: BoolOp, p: Path, q: Path)
      requires IsOperand(op, tree, p) && IsOperand(op, tree, q)
      modifies this
      ensures Walked(op, old(tree), old(Now()), tree, Now())
      ensures transCount == old(transCount) <==> PairsDone(op, old(tree), p, q)
      decreases Size(tree), 0, 1
    {
      PairsOfOperands(op, tree, p, q);
      if p == q {
        return;
      }
      if Get(op, tree, p).Bin? {
        EliminateInOperand(op, p);
        SameShapeSlot(op, old(tree), tree, p);
        SameShapeSlot(op, old(tree), tree, q);
      }
      ghost var middle, joins := tree, Now();
      JoinOperands(op, p, q);
      WalkedTwice(op, old(tree), old(Now()), middle, joins, tree, Now());
    }

    /** The operand at p is a level of the other operator: walk it against itself. */
    method EliminateInOperand(op: BoolOp, p: Path)
      requires IsOperand(op, tree, p) && p != [] && Get(op, tree, p).Bin?
      modifies this
      ensures Walked(op, old(tree), old(Now()), tree, Now())
      ensures transCount == old(transCount) <==> DupFree(Get(op, old(tree), p))
      decreases Size(tree), 0, 0
    {
      var a := Get(op, tree, p);
      var inner := new DupEliminator(a);
      inner.EliminateDups1(a.op, [], []);
      OperandStep(op, tree, p, inner.tree);
      tree := Put(op, tree, p, inner.tree);
      transCount := transCount + inner.transCount;
      wrong := wrong || inner.wrong;
      if inner.transCount == 0 {
        PutBack(op, old(tree), p);
        DupFreeLevel(a);
      } else if DupFree(a) {
        DupFreePairs(a);
      }
    }

    method JoinOperands(op: BoolOp, p: Path, q: Path)
      requires IsOperand(op, tree, p) && IsOperand(op, tree, q) && p != q
      modifies this
      ensures Walked(op, old(tree), old(Now()), tree, Now())
      ensures var (a, b) := (Get(op, old(tree), p), Get(op, old(tree), q));
              && wrong == (old(wrong) || (Join(op, a, b).Some? && Wrong(op, a, b)))
              && transCount == old(transCount) + (if Join(op, a, b).Some? then 1 else 0)
    {
      var t := Join(op, Get(op, tree, p), Get(op, tree, q));
      if t.Some? {
        JoinStep(op, tree, p, q);
        wrong := wrong || Wrong(op, Get(op, tree, p), Get(op, tree, q));
        tree := Put(op, Put(op, tree, p, Unit(op)), q, t.value);
        transCount := transCount + 1;
      }
    }
  }

  /** Joins operands and drops the constants this leaves until a whole walk
      finds nothing to join.  The value is kept unless some join was wrong. */
  method EliminateDups(e: Expr) returns (r: Expr, ghost wrong: bool)
    ensures !wrong ==> Equivalent(e, r)
    ensures PlainConsts(e) ==> PlainConsts(r) && !wrong
    ensures IsNormal(e) ==> IsNormal(r)
    ensures DupFree(r) && (r == e <==> DupFree(e))
    ensures Size(r) <= Size(e)
  {
    var work := new DupEliminator(e);
    while true
      invariant Size(work.tree) <= Size(e)
      invariant !work.wrong ==> Equivalent(e, work.tree)
      invariant PlainConsts(e) ==> PlainConsts(work.tree) && !work.wrong
      invariant IsNormal(e) ==> IsNormal(work.tree)
      invariant DupFree(e) ==> work.tree == e
      decreases Size(work.tree)
    {
      ghost var before := work.tree;
      work.transCount := 0;
      if work.tree.Bin? {
        if DupFree(e) {
          DupFreePairs(e);
        }
        work.EliminateDups1(work.tree.op, [], []);
      }
      if work.transCount == 0 {
        if work.tree.Bin? {
          DupFreeLevel(work.tree);
        }
        return work.tree, work.wrong;
      }
      YnStep(work.tree);
      work.tree := EliminateYn(work.tree);
    }
  }

  lemma {:induction false} YnPlain(e: Expr)
    requires PlainConsts(e)
    ensures PlainConsts(EliminateYn(e))
  {
    if e.Bin? {
      YnPlain(e.left);
      YnPlain(e.right);
    }
  }

  lemma {:induction false} YnNormal(e: Expr)
    requires IsNormal(e)
    ensures IsNormal(EliminateYn(e))
  {
    if e.Bin? {
      YnNormal(e.left);
      YnNormal(e.right);
    }
  }

  lemma YnStep(e: Expr)
    requires HasYn(e)
    ensures Size(EliminateYn(e)) < Size(e) && Equivalent(e, EliminateYn(e))
    ensures PlainConsts(e) ==> PlainConsts(EliminateYn(e))
    ensures IsNormal(e) ==> IsNormal(EliminateYn(e))
  {
    EliminateYnShrinks(e);
    if IsNormal(e) {
      YnNormal(e);
    }
    if PlainConsts(e) {
      YnPlain(e);
    }
    forall env: Env | WellTyped(env)
      ensures Eval(env, e) == Eval(env, EliminateYn(e))
    {
      EliminateYnKeepsValue(env, e);
    }
  }
}
