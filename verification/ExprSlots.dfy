// Slots: the places inside an expression that a struct expr ** handle can
// point at while one level of && or || is walked.

module ExprSlots {
  import opened TristateLogic
  import opened Exprs
  import opened ExprConstants

  /** The way from the top of a level to a slot; true turns right. */
  type Path = seq<bool>

  predicate IsSlot(op: BoolOp, e: Expr, p: Path) {
    p == [] || (IsLevel(op, e) && IsSlot(op, if p[0] then e.right else e.left, p[1..]))
  }

  function Get(op: BoolOp, e: Expr, p: Path): (r: Expr)
    requires IsSlot(op, e, p)
    ensures Size(r) <= Size(e) && (p != [] ==> Size(r) < Size(e))
  {
    if p == [] then e else Get(op, if p[0] then e.right else e.left, p[1..])
  }

  function Put(op: BoolOp, e: Expr, p: Path, x: Expr): Expr
    requires IsSlot(op, e, p)
  {
    if p == [] then x
    else if p[0] then Bin(op, e.left, Put(op, e.right, p[1..], x))
    else Bin(op, Put(op, e.left, p[1..], x), e.right)
  }

  /** A slot that holds a single operand of the level. */
  predicate IsOperand(op: BoolOp, e: Expr, p: Path) {
    IsSlot(op, e, p) && !IsLevel(op, Get(op, e, p))
  }

  /** The arrangement of a level with its operands forgotten. */
  datatype Shape = Tip | Fork(l: Shape, r: Shape)

  function ShapeOf(op: BoolOp, e: Expr): Shape {
    if IsLevel(op, e) then Fork(ShapeOf(op, e.left), ShapeOf(op, e.right)) else Tip
  }

  function Forks(s: Shape): nat {
    match s
    case Tip => 0
    case Fork(l, r) => 1 + Forks(l) + Forks(r)
  }

  lemma {:induction false} SameShapeSlot(op: BoolOp, e: Expr, e': Expr, p: Path)
    requires IsSlot(op, e, p) && ShapeOf(op, e') == ShapeOf(op, e)
    ensures IsSlot(op, e', p) && ShapeOf(op, Get(op, e', p)) == ShapeOf(op, Get(op, e, p))
  {
    if p != [] {
      SameShapeSlot(op, if p[0] then e.right else e.left, if p[0] then e'.right else e'.left, p[1..]);
    }
  }

  lemma {:induction false} SlotBelow(op: BoolOp, e: Expr, p: Path, right: bool)
    requires IsSlot(op, e, p) && IsLevel(op, Get(op, e, p))
    ensures IsSlot(op, e, p + [right])
    ensures Get(op, e, p + [right]) == (if right then Get(op, e, p).right else Get(op, e, p).left)
  {
    if p != [] {
      assert (p + [right])[1..] == p[1..] + [right];
      SlotBelow(op, if p[0] then e.right else e.left, p[1..], right);
    }
  }

  lemma {:induction false} PutAtSlot(op: BoolOp, e: Expr, p: Path, x: Expr)
    requires IsOperand(op, e, p) && !IsLevel(op, x)
    ensures ShapeOf(op, Put(op, e, p, x)) == ShapeOf(op, e)
    ensures Size(Put(op, e, p, x)) == Size(e) - Size(Get(op, e, p)) + Size(x)
  {
    if p != [] {
      PutAtSlot(op, if p[0] then e.right else e.left, p[1..], x);
    }
  }

  lemma {:induction false} GetAfterPut(op: BoolOp, e: Expr, p: Path, x: Expr)
    requires IsSlot(op, e, p)
    ensures IsSlot(op, Put(op, e, p, x), p) && Get(op, Put(op, e, p, x), p) == x
  {
    if p != [] {
      GetAfterPut(op, if p[0] then e.right else e.left, p[1..], x);
    }
  }

  /** No slot lies below an operand, and below a level one goes left or right. */
  lemma {:induction false} BelowSlot(op: BoolOp, e: Expr, p: Path, a: Path)
    requires IsSlot(op, e, p) && IsOperand(op, e, a) && p <= a
    ensures if IsLevel(op, Get(op, e, p)) then p + [false] <= a || p + [true] <= a else p == a
  {
    if p == [] {
      if a != [] {
        assert [a[0]] <= a;
      }
    } else {
      BelowSlot(op, if p[0] then e.right else e.left, p[1..], a[1..]);
      assert p == [p[0]] + p[1..] && a == [a[0]] + a[1..];
      assert p + [false] == [p[0]] + (p[1..] + [false]) && p + [true] == [p[0]] + (p[1..] + [true]);
    }
  }

  /** Writing one operand leaves the others alone. */
  lemma {:induction false} PutElsewhere(op: BoolOp, e: Expr, p: Path, q: Path, x: Expr)
    requires IsOperand(op, e, p) && IsOperand(op, e, q) && p != q && !IsLevel(op, x)
    ensures IsOperand(op, Put(op, e, p, x), q) && Get(op, Put(op, e, p, x), q) == Get(op, e, q)
  {
    assert p != [] && q != [];
    if p[0] == q[0] {
      assert p == [p[0]] + p[1..] && q == [q[0]] + q[1..];
      PutElsewhere(op, if p[0] then e.right else e.left, p[1..], q[1..], x);
    } else {
      PutAtSlot(op, e, p, x);
      SameShapeSlot(op, e, Put(op, e, p, x), q);
    }
  }

  lemma Shuffle(op: BoolOp, x: Tristate, a: Tristate, b: Tristate)
    ensures Apply(op, a, Apply(op, x, b)) == Apply(op, x, Apply(op, a, b)) == Apply(op, Apply(op, x, a), b)
  {
  }

  /** The value of a level is that of one operand combined with the rest. */
  lemma {:induction false} PullOut(env: Env, op: BoolOp, e: Expr, p: Path, x: Expr)
    requires IsSlot(op, e, p) && WellTyped(env)
    ensures Eval(env, Put(op, e, p, x)) == Apply(op, Eval(env, x), Eval(env, Put(op, e, p, Unit(op))))
  {
    if p == [] {
      UnitValue(env, op);
    } else {
      var d := if p[0] then e.right else e.left;
      PullOut(env, op, d, p[1..], x);
      var rest := Eval(env, Put(op, d, p[1..], Unit(op)));
      Shuffle(op, Eval(env, x), Eval(env, e.left), rest);
      Shuffle(op, Eval(env, x), rest, Eval(env, e.right));
    }
  }

  lemma {:induction false} PutBack(op: BoolOp, e: Expr, p: Path)
    requires IsSlot(op, e, p)
    ensures Put(op, e, p, Get(op, e, p)) == e
  {
    if p != [] {
      PutBack(op, if p[0] then e.right else e.left, p[1..]);
    }
  }

  /** Two operands may be replaced by the unit and anything worth both. */
  lemma JoinTwo(env: Env, op: BoolOp, e: Expr, p: Path, q: Path, t: Expr)
    requires IsOperand(op, e, p) && IsOperand(op, e, q) && p != q && WellTyped(env) && !IsLevel(op, t)
    requires Eval(env, t) == Apply(op, Eval(env, Get(op, e, p)), Eval(env, Get(op, e, q)))
    ensures IsOperand(op, Put(op, e, p, Unit(op)), q)
    ensures Eval(env, Put(op, Put(op, e, p, Unit(op)), q, t)) == Eval(env, e)
  {
    var d := Put(op, e, p, Unit(op));
    PutElsewhere(op, e, p, q, Unit(op));
    PullOut(env, op, d, q, t);
    PullOut(env, op, d, q, Get(op, d, q));
    PutBack(op, d, q);
    PullOut(env, op, e, p, Get(op, e, p));
    PutBack(op, e, p);
  }

  lemma {:induction false} PutYn(op: BoolOp, e: Expr, p: Path, x: Expr)
    requires IsSlot(op, e, p)
    requires (p != [] && IsYn(x)) || HasYn(x) || (HasYn(e) && !HasYn(Get(op, e, p)) && !IsYn(Get(op, e, p)))
    ensures HasYn(Put(op, e, p, x))
  {
    if p != [] {
      var d := if p[0] then e.right else e.left;
      var other := if p[0] then e.left else e.right;
      if !(|p| == 1 && IsYn(x)) && !(IsYn(other) || HasYn(other)) {
        if !HasYn(x) && !IsYn(x) {
          assert d != Get(op, e, p) ==> d.Bin?;
        }
        PutYn(op, d, p[1..], x);
      }
    }
  }

  lemma {:induction false} OtherSide(op: BoolOp, e: Expr, p: Path) returns (q: Path)
    requires IsOperand(op, e, p) && p != []
    ensures IsOperand(op, e, q) && q != p
  {
    var r := FirstOperand(op, if p[0] then e.left else e.right);
    q := [!p[0]] + r;
    assert q[1..] == r;
  }

  lemma {:induction false} FirstOperand(op: BoolOp, e: Expr) returns (q: Path)
    ensures IsOperand(op, e, q)
  {
    if IsLevel(op, e) {
      var r := FirstOperand(op, e.left);
      q := [false] + r;
      assert q[1..] == r;
    } else {
      q := [];
    }
  }
}
