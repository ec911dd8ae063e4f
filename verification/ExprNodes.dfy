// Expression nodes on the heap, and the passes of scripts/config/expr.c that
// rewrite them in place.  Every method is tied to the function on trees that
// the properties are proved about.

module ExprNodes {
  import opened Exprs
  import C = ExprConstants
  import T = ExprTransform
  import Q = ExprEquality

  datatype Kind = SymbolK | CompK(rel: Relation) | NotK | BinK(op: BoolOp)

  /** A node owns the nodes below it; no node is below two others. */
  class Node {
    var kind: Kind
    var lsym: Symbol
    var rsym: Symbol
    var left: Node?
    var right: Node?
    ghost var tree: Expr
    ghost var Repr: set<Node>

    ghost predicate Valid()
      reads this, Repr
      ensures Valid() ==> this in Repr
      decreases Repr
    {
      && this in Repr
      && match kind
         case SymbolK => tree == Sym(lsym)
         case CompK(rel) => tree == Comp(rel, lsym, rsym)
         case NotK => left != null && left in Repr && Owns(left) && left.Valid() && tree == Not(left.tree)
         case BinK(op) =>
           && left != null && right != null && left in Repr && right in Repr && Owns(left) && Owns(right)
           && left.Repr !! right.Repr && left.Valid() && right.Valid() && tree == Bin(op, left.tree, right.tree)
    }

    ghost predicate Owns(n: Node)
      reads this, n
    {
      n in Repr && n.Repr <= Repr && this !in n.Repr
    }

    constructor ForSymbol(s: Symbol)
      ensures Valid() && tree == Sym(s) && Repr == {this}
    {
      kind, lsym, rsym, left, right := SymbolK, s, s, null, null;
      tree, Repr := Sym(s), {this};
    }

    constructor ForNot(e: Node)
      requires e.Valid()
      ensures Valid() && tree == Not(e.tree) && Repr == {this} + e.Repr && this !in e.Repr
    {
      kind, lsym, rsym, left, right := NotK, SymNo, SymNo, e, null;
      tree, Repr := Not(e.tree), {this} + e.Repr;
    }

    constructor ForComp(rel: Relation, l: Symbol, r: Symbol)
      ensures Valid() && tree == Comp(rel, l, r) && Repr == {this}
    {
      kind, lsym, rsym, left, right := CompK(rel), l, r, null, null;
      tree, Repr := Comp(rel, l, r), {this};
    }

    constructor ForBin(op: BoolOp, l: Node, r: Node)
      requires l.Valid() && r.Valid() && l.Repr !! r.Repr
      ensures Valid() && tree == Bin(op, l.tree, r.tree) && Repr == {this} + l.Repr + r.Repr
    {
      kind, lsym, rsym, left, right := BinK(op), SymNo, SymNo, l, r;
      tree, Repr := Bin(op, l.tree, r.tree), {this} + l.Repr + r.Repr;
    }

    /** Writes the operands back after they have been rewritten. */
    method SetOperands(l: Node, r: Node)
      requires kind.BinK? && l.Valid() && r.Valid() && l.Repr !! r.Repr && this !in l.Repr && this !in r.Repr
      modifies this
      ensures Valid() && tree == Bin(old(kind.op), l.tree, r.tree) && Repr == {this} + l.Repr + r.Repr
    {
      left, right := l, r;
      tree, Repr := Bin(kind.op, l.tree, r.tree), {this} + l.Repr + r.Repr;
    }

    /** Turns the node into a symbol. */
    method BecomeSymbol(s: Symbol)
      requires this in Repr
      modifies this
      ensures Valid() && tree == Sym(s) && Repr == old(Repr)
    {
      kind, lsym, left, right := SymbolK, s, null, null;
      tree := Sym(s);
    }

    /** Takes over the contents of the node n below this one: *e = *n. */
    method Become(n: Node)
      requires this in Repr && Owns(n) && n.Valid()
      modifies this
      ensures Valid() && tree == n.tree && Repr == old(Repr)
    {
      kind, lsym, rsym, left, right := n.kind, n.lsym, n.rsym, n.left, n.right;
      tree := n.tree;
    }

    /** expr_eliminate_yn */
    method EliminateYn()
      requires Valid()
      modifies Repr
      ensures Valid() && Repr == old(Repr) && tree == C.EliminateYn(old(tree))
      decreases Repr
    {
      if kind.BinK? {
        left.EliminateYn();
        right.EliminateYn();
        Absorb();
      }
    }

    /** The node is && or || and its operands have been simplified. */
    method Absorb()
      requires kind.BinK? && left != null && right != null && Owns(left) && Owns(right) && this in Repr
      requires left.Repr !! right.Repr && left.Valid() && right.Valid()
      modifies this
      ensures Valid() && Repr == old(Repr) && tree == C.Absorb(old(kind.op), old(left.tree), old(right.tree))
    {
      var zero, unit := Zero(kind.op).s, Unit(kind.op).s;
      if left.kind == SymbolK && left.lsym == zero {
        BecomeSymbol(zero);
      } else if left.kind == SymbolK && left.lsym == unit {
        Become(right);
      } else if right.kind == SymbolK && right.lsym == zero {
        BecomeSymbol(zero);
      } else if right.kind == SymbolK && right.lsym == unit {
        Become(left);
      } else {
        tree := Bin(kind.op, left.tree, right.tree);
      }
    }

    /** expr_trans_bool */
    method TransBool()
      requires Valid()
      modifies Repr
      ensures Valid() && Repr == old(Repr) && tree == T.TransBool(old(tree))
      decreases Repr
    {
      match kind
      case BinK(op) =>
        left.TransBool();
        right.TransBool();
        tree := Bin(op, left.tree, right.tree);
      case NotK =>
        left.TransBool();
        tree := Not(left.tree);
      case CompK(Unequal) =>
        if TypeOf(lsym) == Tri && rsym == SymNo {
          kind := SymbolK;
          tree := Sym(lsym);
        }
      case _ =>
    }
  }

  /** The nodes of r are nodes of the old expression or new ones. */
  twostate predicate From(new r: Node, nodes: set<Node>)
    reads r
  {
    forall n | n in r.Repr :: n in nodes || fresh(n)
  }

  /** expr_transform */
  method Transform(e: Node) returns (r: Node)
    requires e.Valid()
    modifies e.Repr
    ensures r.Valid() && From(r, old(e.Repr)) && r.tree == T.Transform(old(e.tree))
    decreases T.Weight(e.tree), 1
  {
    match e.kind
    case BinK(_) =>
      TransformOperands(e);
      r := e;
    case NotK =>
      e.left := Transform(e.left);
      e.tree, e.Repr := Not(e.left.tree), {e} + e.left.Repr;
      r := TransformNot(e);
    case CompK(rel) =>
      TransformComp(e);
      r := e;
    case SymbolK => r := e;
  }

  method TransformOperands(e: Node)
    requires e.Valid() && e.kind.BinK?
    modifies e.Repr
    ensures e.Valid() && From(e, old(e.Repr)) && e.tree == T.Transform(old(e.tree))
    decreases T.Weight(e.tree), 0
  {
    ghost var t, l, r := e.tree, e.left.tree, e.right.tree;
    TransformBin(t.op, l, r);
    hide T.Transform;
    var left := Transform(e.left);
    var right := Transform(e.right);
    e.SetOperands(left, right);
  }

  lemma TransformBin(op: BoolOp, l: Expr, r: Expr)
    ensures T.Transform(Bin(op, l, r)) == Bin(op, T.Transform(l), T.Transform(r))
  {
  }

  /** A comparison of a bool symbol with y, m or n. */
  method TransformComp(e: Node)
    requires e.Valid() && e.kind.CompK?
    modifies e
    ensures e.Valid() && From(e, old(e.Repr)) && e.tree == T.TransformComp(old(e.kind.rel), old(e.lsym), old(e.rsym))
  {
    if TypeOf(e.lsym) != Boolean {
      return;
    }
    var s, c, rel := e.lsym, e.rsym, e.kind.rel;
    if (rel == Equal && c == SymNo) || (rel == Unequal && c == SymYes) {
      var n := new Node.ForSymbol(s);
      e.kind, e.left := NotK, n;
      e.tree, e.Repr := Not(n.tree), {e, n};
    } else if (rel == Equal || rel == Unequal) && c == SymMod {
      e.BecomeSymbol(if rel == Equal then SymNo else SymYes);
    } else if (rel == Equal && c == SymYes) || (rel == Unequal && c == SymNo) {
      e.BecomeSymbol(s);
    }
  }

  /** A ! whose operand has been transformed. */
  method TransformNot(e: Node) returns (r: Node)
    requires e.Valid() && e.kind.NotK?
    modifies e.Repr
    ensures r.Valid() && From(r, old(e.Repr)) && r.tree == T.TransformNot(old(e.left.tree))
    decreases T.Weight(e.tree), 0
  {
    var x: Node := e.left;
    match x.kind
    case NotK =>
      assert e.tree == Not(x.tree) && x.tree == Not(x.left.tree);
      assert T.Weight(e.tree) == 2 * T.Weight(x.tree) && T.Weight(x.tree) == 2 * T.Weight(x.left.tree);
      r := Transform(x.left);
    case CompK(rel) =>
      x.kind := CompK(T.Negate(rel));
      x.tree := Comp(T.Negate(rel), x.lsym, x.rsym);
      r := x;
    case SymbolK =>
      if x.lsym == SymYes {
        x.BecomeSymbol(SymNo);
        r := x;
      } else if x.lsym == SymMod {
        r := x;
      } else if x.lsym == SymNo {
        x.BecomeSymbol(SymYes);
        r := x;
      } else {
        r := e;
      }
    case BinK(op) =>
      PushDown(e);
      r := Transform(e);
  }

  /** !(a && b) becomes !a || !b, and the other way round. */
  method PushDown(e: Node)
    requires e.Valid() && e.kind.NotK? && e.left.kind.BinK?
    modifies e.Repr
    ensures e.Valid() && From(e, old(e.Repr))
    ensures var x := old(e.left.tree); x.Bin? && e.tree == Bin(Dual(x.op), Not(x.left), Not(x.right))
    ensures T.Weight(e.tree) < T.Weight(old(e.tree))
  {
    var tmp: Node := e.left;
    T.PushingDownIsLighter(tmp.kind.op, tmp.left.tree, tmp.right.tree);
    e.kind := BinK(Dual(tmp.kind.op));
    var right := new Node.ForNot(tmp.right);
    tmp.kind, tmp.right := NotK, null;
    tmp.tree, tmp.Repr := Not(tmp.left.tree), {tmp} + tmp.left.Repr;
    e.SetOperands(tmp, right);
  }

  // ----- expr_copy, expr_eq and expr_eliminate_eq -----

  /** expr_copy */
  method Copy(e: Node) returns (r: Node)
    requires e.Valid()
    ensures r.Valid() && fresh(r.Repr) && r.tree == e.tree
    decreases e.Repr
  {
    if e.kind == SymbolK {
      r := new Node.ForSymbol(e.lsym);
    } else if e.kind.CompK? {
      r := new Node.ForComp(e.kind.rel, e.lsym, e.rsym);
    } else {
      var l := Copy(e.left);
      if e.kind == NotK {
        r := new Node.ForNot(l);
      } else {
        var q := Copy(e.right);
        r := new Node.ForBin(e.kind.op, l, q);
      }
    }
  }

  /** Two separate expressions made of the nodes of a and b and of new ones. */
  twostate predicate Apart(new x: Node, new y: Node, a: set<Node>, b: set<Node>)
    reads x, y, x.Repr, y.Repr
  {
    x.Valid() && y.Valid() && x.Repr !! y.Repr && From(x, a) && From(y, b)
  }

  /** expr_eq; an && or || is compared by cancelling copies against each other. */
  method ExprEq(a: Node, b: Node) returns (res: bool)
    requires a.Valid() && b.Valid()
    ensures res == Q.ExprEq(a.tree, b.tree)
    decreases Size(a.tree) + Size(b.tree), 4
  {
    if a.kind != b.kind {
      return false;
    }
    match a.kind
    case CompK(_) => res := a.lsym == b.lsym && a.rsym == b.rsym;
    case SymbolK => res := a.lsym == b.lsym;
    case NotK => res := ExprEq(a.left, b.left);
    case BinK(_) =>
      var x := Copy(a);
      var y := Copy(b);
      x, y := EliminateEq(x, y);
      res := x.kind == SymbolK && y.kind == SymbolK && x.lsym == y.lsym;
  }

  /** expr_eliminate_eq */
  method EliminateEq(a: Node, b: Node) returns (x: Node, y: Node)
    requires a.Valid() && b.Valid() && a.Repr !! b.Repr
    modifies a.Repr, b.Repr
    ensures Apart(x, y, old(a.Repr), old(b.Repr)) && (x.tree, y.tree) == Q.EliminateEq(old(a.tree), old(b.tree))
    decreases Size(a.tree) + Size(b.tree), 3, 1
  {
    x, y := EliminateLevels(a, b);
    x.EliminateYn();
    y.EliminateYn();
  }

  /** The part of expr_eliminate_eq before the constants are removed. */
  method EliminateLevels(a: Node, b: Node) returns (x: Node, y: Node)
    requires a.Valid() && b.Valid() && a.Repr !! b.Repr
    modifies a.Repr, b.Repr
    ensures Apart(x, y, old(a.Repr), old(b.Repr))
    ensures (C.EliminateYn(x.tree), C.EliminateYn(y.tree)) == Q.EliminateEq(old(a.tree), old(b.tree))
    decreases Size(a.tree) + Size(b.tree), 3, 0
  {
    hide Q.EliminateEq1, C.EliminateYn;
    x, y := a, b;
    if x.kind.BinK? {
      x, y := EliminateEq1(x.kind.op, x, y);
    }
    if x.kind != y.kind && y.kind.BinK? {
      x, y := EliminateEq1(y.kind.op, x, y);
    }
  }

  /** __expr_eliminate_eq: every operand of a against every operand of b. */
  method EliminateEq1(op: BoolOp, a: Node, b: Node) returns (x: Node, y: Node)
    requires a.Valid() && b.Valid() && a.Repr !! b.Repr
    modifies a.Repr, b.Repr
    ensures Apart(x, y, old(a.Repr), old(b.Repr)) && (x.tree, y.tree) == Q.EliminateEq1(op, old(a.tree), old(b.tree))
    decreases Size(a.tree) + Size(b.tree), if IsLevel(op, a.tree) || IsLevel(op, b.tree) then 2 else 6
  {
    if a.kind == BinK(op) {
      x, y := EliminateInFirst(op, a, b);
    } else if b.kind == BinK(op) {
      x, y := EliminateInSecond(op, a, b);
    } else {
      x, y := EliminateOperands(op, a, b);
    }
  }

  method EliminateInFirst(op: BoolOp, a: Node, b: Node) returns (x: Node, y: Node)
    requires a.Valid() && b.Valid() && a.Repr !! b.Repr && a.kind == BinK(op)
    modifies a.Repr, b.Repr
    ensures Apart(x, y, old(a.Repr), old(b.Repr)) && (x.tree, y.tree) == Q.EliminateEq1(op, old(a.tree), old(b.tree))
    decreases Size(a.tree) + Size(b.tree), 1
  {
    hide Q.EliminateEq1, Size, IsLevel;
    LevelOfFirst(op, a.left.tree, a.right.tree, b.tree);
    x := a;
    var left, right;
    left, right, y := BothAgainst(op, a.left, a.right, b);
    x.SetOperands(left, right);
  }

  /** First l and then r against b. */
  method BothAgainst(op: BoolOp, l: Node, r: Node, b: Node) returns (l': Node, r': Node, b': Node)
    requires l.Valid() && r.Valid() && b.Valid() && l.Repr !! r.Repr !! b.Repr
    modifies l.Repr, r.Repr, b.Repr
    ensures l'.Valid() && r'.Valid() && b'.Valid() && l'.Repr !! r'.Repr !! b'.Repr
    ensures From(l', old(l.Repr)) && From(r', old(r.Repr)) && From(b', old(b.Repr))
    ensures var (t, c) := Q.EliminateEq1(op, old(l.tree), old(b.tree));
            l'.tree == t && (r'.tree, b'.tree) == Q.EliminateEq1(op, old(r.tree), c)
    decreases Size(l.tree) + Size(r.tree) + Size(b.tree) + 1, 0
  {
    hide Q.EliminateEq1, Size, IsLevel;
    SizesShrink(op, l.tree, b.tree);
    l', b' := EliminateEq1(op, l, b);
    r', b' := EliminateEq1(op, r, b');
  }

  method EliminateInSecond(op: BoolOp, a: Node, b: Node) returns (x: Node, y: Node)
    requires a.Valid() && b.Valid() && a.Repr !! b.Repr && a.kind != BinK(op) && b.kind == BinK(op)
    modifies a.Repr, b.Repr
    ensures Apart(x, y, old(a.Repr), old(b.Repr)) && (x.tree, y.tree) == Q.EliminateEq1(op, old(a.tree), old(b.tree))
    decreases Size(a.tree) + Size(b.tree), 1
  {
    assert !IsLevel(op, a.tree);
    hide Q.EliminateEq1, Size, IsLevel;
    LevelOfSecond(op, a.tree, b.left.tree, b.right.tree);
    y := b;
    var left, right;
    x, left, right := AgainstBoth(op, a, b.left, b.right);
    y.SetOperands(left, right);
  }

  /** a first against l and then against r. */
  method AgainstBoth(op: BoolOp, a: Node, l: Node, r: Node) returns (a': Node, l': Node, r': Node)
    requires a.Valid() && l.Valid() && r.Valid() && a.Repr !! l.Repr !! r.Repr
    modifies a.Repr, l.Repr, r.Repr
    ensures a'.Valid() && l'.Valid() && r'.Valid() && a'.Repr !! l'.Repr !! r'.Repr
    ensures From(a', old(a.Repr)) && From(l', old(l.Repr)) && From(r', old(r.Repr))
    ensures var (c, t) := Q.EliminateEq1(op, old(a.tree), old(l.tree));
            l'.tree == t && (a'.tree, r'.tree) == Q.EliminateEq1(op, c, old(r.tree))
    decreases Size(a.tree) + Size(l.tree) + Size(r.tree) + 1, 0
  {
    hide Q.EliminateEq1, Size, IsLevel;
    SizesShrink(op, a.tree, l.tree);
    a', l' := EliminateEq1(op, a, l);
    a', r' := EliminateEq1(op, a', r);
  }

  lemma SizesShrink(op: BoolOp, a: Expr, b: Expr)
    ensures var (x, y) := Q.EliminateEq1(op, a, b); Size(x) <= Size(a) && Size(y) <= Size(b)
  {
  }

  /** Two equal operands are replaced by new nodes for the unit of op. */
  method EliminateOperands(op: BoolOp, a: Node, b: Node) returns (x: Node, y: Node)
    requires a.Valid() && b.Valid() && a.Repr !! b.Repr && a.kind != BinK(op) && b.kind != BinK(op)
    ensures Apart(x, y, old(a.Repr), old(b.Repr)) && (x.tree, y.tree) == Q.EliminateEq1(op, old(a.tree), old(b.tree))
    decreases Size(a.tree) + Size(b.tree), 5
  {
    hide Q.ExprEq, Q.EliminateEq1;
    TwoOperands(op, a.tree, b.tree);
    x, y := a, b;
    if x.kind == SymbolK && y.kind == SymbolK && x.lsym == y.lsym && (x.lsym == SymYes || x.lsym == SymNo) {
      return;
    }
    var equal := ExprEq(x, y);
    if equal {
      x := new Node.ForSymbol(Unit(op).s);
      y := new Node.ForSymbol(Unit(op).s);
    }
  }

  lemma LevelOfFirst(op: BoolOp, l: Expr, r: Expr, b: Expr)
    ensures var (l', b1) := Q.EliminateEq1(op, l, b);
            var (r', b2) := Q.EliminateEq1(op, r, b1);
            Q.EliminateEq1(op, Bin(op, l, r), b) == (Bin(op, l', r'), b2) && Size(b1) <= Size(b)
    ensures Size(Bin(op, l, r)) == 1 + Size(l) + Size(r)
  {
  }

  lemma LevelOfSecond(op: BoolOp, a: Expr, l: Expr, r: Expr)
    requires !IsLevel(op, a)
    ensures var (a1, l') := Q.EliminateEq1(op, a, l);
            var (a2, r') := Q.EliminateEq1(op, a1, r);
            Q.EliminateEq1(op, a, Bin(op, l, r)) == (a2, Bin(op, l', r')) && Size(a1) <= Size(a)
    ensures Size(Bin(op, l, r)) == 1 + Size(l) + Size(r)
  {
    Q.OperandKeepsLevels(op, a, l);
  }

  lemma TwoOperands(op: BoolOp, a: Expr, b: Expr)
    requires !IsLevel(op, a) && !IsLevel(op, b)
    ensures Q.EliminateEq1(op, a, b)
         == if (a == b && C.IsYn(a)) || !Q.ExprEq(a, b) then (a, b) else (Unit(op), Unit(op))
  {
  }
}
