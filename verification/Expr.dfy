// Dependency expressions and their meaning (scripts/config/expr.h and
// expr_calc_value in scripts/config/expr.c).

module Exprs {
  import opened Wrappers
  import opened TristateLogic

  datatype SymbolType = Unknown | Boolean | Tri | Int | Hex | String

  /** A symbol as expressions see it: the three built-in constants y, m and n,
      any other constant, identified by its text because looking a text up
      always yields the same symbol, or a symbol of the configuration. */
  datatype Symbol = SymYes | SymMod | SymNo | Const(text: string) | Config(id: nat, stype: SymbolType)

  datatype Relation = Equal | Unequal | Less | LessEq | Greater | GreaterEq

  datatype BoolOp = AndOp | OrOp

  datatype Expr =
    | Sym(s: Symbol)
    | Comp(rel: Relation, l: Symbol, r: Symbol)
    | Not(e: Expr)
    | Bin(op: BoolOp, left: Expr, right: Expr)

  /** A NULL expression pointer is an absent condition. */
  type MaybeExpr = Option<Expr>

  datatype Value = Value(tri: Tristate, str: string)

  type Env = Symbol -> Value

  predicate IsTriConst(s: Symbol) {
    s.SymYes? || s.SymMod? || s.SymNo?
  }

  function TypeOf(s: Symbol): SymbolType {
    match s
    case Config(_, t) => t
    case _ => Unknown
  }

  predicate IsLogical(s: Symbol) {
    TypeOf(s) == Boolean || TypeOf(s) == Tri
  }

  function Apply(op: BoolOp, a: Tristate, b: Tristate): Tristate {
    match op
    case AndOp => TriAnd(a, b)
    case OrOp => TriOr(a, b)
  }

  /** The constant that an operator ignores, and the one that absorbs it. */
  function Unit(op: BoolOp): Expr {
    match op
    case AndOp => Sym(SymYes)
    case OrOp => Sym(SymNo)
  }

  function Zero(op: BoolOp): Expr {
    match op
    case AndOp => Sym(SymNo)
    case OrOp => Sym(SymYes)
  }

  function Dual(op: BoolOp): BoolOp {
    match op
    case AndOp => OrOp
    case OrOp => AndOp
  }

  predicate IsLevel(op: BoolOp, e: Expr) {
    e.Bin? && e.op == op
  }

  predicate IsYes(e: MaybeExpr) {
    e.None? || e.value == Sym(SymYes)
  }

  function Size(e: Expr): (n: nat)
    ensures n >= 1
  {
    match e
    case Sym(_) => 1
    case Comp(_, _, _) => 1
    case Not(x) => 1 + Size(x)
    case Bin(_, l, r) => 1 + Size(l) + Size(r)
  }

  // ----- comparing values as text or as numbers -----

  datatype Parsed = Text | Signed(v: int) | Unsigned(v: int)

  function DigitValue(c: char): int {
    if '0' <= c <= '9' then c as int - '0' as int
    else if 'a' <= c <= 'f' then 10 + (c as int - 'a' as int)
    else if 'A' <= c <= 'F' then 10 + (c as int - 'A' as int)
    else 99
  }

  /** The value of a non-empty run of digits, if every character is one. */
  function DigitsValue(s: string, base: nat): Option<nat> {
    if s == [] then None
    else
      var d := DigitValue(s[|s| - 1]);
      if d >= base then None
      else if |s| == 1 then Some(d)
      else
        match DigitsValue(s[..|s| - 1], base)
        case None => None
        case Some(n) => Some(n * base + d)
  }

  function SkipSpaces(s: string): string {
    if s != [] && (s[0] == ' ' || '\t' <= s[0] <= '\r') then SkipSpaces(s[1..]) else s
  }

  /** strtoll/strtoull when they consume the whole text: an optional sign and
      base prefix followed by digits; None when some of the text is left. */
  function ParseNumber(s: string, base: nat): Option<int> {
    var t := SkipSpaces(s);
    var neg := t != [] && t[0] == '-';
    var u := if t != [] && (t[0] == '-' || t[0] == '+') then t[1..] else t;
    var hex := (base == 0 || base == 16) && |u| >= 3 && u[0] == '0'
        && (u[1] == 'x' || u[1] == 'X') && DigitValue(u[2]) < 16;
    var b := if hex then 16 else if base == 0 then (if u != [] && u[0] == '0' then 8 else 10) else base;
    match DigitsValue(if hex then u[2..] else u, b)
    case None => None
    case Some(n) =>
      var v: int := if neg then 0 - n else n;
      Some(v)
  }

  const TWO_63: int := 0x8000_0000_0000_0000
  const TWO_64: int := 0x1_0000_0000_0000_0000

  function ParseSigned(s: string, base: nat): Parsed {
    match ParseNumber(s, base)
    case Some(n) => if -TWO_63 <= n < TWO_63 then Signed(n) else Text
    case None => Text
  }

  function ParseValue(s: string, t: SymbolType): Parsed {
    match t
    case Boolean => Signed(if s == "n" then 0 else if s == "m" then 1 else if s == "y" then 2 else -1)
    case Tri => Signed(if s == "n" then 0 else if s == "m" then 1 else if s == "y" then 2 else -1)
    case Int => ParseSigned(s, 10)
    case Hex =>
      (match ParseNumber(s, 16)
       case Some(n) => if -TWO_64 < n < TWO_64 then Unsigned(n % TWO_64) else Text
       case None => Text)
    case _ => ParseSigned(s, 0)
  }

  function IntCmp(a: int, b: int): int {
    if a < b then -1 else if a > b then 1 else 0
  }

  function StrCmp(a: string, b: string): int {
    if a == [] then (if b == [] then 0 else -1)
    else if b == [] then 1
    else if a[0] != b[0] then IntCmp(a[0] as int, b[0] as int)
    else StrCmp(a[1..], b[1..])
  }

  /** The three-way comparison behind =, !=, <, <=, > and >=. */
  function Compare(a: string, ta: SymbolType, b: string, tb: SymbolType): int {
    if ta == String && tb == String then StrCmp(a, b)
    else
      var p, q := ParseValue(a, ta), ParseValue(b, tb);
      if p.Text? || q.Text? then StrCmp(a, b)
      else if p.Unsigned? || q.Unsigned? then IntCmp(p.v % TWO_64, q.v % TWO_64)
      else IntCmp(p.v, q.v)
  }

  predicate Holds(rel: Relation, c: int) {
    match rel
    case Equal => c == 0
    case Unequal => c != 0
    case Less => c < 0
    case LessEq => c <= 0
    case Greater => c > 0
    case GreaterEq => c >= 0
  }

  function CompareSyms(env: Env, l: Symbol, r: Symbol): int {
    Compare(env(l).str, TypeOf(l), env(r).str, TypeOf(r))
  }

  // ----- the meaning of an expression -----

  function Eval(env: Env, e: Expr): Tristate {
    match e
    case Sym(s) => env(s).tri
    case Comp(rel, l, r) => OfBool(Holds(rel, CompareSyms(env, l, r)))
    case Not(x) => TriNot(Eval(env, x))
    case Bin(op, l, r) => Apply(op, Eval(env, l), Eval(env, r))
  }

  function EvalMaybe(env: Env, e: MaybeExpr): Tristate {
    match e
    case None => YES
    case Some(x) => Eval(env, x)
  }

  predicate IsConst(s: Symbol) {
    !s.Config?
  }

  function ConstText(s: Symbol): string
    requires IsConst(s)
  {
    match s
    case SymYes => "y"
    case SymMod => "m"
    case SymNo => "n"
    case Const(t) => t
  }

  function ConstValue(s: Symbol): Value
    requires IsConst(s)
  {
    Value(if s.SymYes? then YES else if s.SymMod? then MOD else NO, ConstText(s))
  }

  /** What evaluation guarantees about a symbol's value: constants show their
      own text, a bool symbol is never m, the text of a bool or tristate symbol
      matches its value, and every other symbol has the tristate value n. */
  predicate ValueOk(s: Symbol, v: Value) {
    match s
    case Config(_, Boolean) => v.tri != MOD && v.str == TriName(v.tri)
    case Config(_, Tri) => v.str == TriName(v.tri)
    case Config(_, _) => v.tri == NO
    case _ => v == ConstValue(s)
  }

  ghost predicate WellTyped(env: Env) {
    forall s {:trigger ValueOk(s, env(s))} :: ValueOk(s, env(s))
  }

  /** Same value under every well-typed assignment. */
  ghost predicate Equivalent(a: Expr, b: Expr) {
    forall env: Env | WellTyped(env) :: Eval(env, a) == Eval(env, b)
  }

  // ----- facts used by every pass -----

  lemma UnitValue(env: Env, op: BoolOp)
    requires WellTyped(env)
    ensures forall x: Tristate :: Apply(op, Eval(env, Unit(op)), x) == x && Apply(op, x, Eval(env, Unit(op))) == x
    ensures forall x: Tristate ::
              Apply(op, Eval(env, Zero(op)), x) == Eval(env, Zero(op)) == Apply(op, x, Eval(env, Zero(op)))
  {
    assert ValueOk(SymYes, env(SymYes)) && ValueOk(SymNo, env(SymNo));
  }

  lemma {:induction false} StrCmpZero(a: string, b: string)
    ensures StrCmp(a, b) == 0 <==> a == b
  {
    if a != [] && b != [] && a[0] == b[0] {
      StrCmpZero(a[1..], b[1..]);
      assert a == [a[0]] + a[1..] && b == [b[0]] + b[1..];
    }
  }

  /** The tristate value that a constant is equal to: y, m or n by name, and
      0, 1 or 2 when the text reads as a number. */
  function TriOf(s: Symbol): Option<Tristate>
    requires IsConst(s)
  {
    match s
    case SymYes => Some(YES)
    case SymMod => Some(MOD)
    case SymNo => Some(NO)
    case Const(t) =>
      match ParseSigned(t, 0)
      case Signed(n) => if 0 <= n <= 2 then Some(n) else None
      case _ => if t == "y" then Some(YES) else if t == "m" then Some(MOD) else if t == "n" then Some(NO) else None
  }

  lemma NamesAreNotNumbers()
    ensures ParseSigned("y", 0) == ParseSigned("m", 0) == ParseSigned("n", 0) == Text
  {
    assert DigitsValue("y", 10) == DigitsValue("m", 10) == DigitsValue("n", 10) == None;
    assert SkipSpaces("y") == "y" && SkipSpaces("m") == "m" && SkipSpaces("n") == "n";
  }

  lemma CompareTriName(v: Tristate, t: SymbolType, c: string)
    requires t == Boolean || t == Tri
    ensures Compare(TriName(v), t, c, Unknown) == 0 <==>
            (match ParseSigned(c, 0) case Signed(n) => n == v case _ => c == TriName(v))
  {
    StrCmpZero(TriName(v), c);
  }

  /** A bool or tristate symbol equals a constant exactly when the constant
      denotes the symbol's value. */
  lemma LogicalEqualsConst(env: Env, s: Symbol, c: Symbol)
    requires WellTyped(env) && IsLogical(s) && IsConst(c)
    ensures CompareSyms(env, s, c) == 0 <==> TriOf(c) == Some(env(s).tri)
  {
    assert ValueOk(s, env(s)) && ValueOk(c, env(c));
    CompareTriName(env(s).tri, TypeOf(s), ConstText(c));
    NamesAreNotNumbers();
  }
}
