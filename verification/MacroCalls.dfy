// What references to variables, functions and the environment expand to
// (eval_clause, variable_expand, function_expand and env_expand in
// scripts/config/preprocess.c).

module MacroCalls {
  import opened Wrappers
  import opened Macros
  import opened MacroFacts
  import opened Preprocess

  // ----- a reference written out -----

  /** A text without references that can stand as a name or an argument: its
      parentheses match and no comma is outside them. */
  predicate IsPlain(t: string) {
    IsToken(t, 0) && NeverBelow(t, 0) && forall i | 0 <= i < |t| :: t[i] != '$'
  }

  predicate ArePlain(ts: seq<string>) {
    forall t | t in ts :: IsPlain(t)
  }

  /** $(name,a1,...,ak) */
  function Call(name: string, args: seq<string>): string {
    "$(" + Join([name] + args) + ")"
  }

  lemma {:induction false} NestingConcat(a: string, b: string, nest: int)
    ensures Nesting(a + b, nest) == Nesting(b, Nesting(a, nest))
    ensures NeverBelow(a, nest) && NeverBelow(b, Nesting(a, nest)) ==> NeverBelow(a + b, nest)
  {
    if a == "" {
      assert a + b == b;
    } else {
      assert (a + b)[1..] == a[1..] + b;
      NestingConcat(a[1..], b, Shift(nest, a[0]));
    }
  }

  lemma {:induction false} TokenNesting(t: string, nest: int)
    requires IsToken(t, nest)
    ensures Nesting(t, nest) == 0
  {
    if t != "" {
      TokenNesting(t[1..], Shift(nest, t[0]));
    }
  }

  lemma {:induction false} JoinIsBalanced(ts: seq<string>)
    requires |ts| >= 1 && ArePlain(ts)
    ensures NeverBelow(Join(ts), 0) && Nesting(Join(ts), 0) == 0
  {
    assert IsPlain(ts[0]);
    TokenNesting(ts[0], 0);
    if |ts| > 1 {
      JoinIsBalanced(ts[1..]);
      JoinFirst(ts);
      NestingConcat(",", Join(ts[1..]), 0);
      assert ","[1..] == "" && Nesting("", 0) == 0 && NeverBelow("", 0);
      NestingConcat(ts[0], "," + Join(ts[1..]), 0);
      assert ts[0] + ("," + Join(ts[1..])) == ts[0] + "," + Join(ts[1..]);
    }
  }

  lemma {:induction false} PlainArguments(w: World, vs: seq<Variable>, ts: seq<string>, args: seq<string>, bound: nat)
    requires ArePlain(ts) && forall t | t in ts :: |t| <= bound
    ensures ExpandAll(w, vs, ts, args, bound) == Texts(ts)
  {
    if ts != [] {
      PlainText(w, vs, ts[0], args);
      PlainArguments(w, vs, ts[1..], args, bound);
      assert [ts[0]] + ts[1..] == ts;
    }
  }

  lemma EvalCall(w: World, vs: seq<Variable>, name: string, args: seq<string>, outer: seq<string>)
    requires IsPlain(name) && ArePlain(args) && |args| < MAX_ARGS
    requires !(0 < WholeNumber(Join([name] + args)) <= |outer|)
    ensures Eval(w, vs, Join([name] + args), outer) == Apply(w, vs, name, args)
  {
    var ts := [name] + args;
    JoinThenTokens(ts);
    PlainText(w, vs, name, outer);
    EvalUnfolds(w, vs, Join(ts), outer);
    assert ts[1..] == args;
    PlainArguments(w, vs, args, outer, |Join(ts)|);
    hide Eval, Expand, ExpandAll, Tokens, Join, Apply;
  }

  /** What a text gives that is expanded to its end. */
  function Whole(r: Result): Result {
    if r.Ok? then Ok(r.text, "") else r
  }

  lemma CallApplies(w: World, vs: seq<Variable>, name: string, args: seq<string>, outer: seq<string>)
    requires IsPlain(name) && ArePlain(args) && |args| < MAX_ARGS
    requires !(0 < WholeNumber(Join([name] + args)) <= |outer|)
    ensures Expand(w, vs, Call(name, args), outer, OfString) == Whole(Apply(w, vs, name, args))
  {
    hide Expand, Eval, Apply, Join, Close, NeverBelow, Nesting, IsToken, WholeNumber;
    var inner, s := Join([name] + args), Call(name, args);
    JoinIsBalanced([name] + args);
    EvalCall(w, vs, name, args, outer);
    assert s[2..2 + |inner|] == inner && s[2 + |inner|] == ')' && s[2 + |inner| + 1..] == "";
    CloseMatches(s, 2, 0, 2 + |inner|);
    ExpandReference(w, vs, s, 2 + |inner|, outer);
  }

  /** A text that is one reference. */
  lemma ExpandReference(w: World, vs: seq<Variable>, s: string, q: nat, args: seq<string>)
    requires |s| >= 2 && s[0] == '$' && s[1] == '(' && Close(s, 2, 0) == Some(q) && s[q + 1..] == ""
    ensures Expand(w, vs, s, args, OfString) == Whole(Eval(w, vs, s[2..q], args))
  {
    hide Eval, Close;
    var r := Eval(w, vs, s[2..q], args);
    assert r.Ok? ==> r.text + "" == r.text;
  }

  // ----- built-in functions and the environment -----

  predicate IsBuiltin(name: string) {
    || name == "error-if" || name == "filename" || name == "info"
    || name == "lineno" || name == "shell" || name == "warning-if"
  }

  /** A name that is no variable and no function gives the environment variable, or
      nothing; with arguments it gives nothing. */
  lemma UnknownName(w: World, vs: seq<Variable>, name: string, args: seq<string>)
    requires IsPlain(name) && ArePlain(args) && |args| < MAX_ARGS && Lookup(vs, name) == |vs| && !IsBuiltin(name)
    ensures Expand(w, vs, Call(name, args), [], OfString)
         == Ok(match w.getenv(name) case Some(v) => if args == [] && name != "" then v else "" case None => "", "")
  {
    CallApplies(w, vs, name, args, []);
    assert Builtin(w, name, args) == None;
    hide Expand, Call, IsBuiltin, Builtin, ArePlain, IsPlain, Lookup;
  }

  /** The right number of arguments for a function, and what it then gives. */
  function FunctionGives(w: World, name: string, args: seq<string>): Result
    requires IsBuiltin(name) && |args| == Arity(name)
  {
    match name
    case "filename" => Ok(w.filename, "")
    case "lineno" => Ok(w.lineno, "")
    case "shell" => Ok(w.shell(args[0]), "")
    case "error-if" => if args[0] == "y" then Fail(Stop(args[1])) else Ok("", "")
    case _ => Ok("", "")
  }

  function Arity(name: string): nat
    requires IsBuiltin(name)
  {
    if name == "filename" || name == "lineno" then 0
    else if name == "info" || name == "shell" then 1
    else 2
  }

  /** A function gives its result for the right number of arguments only. */
  lemma FunctionCall(w: World, vs: seq<Variable>, name: string, args: seq<string>)
    requires IsBuiltin(name) && ArePlain(args) && |args| < MAX_ARGS && Lookup(vs, name) == |vs|
    ensures Expand(w, vs, Call(name, args), [], OfString)
         == if |args| < Arity(name) then Fail(TooFewFor(name))
            else if |args| > Arity(name) then Fail(TooManyFor(name))
            else FunctionGives(w, name, args)
  {
    BuiltinIsPlain(name);
    CallApplies(w, vs, name, args, []);
    FunctionApplies(w, vs, name, args);
    hide Expand, Call, Apply, ArePlain, IsPlain, IsBuiltin, FunctionGives, Arity;
  }

  lemma FunctionApplies(w: World, vs: seq<Variable>, name: string, args: seq<string>)
    requires IsBuiltin(name) && Lookup(vs, name) == |vs|
    ensures Whole(Apply(w, vs, name, args))
         == if |args| < Arity(name) then Fail(TooFewFor(name))
            else if |args| > Arity(name) then Fail(TooManyFor(name))
            else FunctionGives(w, name, args)
  {
    hide Lookup, Expand;
  }

  lemma BuiltinIsPlain(name: string)
    requires IsBuiltin(name)
    ensures IsPlain(name)
  {
    hide IsToken, NeverBelow;
    assert |name| <= 10;
    forall i | 0 <= i < |name|
      ensures name[i] == '-' || 'a' <= name[i] <= 'z'
    {
      assert i == 0 || i == 1 || i == 2 || i == 3 || i == 4 || i == 5 || i == 6 || i == 7 || i == 8 || i == 9;
    }
    LettersArePlain(name, 0);
    assert name[0..] == name;
  }

  lemma {:induction false} LettersArePlain(t: string, n: nat)
    requires n <= |t| && forall i | 0 <= i < |t| :: t[i] == '-' || 'a' <= t[i] <= 'z'
    ensures IsToken(t[n..], 0) && NeverBelow(t[n..], 0)
    decreases |t| - n
  {
    if n < |t| {
      assert t[n..][1..] == t[n + 1..] && t[n..][0] == t[n];
      LettersArePlain(t, n + 1);
    }
  }

  /** A '$' that starts no reference stands for itself. */
  lemma LoneDollar(w: World, vs: seq<Variable>, t: string, args: seq<string>, end: End)
    requires t == "" || t[0] != '('
    ensures Expand(w, vs, "$" + t, args, end) == Prepend("$", Expand(w, vs, t, args, end))
  {
    assert ("$" + t)[1..] == t;
  }

  /** A reference that is never closed ends the program. */
  lemma UnclosedReference(w: World, vs: seq<Variable>, t: string, args: seq<string>, end: End)
    requires forall e | 0 <= e < |t| && t[e] == ')' :: !(NeverBelow(t[..e], 0) && Nesting(t[..e], 0) == 0)
    ensures Expand(w, vs, "$(" + t, args, end) == Fail(Unterminated(t))
  {
    var s := "$(" + t;
    assert s[2..] == t;
    var c := Close(s, 2, 0);
    if c.Some? {
      assert s[2..c.value] == t[..c.value - 2];
      CloseMatches(s, 2, 0, c.value);
    }
  }

  // ----- variables and user-defined functions -----

  /** The guards, and the text of the variable: as it is for :=, expanded with the
      arguments for =. */
  lemma VariableCall(w: World, vs: seq<Variable>, name: string, args: seq<string>)
    requires IsPlain(name) && ArePlain(args) && |args| < MAX_ARGS && Lookup(vs, name) < |vs|
    ensures var v := vs[Lookup(vs, name)];
            Expand(w, vs, Call(name, args), [], OfString)
            == if args == [] && v.count > 0 then Fail(SelfReference(name))
               else if v.count > 1000 then Fail(TooDeep)
               else if v.flavor == Simple then Ok(v.value, "")
               else Whole(Expand(w, Raise(vs, Lookup(vs, name)), v.value, args, OfString))
  {
    CallApplies(w, vs, name, args, []);
    hide Expand, Call;
  }

  /** The text of a function: literal pieces and references $(1), $(2), ... */
  datatype Piece = Literal(text: string) | Argument(n: nat)

  function Digits(n: nat): string {
    (if n < 10 then "" else Digits(n / 10)) + [('0' as nat + n % 10) as char]
  }

  function Written(p: Piece): string {
    match p
    case Literal(t) => t
    case Argument(n) => Reference(Digits(n))
  }

  function Template(ps: seq<Piece>): string {
    if ps == [] then "" else Written(ps[0]) + Template(ps[1..])
  }

  predicate Fits(ps: seq<Piece>, args: seq<string>) {
    forall p | p in ps :: PieceFits(p, args)
  }

  predicate PieceFits(p: Piece, args: seq<string>) {
    match p
    case Literal(t) => forall i | 0 <= i < |t| :: t[i] != '$'
    case Argument(n) => 1 <= n <= |args|
  }

  function FilledPiece(p: Piece, args: seq<string>): string
    requires PieceFits(p, args)
  {
    match p
    case Literal(t) => t
    case Argument(n) => args[n - 1]
  }

  /** The template with every $(i) replaced by argument i. */
  function Filled(ps: seq<Piece>, args: seq<string>): string
    requires Fits(ps, args)
  {
    if ps == [] then "" else FilledPiece(ps[0], args) + Filled(ps[1..], args)
  }

  lemma AppendDigit(front: string, k: nat)
    requires AllDigits(front) && k < 10
    ensures var d := front + [('0' as nat + k) as char]; AllDigits(d) && Decimal(d) == Decimal(front) * 10 + k
  {
    var d := front + [('0' as nat + k) as char];
    assert d[..|d| - 1] == front;
  }

  lemma {:induction false} DigitsAreDecimal(n: nat)
    ensures Digits(n) != "" && AllDigits(Digits(n)) && Decimal(Digits(n)) == n
  {
    hide Decimal, AllDigits;
    if n < 10 {
      NoDigits();
      AppendDigit("", n);
    } else {
      DigitsAreDecimal(n / 10);
      AppendDigit(Digits(n / 10), n % 10);
    }
  }

  lemma NoDigits()
    ensures AllDigits("") && Decimal("") == 0
  {
  }

  lemma DigitsAreNumber(n: nat)
    requires n <= 0xFFFF_FFFF_FFFF_FFFF
    ensures WholeNumber(Digits(n)) == n && IsName(Digits(n))
  {
    DigitsAreDecimal(n);
    hide Decimal, Digits;
    var d := Digits(n);
    assert '0' <= d[0] <= '9';
    DigitsAreName(d);
  }

  lemma DigitsAreName(d: string)
    requires AllDigits(d)
    ensures IsName(d)
  {
  }

  lemma ExpandArgument(w: World, vs: seq<Variable>, n: nat, args: seq<string>)
    requires 1 <= n <= |args| <= 0xFFFF_FFFF_FFFF_FFFF
    ensures Expand(w, vs, Reference(Digits(n)), args, OfString) == Ok(args[n - 1], "") && Complete(Reference(Digits(n)))
  {
    DigitsAreNumber(n);
    var d, s := Digits(n), Reference(Digits(n));
    NameCloses(s, 2, d);
    assert s[2..2 + |d|] == d && s[2 + |d| + 1..] == "";
    EvalNumber(w, vs, d, args);
    hide Eval, Close, WholeNumber, Digits, IsName;
    assert args[n - 1] + "" == args[n - 1];
  }

  lemma EvalNumber(w: World, vs: seq<Variable>, s: string, args: seq<string>)
    requires 1 <= WholeNumber(s) <= |args|
    ensures Eval(w, vs, s, args) == Ok(args[WholeNumber(s) - 1], "")
  {
    hide WholeNumber, Expand;
  }

  lemma {:induction false} LiteralIsComplete(t: string)
    requires forall i | 0 <= i < |t| :: t[i] != '$'
    ensures Complete(t)
    decreases |t|
  {
    if t != "" {
      LiteralIsComplete(t[1..]);
    }
  }

  lemma ExpandPiece(w: World, vs: seq<Variable>, p: Piece, args: seq<string>)
    requires PieceFits(p, args) && |args| <= 0xFFFF_FFFF_FFFF_FFFF
    ensures Complete(Written(p))
    ensures Expand(w, vs, Written(p), args, OfString) == Ok(FilledPiece(p, args), "")
  {
    hide Expand, Complete;
    match p
    case Literal(t) =>
      LiteralIsComplete(t);
      PlainText(w, vs, t, args);
    case Argument(n) => ExpandArgument(w, vs, n, args);
  }

  /** Expanding replaces the references by the arguments, and nothing else. */
  lemma {:induction false} ExpandTemplate(w: World, vs: seq<Variable>, ps: seq<Piece>, args: seq<string>)
    requires Fits(ps, args) && |args| <= 0xFFFF_FFFF_FFFF_FFFF
    ensures Expand(w, vs, Template(ps), args, OfString) == Ok(Filled(ps, args), "")
    decreases |ps|
  {
    if ps != [] {
      ExpandPiece(w, vs, ps[0], args);
      ExpandTemplate(w, vs, ps[1..], args);
      ExpandConcat(w, vs, Written(ps[0]), Template(ps[1..]), args);
      hide Expand, Complete, Written, PieceFits, FilledPiece;
    }
  }

  /** $(f,a1,...,ak) is the text of f with every $(i) replaced by ai. */
  lemma UserFunction(w: World, vs: seq<Variable>, name: string, args: seq<string>, ps: seq<Piece>)
    requires IsPlain(name) && ArePlain(args) && |args| < MAX_ARGS && Fits(ps, args)
    requires var i := Lookup(vs, name);
             && i < |vs| && vs[i].flavor == Recursive && vs[i].value == Template(ps)
             && vs[i].count <= 1000 && (args == [] ==> vs[i].count == 0)
    ensures Expand(w, vs, Call(name, args), [], OfString) == Ok(Filled(ps, args), "")
  {
    VariableCall(w, vs, name, args);
    ExpandTemplate(w, Raise(vs, Lookup(vs, name)), ps, args);
    hide Expand, Call, Template;
  }

  // ----- tokens -----

  predicate InToken(c: char) {
    'a' <= c <= 'z' || 'A' <= c <= 'Z' || '0' <= c <= '9' || c == '_' || c == '-' || c == '.' || c == '/'
  }

  /** expand_one_token stops at the first character that cannot be in a token. */
  lemma {:induction false} TokenIsRun(w: World, vs: seq<Variable>, word: string, rest: string, args: seq<string>)
    requires forall i | 0 <= i < |word| :: InToken(word[i])
    requires rest == "" || (!InToken(rest[0]) && rest[0] != '$')
    ensures Expand(w, vs, word + rest, args, OfToken) == Ok(word, rest)
    decreases |word|
  {
    if word == "" {
      assert word + rest == rest;
    } else {
      assert (word + rest)[1..] == word[1..] + rest;
      TokenIsRun(w, vs, word[1..], rest, args);
      assert [word[0]] + word[1..] == word;
    }
  }
}
