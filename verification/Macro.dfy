// The macro language of scripts/config/preprocess.c: what a text expands to, as a
// function of the variables, their expansion counts and the outside world.

module Macros {
  import opened Wrappers

  datatype Flavor = Simple | Recursive

  /** A variable of the list; count says how many of its expansions are under way. */
  datatype Variable = Variable(name: string, value: string, flavor: Flavor, count: nat)

  datatype Error =
    | SelfReference(name: string)
    | TooDeep
    | Unterminated(text: string)
    | TooManyArguments
    | Overrun
    | TooFewFor(name: string)
    | TooManyFor(name: string)
    | Stop(message: string)

  /** A text and what follows it, or the message with which the program ends. */
  datatype Result = Ok(text: string, rest: string) | Fail(error: Error)

  /** What comes from outside: the file being read, the shell and the environment. */
  datatype World = World(filename: string, lineno: string, shell: string -> string, getenv: string -> Option<string>)

  /** Where __expand_string stops. */
  datatype End = OfString | OfToken

  predicate IsEnd(end: End, c: char) {
    end == OfToken && !(('a' <= c <= 'z') || ('A' <= c <= 'Z') || ('0' <= c <= '9') || c in "_-./")
  }

  function Prepend(t: string, r: Result): Result {
    match r
    case Ok(u, rest) => Ok(t + u, rest)
    case Fail(_) => r
  }

  // ----- parentheses and commas -----

  /** The first unmatched closing parenthesis at or after q. */
  function Close(s: string, q: nat, nest: nat): (e: Option<nat>)
    requires q <= |s|
    ensures e.Some? ==> q <= e.value < |s| && s[e.value] == ')'
    decreases |s| - q
  {
    if q == |s| then None
    else if s[q] == '(' then Close(s, q + 1, nest + 1)
    else if s[q] == ')' then (if nest == 0 then Some(q) else Close(s, q + 1, nest - 1))
    else Close(s, q + 1, nest)
  }

  /** How the nesting changes at a character. */
  function Shift(nest: int, c: char): int {
    if c == '(' then nest + 1 else if c == ')' then nest - 1 else nest
  }

  /** The pieces between the commas at nesting 0. */
  function Tokens(s: string, nest: int): (ts: seq<string>)
    ensures |ts| >= 1 && forall t | t in ts :: |t| <= |s|
  {
    if s == "" then [""]
    else if nest == 0 && s[0] == ',' then [""] + Tokens(s[1..], nest)
    else
      var ts := Tokens(s[1..], Shift(nest, s[0]));
      [[s[0]] + ts[0]] + ts[1..]
  }

  // ----- numbers of arguments -----

  predicate IsSpace(c: char) {
    c in " \t\n\r" || c == '\U{0B}' || c == '\U{0C}'
  }

  predicate AllDigits(s: string) {
    forall i | 0 <= i < |s| :: '0' <= s[i] <= '9'
  }

  function Decimal(s: string): nat
    requires AllDigits(s)
  {
    if s == "" then 0 else Decimal(s[..|s| - 1]) * 10 + (s[|s| - 1] as nat - '0' as nat)
  }

  /** The value strtoul gives for a text that it reads to the end, without digits
      or with anything after them 0. */
  function WholeNumber(s: string): nat
    decreases |s|
  {
    if s != "" && IsSpace(s[0]) then WholeNumber(s[1..])
    else
      var negative := s != "" && s[0] == '-';
      var digits := if s != "" && s[0] in "+-" then s[1..] else s;
      if digits == "" || !AllDigits(digits) then 0
      else
        var n := Decimal(digits);
        if n > 0xFFFF_FFFF_FFFF_FFFF then 0xFFFF_FFFF_FFFF_FFFF
        else if negative then (0x1_0000_0000_0000_0000 - n) % 0x1_0000_0000_0000_0000
        else n
  }

  // ----- built-in functions -----

  const MAX_ARGS := 16

  /** What goes wrong with more pieces than the argument vector holds: the last
      one is only noticed if a comma follows it. */
  function SplitFailure(ts: seq<string>): Option<Error> {
    if |ts| > MAX_ARGS + 1 then Some(TooManyArguments) else if |ts| == MAX_ARGS + 1 then Some(Overrun) else None
  }

  /** NULL is None: no such function, or one that returns nothing. */
  function Builtin(w: World, name: string, args: seq<string>): Option<Result> {
    if name == "error-if" then
      if |args| < 2 then Some(Fail(TooFewFor(name))) else if |args| > 2 then Some(Fail(TooManyFor(name)))
      else if args[0] == "y" then Some(Fail(Stop(args[1]))) else None
    else if name == "filename" then
      if |args| > 0 then Some(Fail(TooManyFor(name))) else Some(Ok(w.filename, ""))
    else if name == "info" then
      if |args| < 1 then Some(Fail(TooFewFor(name))) else if |args| > 1 then Some(Fail(TooManyFor(name)))
      else Some(Ok("", ""))
    else if name == "lineno" then
      if |args| > 0 then Some(Fail(TooManyFor(name))) else Some(Ok(w.lineno, ""))
    else if name == "shell" then
      if |args| < 1 then Some(Fail(TooFewFor(name))) else if |args| > 1 then Some(Fail(TooManyFor(name)))
      else Some(Ok(w.shell(args[0]), ""))
    else if name == "warning-if" then
      if |args| < 2 then Some(Fail(TooFewFor(name))) else if |args| > 2 then Some(Fail(TooManyFor(name)))
      else Some(Ok("", ""))
    else None
  }

  /** env_expand, and the empty text when nothing of that name is known. */
  function Outside(w: World, name: string, args: seq<string>): Result {
    if |args| == 0 && name != "" && w.getenv(name).Some? then Ok(w.getenv(name).value, "") else Ok("", "")
  }

  // ----- variables -----

  /** The position of the variable, or the length of the list. */
  function Lookup(vs: seq<Variable>, name: string): (i: nat)
    ensures i <= |vs| && (i < |vs| ==> vs[i].name == name)
    ensures forall j | 0 <= j < i :: vs[j].name != name
  {
    if vs == [] || vs[0].name == name then 0 else 1 + Lookup(vs[1..], name)
  }

  /** How often the counts can still be raised: a count above 1000 cannot. */
  function Budget(vs: seq<Variable>): nat {
    if vs == [] then 0 else (if vs[0].count <= 1000 then 1001 - vs[0].count else 0) + Budget(vs[1..])
  }

  function Raise(vs: seq<Variable>, i: nat): (r: seq<Variable>)
    requires i < |vs|
    ensures |r| == |vs|
  {
    vs[i := vs[i].(count := vs[i].count + 1)]
  }

  lemma {:induction false} RaiseCosts(vs: seq<Variable>, i: nat)
    requires i < |vs| && vs[i].count <= 1000
    ensures Budget(Raise(vs, i)) == Budget(vs) - 1
  {
    if i == 0 {
      assert Raise(vs, 0)[1..] == vs[1..];
    } else {
      assert Raise(vs, i)[1..] == Raise(vs[1..], i - 1);
      RaiseCosts(vs[1..], i - 1);
    }
  }

  // ----- expansion -----

  /** Every nested call has a smaller budget or a shorter text. */
  function Expand(w: World, vs: seq<Variable>, s: string, args: seq<string>, end: End): Result
    decreases Budget(vs), |s|, 1, 0
  {
    if s == "" then Ok("", "")
    else if s[0] == '$' then
      if |s| == 1 || s[1] != '(' then Prepend("$", Expand(w, vs, s[1..], args, end))
      else
        match Close(s, 2, 0)
        case None => Fail(Unterminated(s[2..]))
        case Some(q) =>
          match Eval(w, vs, s[2..q], args)
          case Fail(e) => Fail(e)
          case Ok(t, _) => Prepend(t, Expand(w, vs, s[q + 1..], args, end))
    else if IsEnd(end, s[0]) then Ok("", s)
    else Prepend([s[0]], Expand(w, vs, s[1..], args, end))
  }

  /** The value of the reference $(s). */
  function Eval(w: World, vs: seq<Variable>, s: string, args: seq<string>): Result
    decreases Budget(vs), |s|, 3, 0
  {
    var n := WholeNumber(s);
    if 0 < n <= |args| then Ok(args[n - 1], "")
    else
      var ts := Tokens(s, 0);
      if SplitFailure(ts).Some? then Fail(SplitFailure(ts).value)
      else
        match Expand(w, vs, ts[0], args, OfString)
        case Fail(e) => Fail(e)
        case Ok(name, _) =>
          match ExpandAll(w, vs, ts[1..], args, |s|)
          case Wrong(e) => Fail(e)
          case Texts(values) => Apply(w, vs, name, values)
  }

  datatype Values = Texts(values: seq<string>) | Wrong(error: Error)

  function ExpandAll(w: World, vs: seq<Variable>, ts: seq<string>, args: seq<string>, bound: nat): Values
    requires forall t | t in ts :: |t| <= bound
    decreases Budget(vs), bound, 2, |ts|
  {
    if ts == [] then Texts([])
    else
      match Expand(w, vs, ts[0], args, OfString)
      case Fail(e) => Wrong(e)
      case Ok(t, _) =>
        match ExpandAll(w, vs, ts[1..], args, bound)
        case Wrong(e) => Wrong(e)
        case Texts(values) => Texts([t] + values)
  }

  /** A variable, else a function, else the environment. */
  function Apply(w: World, vs: seq<Variable>, name: string, args: seq<string>): Result
    decreases Budget(vs), 0, 1, 1
  {
    var i := Lookup(vs, name);
    if i < |vs| then ExpandVariable(w, vs, i, args)
    else
      match Builtin(w, name, args)
      case Some(r) => r
      case None => Outside(w, name, args)
  }

  function ExpandVariable(w: World, vs: seq<Variable>, i: nat, args: seq<string>): Result
    requires i < |vs|
    decreases Budget(vs), 0, 1, 0
  {
    if |args| == 0 && vs[i].count > 0 then Fail(SelfReference(vs[i].name))
    else if vs[i].count > 1000 then Fail(TooDeep)
    else if vs[i].flavor == Simple then Ok(vs[i].value, "")
    else
      RaiseCosts(vs, i);
      Expand(w, Raise(vs, i), vs[i].value, args, OfString)
  }
}
