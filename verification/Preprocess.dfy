// The macro expander of scripts/config/preprocess.c: cursors over strings, a
// growing output, the argument vector, and the variable list with its counts.

module Preprocess {
  import opened Wrappers
  import opened Macros
  import MacroFacts

  /** The text that is left is split into done, what is between prev and p with
      the first piece of the rest, and the others. */
  function Joined(front: string, ts: seq<string>): seq<string>
    requires |ts| >= 1
  {
    [front + ts[0]] + ts[1..]
  }

  ghost predicate Splitting(s: string, prev: nat, p: nat, nest: int, done: seq<string>) {
    && prev <= p <= |s|
    && Tokens(s, 0) == done + Joined(s[prev..p], Tokens(s[p..], nest))
  }

  lemma JoinedNothing(ts: seq<string>)
    requires |ts| >= 1
    ensures Joined("", ts) == ts
  {
    assert "" + ts[0] == ts[0];
  }

  lemma JoinedComma(front: string, ts: seq<string>)
    ensures Joined(front, [""] + ts) == [front] + ts
  {
    assert front + "" == front && ([""] + ts)[1..] == ts;
  }

  lemma JoinedChar(front: string, c: char, ts: seq<string>)
    requires |ts| >= 1
    ensures Joined(front, Joined([c], ts)) == Joined(front + [c], ts)
  {
    assert front + ([c] + ts[0]) == front + [c] + ts[0];
    assert Joined([c], ts)[1..] == ts[1..];
  }

  lemma TokensAt(s: string, p: nat, nest: int)
    requires p < |s|
    ensures Tokens(s[p..], nest) ==
            if nest == 0 && s[p] == ',' then [""] + Tokens(s[p + 1..], 0)
            else Joined([s[p]], Tokens(s[p + 1..], Shift(nest, s[p])))
  {
    assert s[p..][1..] == s[p + 1..];
  }

  lemma SplitStart(s: string)
    ensures Splitting(s, 0, 0, 0, [])
  {
    hide Tokens, Joined;
    JoinedNothing(Tokens(s, 0));
    assert s[0..] == s && s[0..0] == "";
    assert [] + Tokens(s, 0) == Tokens(s, 0);
  }

  lemma SplitComma(s: string, prev: nat, p: nat, done: seq<string>)
    requires Splitting(s, prev, p, 0, done) && p < |s| && s[p] == ','
    ensures Splitting(s, p + 1, p + 1, 0, done + [s[prev..p]])
  {
    hide Tokens, Joined;
    var ts := Tokens(s[p + 1..], 0);
    TokensAt(s, p, 0);
    JoinedComma(s[prev..p], ts);
    JoinedNothing(ts);
    assert s[p + 1..p + 1] == "";
    assert done + ([s[prev..p]] + ts) == done + [s[prev..p]] + ts;
  }

  lemma SplitOther(s: string, prev: nat, p: nat, nest: int, done: seq<string>)
    requires Splitting(s, prev, p, nest, done) && p < |s| && !(nest == 0 && s[p] == ',')
    ensures Splitting(s, prev, p + 1, Shift(nest, s[p]), done)
  {
    hide Tokens, Joined;
    TokensAt(s, p, nest);
    JoinedChar(s[prev..p], s[p], Tokens(s[p + 1..], Shift(nest, s[p])));
    assert s[prev..p] + [s[p]] == s[prev..p + 1];
  }

  lemma SplitEnd(s: string, prev: nat, nest: int, done: seq<string>)
    requires Splitting(s, prev, |s|, nest, done)
    ensures Tokens(s, 0) == done + [s[prev..]]
  {
    assert Tokens("", nest) == [""];
    hide Tokens, Joined;
    assert s[|s|..] == "" && s[prev..|s|] == s[prev..];
    JoinedComma(s[prev..], []);
    assert [""] + [] == [""] && [s[prev..]] + [] == [s[prev..]];
  }

  lemma SplitCount(s: string, prev: nat, p: nat, nest: int, done: seq<string>)
    requires Splitting(s, prev, p, nest, done)
    ensures |Tokens(s, 0)| >= |done| + 1
  {
  }

  /** out and the text up to p have been produced. */
  ghost predicate Produced(w: World, vs: seq<Variable>, s: string, args: seq<string>, end: End, out: string, p: nat) {
    p <= |s| && Expand(w, vs, s, args, end) == Prepend(out, Expand(w, vs, s[p..], args, end))
  }

  lemma ProduceStart(w: World, vs: seq<Variable>, s: string, args: seq<string>, end: End)
    ensures Produced(w, vs, s, args, end, "", 0)
  {
    assert s[0..] == s;
    var r := Expand(w, vs, s, args, end);
    assert Prepend("", r) == r;
  }

  lemma PrependTwice(t: string, u: string, r: Result)
    ensures Prepend(t, Prepend(u, r)) == Prepend(t + u, r)
  {
    if r.Ok? {
      assert t + (u + r.text) == t + u + r.text;
    }
  }

  lemma ProduceChar(w: World, vs: seq<Variable>, s: string, args: seq<string>, end: End, out: string, p: nat)
    requires Produced(w, vs, s, args, end, out, p) && p < |s| && s[p] != '$' && !IsEnd(end, s[p])
    ensures Produced(w, vs, s, args, end, out + [s[p]], p + 1)
  {
    assert s[p..][1..] == s[p + 1..];
    PrependTwice(out, [s[p]], Expand(w, vs, s[p + 1..], args, end));
  }

  lemma ProduceEnd(w: World, vs: seq<Variable>, s: string, args: seq<string>, end: End, out: string, p: nat)
    requires Produced(w, vs, s, args, end, out, p) && (p == |s| || (s[p] != '$' && IsEnd(end, s[p])))
    ensures Expand(w, vs, s, args, end) == Ok(out, s[p..])
  {
    assert out + "" == out && (p == |s| ==> s[p..] == "");
  }

  /** What expand_dollar_with_args gives for the text after a '$', and where it
      leaves the cursor. */
  function Dollar(w: World, vs: seq<Variable>, s: string, p: nat, args: seq<string>): (Result, nat)
    requires p <= |s|
  {
    if p == |s| || s[p] != '(' then (Ok("$", ""), p)
    else
      match Close(s, p + 1, 0)
      case None => (Fail(Unterminated(s[p + 1..])), p)
      case Some(q) => (Eval(w, vs, s[p + 1..q], args), q + 1)
  }

  lemma {:induction false} CloseOfRest(s: string, p: nat, q: nat, nest: nat)
    requires p <= q <= |s|
    ensures Close(s[p..], q - p, nest) == match Close(s, q, nest) case None => None case Some(e) => Some(e - p)
    ensures Close(s, q, nest).Some? ==> Close(s, q, nest).value >= p
    decreases |s| - q
  {
    if q < |s| && (s[q] != ')' || nest > 0) {
      CloseOfRest(s, p, q + 1, Shift(nest, s[q]));
    }
  }

  lemma ProduceDollar(w: World, vs: seq<Variable>, s: string, args: seq<string>, end: End, out: string, p: nat)
    requires Produced(w, vs, s, args, end, out, p) && p < |s| && s[p] == '$'
    ensures var (r, q) := Dollar(w, vs, s, p + 1, args);
            if r.Ok? then p < q && Produced(w, vs, s, args, end, out + r.text, q) else Expand(w, vs, s, args, end) == r
  {
    DollarAt(w, vs, s, args, end, p);
    hide Expand, Dollar;
    var (r, q) := Dollar(w, vs, s, p + 1, args);
    if r.Ok? {
      PrependTwice(out, r.text, Expand(w, vs, s[q..], args, end));
    }
  }

  lemma DollarAt(w: World, vs: seq<Variable>, s: string, args: seq<string>, end: End, p: nat)
    requires p < |s| && s[p] == '$'
    ensures var (r, q) := Dollar(w, vs, s, p + 1, args);
            if r.Ok? then p < q <= |s| && Expand(w, vs, s[p..], args, end)
              == Prepend(r.text, Expand(w, vs, s[q..], args, end))
            else Expand(w, vs, s[p..], args, end) == r
  {
    hide Eval, Close;
    var rest := s[p..];
    assert rest[1..] == s[p + 1..];
    if p + 1 < |s| && s[p + 1] == '(' {
      CloseOfRest(s, p, p + 2, 0);
      assert rest[2..] == s[p + 2..];
      var c := Close(s, p + 2, 0);
      if c.Some? {
        assert rest[2..c.value - p] == s[p + 2..c.value] && rest[c.value - p + 1..] == s[c.value + 1..];
      }
    }
  }

  class Preprocessor {
    const w: World
    var vars: seq<Variable>

    constructor (world: World)
      ensures w == world && vars == []
    {
      w, vars := world, [];
    }

    /** __expand_string: expands until the end that is asked for. */
    method ExpandUntil(s: string, args: seq<string>, end: End) returns (r: Result)
      modifies this`vars
      ensures r == Expand(w, old(vars), s, args, end)
      ensures r.Ok? ==> vars == old(vars)
      decreases Budget(vars), |s|, 1, 0
    {
      hide Expand, Eval, Budget, Produced;
      var out, start, p := "", 0, 0;
      ProduceStart(w, vars, s, args, end);
      assert "" + s[0..0] == "";
      while true
        invariant vars == old(vars) && start <= p <= |s|
        invariant Produced(w, vars, s, args, end, out + s[start..p], p)
        decreases |s| - p
      {
        if p < |s| && s[p] == '$' {
          var segment := s[start..p];
          ProduceDollar(w, vars, s, args, end, out + segment, p);
          var expansion, q := ExpandDollar(s, p + 1, args);
          if expansion.Fail? {
            return expansion;
          }
          out := out + segment + expansion.text;
          start, p := q, q;
          assert out + s[start..p] == out;
          continue;
        }
        if p == |s| || IsEnd(end, s[p]) {
          ProduceEnd(w, vars, s, args, end, out + s[start..p], p);
          break;
        }
        ProduceChar(w, vars, s, args, end, out + s[start..p], p);
        assert out + s[start..p + 1] == out + s[start..p] + [s[p]];
        p := p + 1;
      }
      r := Ok(out + s[start..p], s[p..]);
    }

    /** expand_dollar_with_args on the text at p; q is where it stops. */
    method ExpandDollar(s: string, p: nat, args: seq<string>) returns (r: Result, q: nat)
      requires 0 < p <= |s|
      modifies this`vars
      ensures (r, q) == Dollar(w, old(vars), s, p, args) && (r.Ok? ==> p <= q <= |s|)
      ensures r.Ok? ==> vars == old(vars)
      decreases Budget(vars), |s|, 0, 0
    {
      hide Eval, Budget;
      if p == |s| || s[p] != '(' {
        return Ok("$", ""), p;
      }
      var nest := 0;
      q := p + 1;
      while q < |s|
        invariant p + 1 <= q <= |s| && nest >= 0 && Close(s, p + 1, 0) == Close(s, q, nest)
        decreases |s| - q
      {
        if s[q] == '(' {
          nest := nest + 1;
        } else if s[q] == ')' {
          if nest == 0 {
            break;
          }
          nest := nest - 1;
        }
        q := q + 1;
      }
      if q == |s| {
        return Fail(Unterminated(s[p + 1..])), p;
      }
      r := EvalClause(s[p + 1..q], args);
      q := q + 1;
    }

    /** eval_clause: the value of a reference. */
    method EvalClause(s: string, args: seq<string>) returns (r: Result)
      modifies this`vars
      ensures r == Eval(w, old(vars), s, args)
      ensures r.Ok? ==> vars == old(vars)
      decreases Budget(vars), |s|, 3, 0
    {
      var n := WholeNumber(s);
      if 0 < n <= |args| {
        return Ok(args[n - 1], "");
      }
      var argv := new string[MAX_ARGS];
      var argc, failure := Split(s, argv);
      if failure.Some? {
        return Fail(failure.value);
      }
      r := EvalTokens(s, argv, argc, args);
    }

    /** Splits the clause at its top-level commas into the argument vector. */
    method Split(s: string, argv: array<string>) returns (argc: nat, failure: Option<Error>)
      requires argv.Length == MAX_ARGS
      modifies argv
      ensures failure == SplitFailure(Tokens(s, 0))
      ensures failure.None? ==> argc <= MAX_ARGS && argv[..argc] == Tokens(s, 0)
    {
      hide Tokens, Joined, Splitting;
      var prev, p, nest := 0, 0, 0;
      argc := 0;
      SplitStart(s);
      while p < |s|
        invariant argc <= MAX_ARGS && prev <= p <= |s| && Splitting(s, prev, p, nest, argv[..argc])
        decreases |s| - p
      {
        if nest == 0 && s[p] == ',' {
          SplitComma(s, prev, p, argv[..argc]);
          if argc >= MAX_ARGS {
            SplitCount(s, p + 1, p + 1, 0, argv[..argc] + [s[prev..p]]);
            return argc, Some(TooManyArguments);
          }
          argv[argc] := s[prev..p];
          assert argv[..argc + 1] == argv[..argc] + [s[prev..p]];
          argc := argc + 1;
          prev := p + 1;
        } else {
          SplitOther(s, prev, p, nest, argv[..argc]);
          if s[p] == '(' {
            nest := nest + 1;
          } else if s[p] == ')' {
            nest := nest - 1;
          }
        }
        p := p + 1;
      }
      SplitEnd(s, prev, nest, argv[..argc]);
      if argc >= MAX_ARGS {
        return argc, Some(Overrun);
      }
      argv[argc] := s[prev..];
      argc := argc + 1;
      failure := None;
    }

    /** The second half of eval_clause: expands the tokens, shifting the arguments
        to the front, and looks the name up. */
    method EvalTokens(s: string, argv: array<string>, argc: nat, args: seq<string>) returns (r: Result)
      requires argv.Length == MAX_ARGS && 1 <= argc <= MAX_ARGS && argv[..argc] == Tokens(s, 0)
      requires !(0 < WholeNumber(s) <= |args|)
      modifies this`vars, argv
      ensures r == Eval(w, old(vars), s, args)
      ensures r.Ok? ==> vars == old(vars)
      decreases Budget(vars), |s|, 2, 1
    {
      hide Expand, Eval, Budget, Tokens, Apply, ExpandAll, WholeNumber;
      ghost var ts := Tokens(s, 0);
      EvalUnfolds(w, vars, s, args);
      assert argv[0] == ts[0];
      var name := ExpandUntil(argv[0], args, OfString);
      if name.Fail? {
        return name;
      }
      ShiftStart(w, vars, ts, args, |s|);
      var i := 0;
      while i < argc - 1
        invariant 0 <= i <= argc - 1 && vars == old(vars)
        invariant argv[i + 1..argc] == ts[i + 1..]
        invariant ExpandAll(w, vars, ts[1..], args, |s|)
                == PrependValues(argv[..i], ExpandAll(w, vars, ts[i + 1..], args, |s|))
      {
        assert argv[i + 1] == argv[i + 1..argc][0] == ts[i + 1];
        ghost var front := argv[..i];
        ShiftOne(w, vars, ts[i + 1..], args, |s|);
        var value := ExpandUntil(argv[i + 1], args, OfString);
        if value.Fail? {
          return value;
        }
        argv[i] := value.text;
        assert argv[..i + 1] == front + [value.text] && ts[i + 1..][1..] == ts[i + 2..];
        assert argv[i + 2..argc] == ts[i + 2..] by {
          assert ts[i + 1..][1..] == ts[i + 2..];
        }
        PrependValuesTwice(front, [value.text], ExpandAll(w, vars, ts[i + 2..], args, |s|));
        i := i + 1;
      }
      ShiftEnd(w, vars, ts, argv[..i], args, |s|);
      r := ApplyName(name.text, argv[..argc - 1]);
    }

    /** Variables first, then functions, then the environment. */
    method ApplyName(name: string, args: seq<string>) returns (r: Result)
      modifies this`vars
      ensures r == Apply(w, old(vars), name, args)
      ensures r.Ok? ==> vars == old(vars)
      decreases Budget(vars), 0, 2, 0
    {
      hide Budget, ExpandVariable, Builtin, Outside;
      var v := VariableExpand(name, args);
      if v.Some? {
        return v.value;
      }
      var f := Builtin(w, name, args);
      r := if f.Some? then f.value else Outside(w, name, args);
    }

    /** The value of the variable, with its count raised during the expansion. */
    method VariableExpand(name: string, args: seq<string>) returns (r: Option<Result>)
      modifies this`vars
      ensures r == var i := Lookup(old(vars), name);
              if i < |old(vars)| then Some(ExpandVariable(w, old(vars), i, args)) else None
      ensures (r.None? || r.value.Ok?) ==> vars == old(vars)
      decreases Budget(vars), 0, 1, 0
    {
      hide Expand, Budget;
      var i := Lookup(vars, name);
      if i == |vars| {
        return None;
      }
      if |args| == 0 && vars[i].count > 0 {
        return Some(Fail(SelfReference(name)));
      }
      if vars[i].count > 1000 {
        return Some(Fail(TooDeep));
      }
      RaiseCosts(vars, i);
      vars := Raise(vars, i);
      var text: Result;
      if vars[i].flavor == Recursive {
        text := ExpandUntil(vars[i].value, args, OfString);
        if text.Fail? {
          return Some(text);
        }
        ExpandedWhole(w, old(vars), i, args);
      } else {
        text := Ok(vars[i].value, "");
      }
      vars := vars[i := vars[i].(count := vars[i].count - 1)];
      r := Some(text);
    }

    /** An assignment: = (Recursive), := (Simple) or += (append). */
    method VariableAdd(name: string, value: string, flavor: Flavor, append: bool) returns (failure: Option<Error>)
      modifies this`vars
      ensures failure == Assigned(w, old(vars), name, value, flavor, append).1
      ensures failure.None? ==> vars == Assigned(w, old(vars), name, value, flavor, append).0
    {
      hide Expand;
      var i := Lookup(vars, name);
      var kept := append && i < |vars|;
      var flavor' := if kept then vars[i].flavor else if append then Recursive else flavor;
      if i == |vars| {
        vars := vars + [Variable(name, "", flavor', 0)];
      }
      vars := vars[i := vars[i].(flavor := flavor')];
      assert i == |old(vars)| ==> vars == old(vars) + [Variable(name, "", flavor', 0)];
      var text := value;
      if flavor' == Simple {
        var r := ExpandUntil(value, [], OfString);
        if r.Fail? {
          return Some(r.error);
        }
        text := r.text;
      }
      vars := vars[i := vars[i].(value := if kept then vars[i].value + " " + text else text)];
      failure := None;
    }
  }

  /** The list while the text of a variable is being assigned: the variable is
      there and has its flavor. */
  function Prepared(vs: seq<Variable>, name: string, flavor: Flavor): (us: seq<Variable>)
    ensures |us| >= |vs| && Lookup(vs, name) < |us|
    ensures forall j | 0 <= j < |vs| :: us[j] == if j == Lookup(vs, name) then vs[j].(flavor := flavor) else vs[j]
  {
    var i := Lookup(vs, name);
    if i < |vs| then vs[i := vs[i].(flavor := flavor)] else vs + [Variable(name, "", flavor, 0)]
  }

  /** The variables after an assignment, or the message with which it ends. */
  function Assigned(w: World, vs: seq<Variable>, name: string, value: string, flavor: Flavor,
          append: bool): (seq<Variable>, Option<Error>) {
    var i := Lookup(vs, name);
    var kept := append && i < |vs|;
    var flavor' := if kept then vs[i].flavor else if append then Recursive else flavor;
    var us := Prepared(vs, name, flavor');
    if flavor' == Simple then
      match Expand(w, us, value, [], OfString)
      case Fail(e) => (us, Some(e))
      case Ok(text, _) => (us[i := us[i].(value := if kept then us[i].value + " " + text else text)], None)
    else (us[i := us[i].(value := if kept then us[i].value + " " + value else value)], None)
  }

  // ----- what an assignment means for later references -----

  /** A name that is one token: no comma, parenthesis or '$'. */
  predicate IsName(s: string) {
    forall c | c in s :: c !in ",()$"
  }

  /** The text $(name). */
  function Reference(name: string): string { "$(" + name + ")" }

  lemma {:induction false} NameIsToken(s: string)
    requires IsName(s)
    ensures Tokens(s, 0) == [s]
  {
    if s != "" {
      assert s[0] in s;
      NameIsToken(s[1..]);
      assert [s[0]] + s[1..] == s;
    }
  }

  lemma {:induction false} NameCloses(s: string, q: nat, name: string)
    requires q + |name| < |s| && s[q..q + |name|] == name && IsName(name) && s[q + |name|] == ')'
    ensures Close(s, q, 0) == Some(q + |name|)
    decreases |name|
  {
    if name != "" {
      assert s[q..q + |name|][0] == s[q] && name[0] in name;
      assert s[q + 1..q + 1 + |name[1..]|] == name[1..];
      NameCloses(s, q + 1, name[1..]);
    }
  }

  lemma EvalName(w: World, vs: seq<Variable>, name: string)
    requires IsName(name)
    ensures Eval(w, vs, name, []) == Apply(w, vs, name, [])
  {
    NameIsToken(name);
    assert forall i | 0 <= i < |name| :: name[i] in name;
    MacroFacts.PlainText(w, vs, name, []);
    EvalUnfolds(w, vs, name, []);
    hide Eval, Expand, Tokens, Apply;
    assert [name][1..] == [];
  }

  /** A reference without arguments applies its name. */
  lemma ReferenceApplies(w: World, vs: seq<Variable>, name: string)
    requires IsName(name)
    ensures var r := Apply(w, vs, name, []);
            Expand(w, vs, Reference(name), [], OfString) == if r.Ok? then Ok(r.text, "") else r
  {
    var s := Reference(name);
    NameCloses(s, 2, name);
    assert s[2..2 + |name|] == name && s[2 + |name| + 1..] == "";
    EvalName(w, vs, name);
    hide Eval, Apply, Close;
    var r := Apply(w, vs, name, []);
    assert r.Ok? ==> r.text + "" == r.text;
  }

  lemma {:induction false} LookupAppended(vs: seq<Variable>, v: Variable)
    requires Lookup(vs, v.name) == |vs|
    ensures Lookup(vs + [v], v.name) == |vs|
  {
    if vs != [] {
      assert (vs + [v])[1..] == vs[1..] + [v];
      LookupAppended(vs[1..], v);
    }
  }

  lemma {:induction false} LookupUpdated(vs: seq<Variable>, i: nat, v: Variable, name: string)
    requires i < |vs| && v.name == vs[i].name
    ensures Lookup(vs[i := v], name) == Lookup(vs, name)
  {
    if i == 0 {
      assert vs[0 := v][1..] == vs[1..];
    } else {
      assert vs[i := v][1..] == vs[1..][i - 1 := v];
      LookupUpdated(vs[1..], i - 1, v, name);
    }
  }

  /** After any assignment the variable is found; its text is the assigned one,
      after the old one and a space for +=; no other variable has changed. */
  lemma AssignedVariable(w: World, vs: seq<Variable>, name: string, value: string, flavor: Flavor, append: bool)
    requires Assigned(w, vs, name, value, flavor, append).1 == None
    ensures var us := Assigned(w, vs, name, value, flavor, append).0;
            var i := Lookup(vs, name);
            && Lookup(us, name) == i < |us| && us[i].name == name
            && us[i].flavor == (if append then (if i < |vs| then vs[i].flavor else Recursive) else flavor)
            && us[i].count == (if i < |vs| then vs[i].count else 0)
            && (us[i].flavor == Recursive ==>
                us[i].value == if append && i < |vs| then vs[i].value + " " + value else value)
            && (us[i].flavor == Simple ==>
                  var r := Expand(w, Prepared(vs, name, Simple), value, [], OfString);
                  r.Ok? && us[i].value == if append && i < |vs| then vs[i].value + " " + r.text else r.text)
            && (forall j | 0 <= j < |vs| && j != i :: us[j] == vs[j]) && |us| == if i < |vs| then |vs| else |vs| + 1
  {
    hide Expand;
    var us := Assigned(w, vs, name, value, flavor, append).0;
    var i := Lookup(vs, name);
    if i < |vs| {
      assert us == vs[i := us[i]];
      LookupUpdated(vs, i, us[i], name);
    } else {
      assert us == vs + [us[i]];
      LookupAppended(vs, us[i]);
    }
  }

  /** := expands at once: a later reference gives the text that the value had when
      it was assigned, whatever the other variables are by then. */
  lemma SimpleIsImmediate(w: World, vs: seq<Variable>, name: string, value: string, ws: seq<Variable>)
    requires IsName(name) && Assigned(w, vs, name, value, Simple, false).1 == None
    requires var us := Assigned(w, vs, name, value, Simple, false).0;
             Lookup(ws, name) < |ws| && ws[Lookup(ws, name)] == us[Lookup(vs, name)] && ws[Lookup(ws, name)].count == 0
    ensures var text := Expand(w, Prepared(vs, name, Simple), value, [], OfString);
            text.Ok? && Expand(w, ws, Reference(name), [], OfString) == Ok(text.text, "")
  {
    ReferenceApplies(w, ws, name);
    hide Expand;
  }

  /** = expands late: a later reference gives what the value expands to then. */
  lemma RecursiveIsDeferred(w: World, vs: seq<Variable>, name: string, value: string, ws: seq<Variable>)
    requires IsName(name)
    requires var us := Assigned(w, vs, name, value, Recursive, false).0;
             Lookup(ws, name) < |ws| && ws[Lookup(ws, name)] == us[Lookup(vs, name)] && ws[Lookup(ws, name)].count == 0
    ensures var r := Expand(w, Raise(ws, Lookup(ws, name)), value, [], OfString);
            Expand(w, ws, Reference(name), [], OfString) == if r.Ok? then Ok(r.text, "") else r
  {
    ReferenceApplies(w, ws, name);
  }

  /** A text that is expanded to its end leaves nothing. */
  lemma {:induction false} NothingLeft(w: World, vs: seq<Variable>, s: string, args: seq<string>)
    requires Expand(w, vs, s, args, OfString).Ok?
    ensures Expand(w, vs, s, args, OfString).rest == ""
    decreases |s|
  {
    if s != "" {
      if s[0] == '$' && |s| > 1 && s[1] == '(' {
        NothingLeft(w, vs, s[Close(s, 2, 0).value + 1..], args);
      } else {
        NothingLeft(w, vs, s[1..], args);
      }
    }
  }

  lemma ExpandedWhole(w: World, vs: seq<Variable>, i: nat, args: seq<string>)
    requires i < |vs| && vs[i].count <= 1000 && Expand(w, Raise(vs, i), vs[i].value, args, OfString).Ok?
    ensures Expand(w, Raise(vs, i), vs[i].value, args, OfString).rest == ""
  {
    NothingLeft(w, Raise(vs, i), vs[i].value, args);
  }

  function PrependValues(front: seq<string>, r: Values): Values {
    match r
    case Texts(values) => Texts(front + values)
    case Wrong(_) => r
  }

  lemma PrependValuesTwice(a: seq<string>, b: seq<string>, r: Values)
    ensures PrependValues(a, PrependValues(b, r)) == PrependValues(a + b, r)
  {
    if r.Texts? {
      assert a + (b + r.values) == a + b + r.values;
    }
  }

  lemma EvalUnfolds(w: World, vs: seq<Variable>, s: string, args: seq<string>)
    requires !(0 < WholeNumber(s) <= |args|) && |Tokens(s, 0)| <= MAX_ARGS
    ensures var ts := Tokens(s, 0);
            var name := Expand(w, vs, ts[0], args, OfString);
            var values := ExpandAll(w, vs, ts[1..], args, |s|);
            Eval(w, vs, s, args) ==
              if name.Fail? then name else if values.Wrong? then Fail(values.error)
              else Apply(w, vs, name.text, values.values)
  {
  }

  lemma ShiftStart(w: World, vs: seq<Variable>, ts: seq<string>, args: seq<string>, bound: nat)
    requires |ts| >= 1 && forall t | t in ts :: |t| <= bound
    ensures ExpandAll(w, vs, ts[1..], args, bound) == PrependValues([], ExpandAll(w, vs, ts[1..], args, bound))
  {
    var r := ExpandAll(w, vs, ts[1..], args, bound);
    if r.Texts? {
      assert [] + r.values == r.values;
    }
  }

  lemma ShiftOne(w: World, vs: seq<Variable>, ts: seq<string>, args: seq<string>, bound: nat)
    requires ts != [] && forall t | t in ts :: |t| <= bound
    ensures var r := Expand(w, vs, ts[0], args, OfString);
            ExpandAll(w, vs, ts, args, bound) ==
              if r.Fail? then Wrong(r.error) else PrependValues([r.text], ExpandAll(w, vs, ts[1..], args, bound))
  {
  }

  lemma ShiftEnd(w: World, vs: seq<Variable>, ts: seq<string>, values: seq<string>, args: seq<string>, bound: nat)
    requires |ts| >= 1 && forall t | t in ts :: |t| <= bound
    requires ExpandAll(w, vs, ts[1..], args, bound) == PrependValues(values, ExpandAll(w, vs, ts[|ts|..], args, bound))
    ensures ExpandAll(w, vs, ts[1..], args, bound) == Texts(values)
  {
    assert ts[|ts|..] == [] && values + [] == values;
  }
}
