// What holds of macro expansion in scripts/config/preprocess.c for every text.

module MacroFacts {
  import opened Wrappers
  import opened Macros

  // ----- splitting at commas and joining again -----

  function Join(ts: seq<string>): string
    requires |ts| >= 1
  {
    if |ts| == 1 then ts[0] else ts[0] + "," + Join(ts[1..])
  }

  /** Splitting loses nothing. */
  lemma {:induction false} TokensRejoin(s: string, nest: int)
    ensures Join(Tokens(s, nest)) == s
  {
    if s != "" {
      if nest == 0 && s[0] == ',' {
        var ts := Tokens(s[1..], nest);
        TokensRejoin(s[1..], nest);
        assert ([""] + ts)[1..] == ts;
        assert "" + "," + s[1..] == s;
      } else {
        var ts := Tokens(s[1..], Shift(nest, s[0]));
        TokensRejoin(s[1..], Shift(nest, s[0]));
        JoinCons(s[0], ts);
        assert [s[0]] + s[1..] == s;
      }
    }
  }

  lemma JoinCons(c: char, ts: seq<string>)
    requires |ts| >= 1
    ensures Join([[c] + ts[0]] + ts[1..]) == [c] + Join(ts)
  {
    var us := [[c] + ts[0]] + ts[1..];
    assert us[0] == [c] + ts[0] && us[1..] == ts[1..];
    if |ts| > 1 {
      JoinFirst(us);
      JoinFirst(ts);
      hide Join;
      Regroup([c], ts[0], Join(ts[1..]));
    }
  }

  lemma JoinFirst(ts: seq<string>)
    requires |ts| > 1
    ensures Join(ts) == ts[0] + "," + Join(ts[1..])
  {
  }

  lemma Regroup(a: string, b: string, c: string)
    ensures a + b + "," + c == a + (b + "," + c)
  {
  }

  /** A text without a comma at nesting 0 that comes back to nesting 0. */
  predicate IsToken(t: string, nest: int) {
    if t == "" then nest == 0 else !(nest == 0 && t[0] == ',') && IsToken(t[1..], Shift(nest, t[0]))
  }

  lemma {:induction false} TokenFirst(t: string, nest: int, rest: string)
    requires IsToken(t, nest)
    ensures Tokens(t + "," + rest, nest) == [t] + Tokens(rest, 0)
    ensures Tokens(t, nest) == [t]
    decreases |t|
  {
    if t == "" {
      assert (t + "," + rest)[1..] == rest;
    } else {
      TokenFirst(t[1..], Shift(nest, t[0]), rest);
      Regroup([t[0]], t[1..], rest);
      assert [t[0]] + t[1..] == t;
      TokensCons(t[0], t[1..] + "," + rest, nest);
      TokensCons(t[0], t[1..], nest);
      hide Tokens;
      assert ([t[1..]] + Tokens(rest, 0))[1..] == Tokens(rest, 0);
    }
  }

  lemma TokensCons(c: char, s: string, nest: int)
    requires !(nest == 0 && c == ',')
    ensures Tokens([c] + s, nest) == [[c] + Tokens(s, Shift(nest, c))[0]] + Tokens(s, Shift(nest, c))[1..]
  {
    assert ([c] + s)[1..] == s;
  }

  /** Nothing else is split: tokens that were joined come apart again. */
  lemma {:induction false} JoinThenTokens(ts: seq<string>)
    requires |ts| >= 1 && forall t | t in ts :: IsToken(t, 0)
    ensures Tokens(Join(ts), 0) == ts
  {
    if |ts| == 1 {
      TokenFirst(ts[0], 0, "");
    } else {
      TokenFirst(ts[0], 0, Join(ts[1..]));
      JoinThenTokens(ts[1..]);
      JoinFirst(ts);
      hide Join, Tokens;
      assert ts == [ts[0]] + ts[1..];
    }
  }

  function TopCommas(s: string, nest: int): nat {
    if s == "" then 0 else (if nest == 0 && s[0] == ',' then 1 else 0) + TopCommas(s[1..], Shift(nest, s[0]))
  }

  lemma {:induction false} TokensAreCounted(s: string, nest: int)
    ensures |Tokens(s, nest)| == 1 + TopCommas(s, nest)
  {
    if s != "" {
      TokensAreCounted(s[1..], Shift(nest, s[0]));
    }
  }

  /** Exactly up to 15 commas fit the argument vector.  With 17 or more the program
      stops; with 16 the last piece is stored behind the vector. */
  lemma SixteenCommas(w: World, vs: seq<Variable>, s: string, args: seq<string>)
    ensures SplitFailure(Tokens(s, 0)) == None <==> TopCommas(s, 0) <= 15
    ensures SplitFailure(Tokens(s, 0)) == Some(Overrun) <==> TopCommas(s, 0) == 16
    ensures SplitFailure(Tokens(s, 0)) == Some(TooManyArguments) <==> TopCommas(s, 0) >= 17
    ensures !(0 < WholeNumber(s) <= |args|) && TopCommas(s, 0) >= 16 ==>
              Eval(w, vs, s, args) == Fail(if TopCommas(s, 0) == 16 then Overrun else TooManyArguments)
  {
    TokensAreCounted(s, 0);
  }

  lemma SixteenCommasExist()
    ensures TopCommas(",,,,,,,,,,,,,,,,", 0) == 16
  {
    var commas := ",,,,,,,,,,,,,,,,";
    assert commas[12..] == ",,,,";
    FourCommas("");
    FourCommas(",,,,");
    FourCommas(",,,,,,,,");
    FourCommas(",,,,,,,,,,,,");
  }

  lemma FourCommas(rest: string)
    ensures TopCommas(",,,," + rest, 0) == 4 + TopCommas(rest, 0)
  {
    OneComma(rest);
    OneComma("," + rest);
    OneComma(",," + rest);
    OneComma(",,," + rest);
    hide TopCommas;
    assert "," + (",,," + rest) == ",,,," + rest
        && "," + (",," + rest) == ",,," + rest && "," + ("," + rest) == ",," + rest;
  }

  lemma OneComma(rest: string)
    ensures TopCommas("," + rest, 0) == 1 + TopCommas(rest, 0)
  {
    assert ("," + rest)[1..] == rest;
  }

  // ----- the matching parenthesis -----

  /** The nesting after a text. */
  function Nesting(t: string, nest: int): int {
    if t == "" then nest else Nesting(t[1..], Shift(nest, t[0]))
  }

  /** The nesting never falls below 0. */
  predicate NeverBelow(t: string, nest: int) {
    nest >= 0 && (t == "" || NeverBelow(t[1..], Shift(nest, t[0])))
  }

  /** A closing parenthesis is found exactly where the text before it is balanced;
      it is the first one of that kind. */
  lemma {:induction false} CloseMatches(s: string, q: nat, nest: nat, e: nat)
    requires q <= |s|
    ensures Close(s, q, nest) == Some(e) <==>
            q <= e < |s| && s[e] == ')' && NeverBelow(s[q..e], nest) && Nesting(s[q..e], nest) == 0
    decreases |s| - q
  {
    if q < |s| {
      if q < e < |s| {
        assert s[q..e][0] == s[q] && s[q..e][1..] == s[q + 1..e];
      }
      if s[q] != ')' || nest > 0 {
        CloseMatches(s, q + 1, Shift(nest, s[q]), e);
      }
    }
  }

  // ----- texts without references, and texts one after the other -----

  lemma {:induction false} PlainText(w: World, vs: seq<Variable>, s: string, args: seq<string>)
    requires forall i | 0 <= i < |s| :: s[i] != '$'
    ensures Expand(w, vs, s, args, OfString) == Ok(s, "")
    decreases |s|
  {
    if s != "" {
      PlainText(w, vs, s[1..], args);
      assert [s[0]] + s[1..] == s;
    }
  }

  /** Every reference is closed, and there is no single '$' at the end. */
  predicate Complete(s: string)
    decreases |s|
  {
    if s == "" then true
    else if s[0] != '$' then Complete(s[1..])
    else if |s| == 1 then false
    else if s[1] != '(' then Complete(s[1..])
    else Close(s, 2, 0).Some? && Complete(s[Close(s, 2, 0).value + 1..])
  }

  lemma {:induction false} CloseInFront(a: string, b: string, q: nat, nest: nat)
    requires q <= |a| && Close(a, q, nest).Some?
    ensures Close(a + b, q, nest) == Close(a, q, nest)
    decreases |a| - q
  {
    if a[q] != ')' || nest > 0 {
      CloseInFront(a, b, q + 1, Shift(nest, a[q]));
    }
  }

  function Then(r: Result, next: Result): Result {
    match r
    case Ok(t, _) => Prepend(t, next)
    case Fail(_) => r
  }

  lemma PrependThen(t: string, r: Result, next: Result)
    ensures Then(Prepend(t, r), next) == Prepend(t, Then(r, next))
  {
    if r.Ok? && next.Ok? {
      assert t + r.text + next.text == t + (r.text + next.text);
    }
  }

  /** Expansion goes from left to right: complete texts expand independently of
      what follows them. */
  lemma {:induction false} ExpandConcat(w: World, vs: seq<Variable>, a: string, b: string, args: seq<string>)
    requires Complete(a)
    ensures Expand(w, vs, a + b, args, OfString)
            == Then(Expand(w, vs, a, args, OfString), Expand(w, vs, b, args, OfString))
    decreases |a|
  {
    var next := Expand(w, vs, b, args, OfString);
    if a == "" {
      assert a + b == b;
      assert Prepend("", next) == next;
    } else if a[0] == '$' && a[1] == '(' {
      CloseInFront(a, b, 2, 0);
      var q := Close(a, 2, 0).value;
      assert (a + b)[q + 1..] == a[q + 1..] + b && (a + b)[2..q] == a[2..q];
      ExpandConcat(w, vs, a[q + 1..], b, args);
      hide Eval, Close;
      var r := Eval(w, vs, a[2..q], args);
      if r.Ok? {
        PrependThen(r.text, Expand(w, vs, a[q + 1..], args, OfString), next);
      }
    } else {
      assert (a + b)[1..] == a[1..] + b;
      ExpandConcat(w, vs, a[1..], b, args);
      PrependThen([a[0]], Expand(w, vs, a[1..], args, OfString), next);
    }
  }

  // ----- the counts only guard -----

  /** The same variables with counts that are no higher. */
  ghost predicate NoHigher(us: seq<Variable>, vs: seq<Variable>) {
    |us| == |vs| && forall i | 0 <= i < |vs| :: us[i] == vs[i].(count := us[i].count) && us[i].count <= vs[i].count
  }

  lemma {:induction false} SameLookup(us: seq<Variable>, vs: seq<Variable>, name: string)
    requires NoHigher(us, vs)
    ensures Lookup(us, name) == Lookup(vs, name)
  {
    if vs != [] {
      assert us[0].name == vs[0].name;
      assert NoHigher(us[1..], vs[1..]);
      SameLookup(us[1..], vs[1..], name);
    }
  }

  /** A text that expands does so to the same text with lower counts: the counts
      stop expansions, but never change what they give. */
  lemma {:induction false} ExpandNoHigher(w: World, us: seq<Variable>, vs: seq<Variable>, s: string,
          args: seq<string>, end: End)
    requires NoHigher(us, vs) && Expand(w, vs, s, args, end).Ok?
    ensures Expand(w, us, s, args, end) == Expand(w, vs, s, args, end)
    decreases Budget(vs), |s|, 1, 0
  {
    if s != "" {
      if s[0] == '$' && |s| > 1 && s[1] == '(' {
        var q := Close(s, 2, 0).value;
        EvalNoHigher(w, us, vs, s[2..q], args);
        ExpandNoHigher(w, us, vs, s[q + 1..], args, end);
      } else if s[0] == '$' || !IsEnd(end, s[0]) {
        ExpandNoHigher(w, us, vs, s[1..], args, end);
      }
    }
  }

  lemma {:induction false} EvalNoHigher(w: World, us: seq<Variable>, vs: seq<Variable>, s: string, args: seq<string>)
    requires NoHigher(us, vs) && Eval(w, vs, s, args).Ok?
    ensures Eval(w, us, s, args) == Eval(w, vs, s, args)
    decreases Budget(vs), |s|, 3, 0
  {
    if !(0 < WholeNumber(s) <= |args|) {
      var ts := Tokens(s, 0);
      ExpandNoHigher(w, us, vs, ts[0], args, OfString);
      ExpandAllNoHigher(w, us, vs, ts[1..], args, |s|);
      ApplyNoHigher(w, us, vs, Expand(w, vs, ts[0], args, OfString).text, ExpandAll(w, vs, ts[1..], args, |s|).values);
    }
  }

  lemma {:induction false} ExpandAllNoHigher(w: World, us: seq<Variable>, vs: seq<Variable>, ts: seq<string>,
          args: seq<string>, bound: nat)
    requires NoHigher(us, vs) && (forall t | t in ts :: |t| <= bound) && ExpandAll(w, vs, ts, args, bound).Texts?
    ensures ExpandAll(w, us, ts, args, bound) == ExpandAll(w, vs, ts, args, bound)
    decreases Budget(vs), bound, 2, |ts|
  {
    if ts != [] {
      ExpandNoHigher(w, us, vs, ts[0], args, OfString);
      ExpandAllNoHigher(w, us, vs, ts[1..], args, bound);
    }
  }

  lemma {:induction false} ApplyNoHigher(w: World, us: seq<Variable>,
          vs: seq<Variable>, name: string, args: seq<string>)
    requires NoHigher(us, vs) && Apply(w, vs, name, args).Ok?
    ensures Apply(w, us, name, args) == Apply(w, vs, name, args)
    decreases Budget(vs), 0, 1, 1
  {
    SameLookup(us, vs, name);
    var i := Lookup(vs, name);
    if i < |vs| && vs[i].flavor == Recursive {
      RaiseCosts(vs, i);
      ExpandNoHigher(w, Raise(us, i), Raise(vs, i), vs[i].value, args, OfString);
    }
  }
}
