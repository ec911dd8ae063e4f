// The check for recursive dependencies over declarations, in place
// (sym_check_expr_deps, sym_check_sym_deps, sym_check_choice_deps and
// sym_check_deps in scripts/config/symbol.c).

module DependencyCheck {
  import opened Wrappers
  import opened Exprs
  import opened ExprCompare
  import opened Symbols
  import opened DependencyGraph
  import opened DependencyOrder

  function RefsOfSymbol(s: Symbol): seq<nat> {
    if s.Config? then [s.id] else []
  }

  function RefsOf(e: Expr): seq<nat> {
    match e
    case Sym(s) => RefsOfSymbol(s)
    case Comp(_, l, r) => RefsOfSymbol(l) + RefsOfSymbol(r)
    case Not(x) => RefsOf(x)
    case Bin(_, l, r) => RefsOf(l) + RefsOf(r)
  }

  function RefsOfMaybe(e: MaybeExpr): seq<nat> {
    if e.None? then [] else RefsOf(e.value)
  }

  /** The defaults of a choice name members and are not dependencies. */
  function RefsOfProps(props: seq<Property>, isChoice: bool): seq<nat> {
    if props == [] then []
    else
      RefsOfMaybe(props[0].visible)
      + (if props[0].Default? && !isChoice then RefsOf(props[0].expr) else [])
      + RefsOfProps(props[1..], isChoice)
  }

  function RefsOfDecl(d: SymbolDecl, isChoice: bool): seq<nat> {
    RefsOfMaybe(d.dirDep) + RefsOfMaybe(d.revDep) + RefsOfMaybe(d.implied) + RefsOfProps(d.props, isChoice)
  }

  function GraphOf(decls: seq<SymbolDecl>, roles: seq<Role>, strict: bool): Graph
    requires |roles| == |decls|
  {
    Graph(seq(|decls|, i requires 0 <= i < |decls| => RefsOfDecl(decls[i], roles[i].Choice?)), roles, strict)
  }

  // ----- visiting a list of references in pieces -----

  lemma {:induction false} RefsInPieces(g: Graph, k: Marks, a: seq<nat>, b: seq<nat>)
    requires IsGraph(g) && InRange(g, a) && InRange(g, b)
    ensures var (r, k') := CheckRefs(g, k, a);
            CheckRefs(g, k, a + b) == if r.Some? then (r, k') else CheckRefs(g, k', b)
    decreases |a|
  {
    if a == [] {
      assert a + b == b;
    } else {
      assert (a + b)[1..] == a[1..] + b;
      var (r, k') := CheckDeps(g, k, a[0]);
      RefsInPieces(g, k', a[1..], b);
    }
  }

  lemma OneRef(g: Graph, k: Marks, s: nat)
    requires IsGraph(g) && s < |g.refs|
    ensures CheckRefs(g, k, [s]) == CheckDeps(g, k, s)
  {
    assert CheckRefs(g, CheckDeps(g, k, s).1, []) == (None, CheckDeps(g, k, s).1);
  }

  class DependencyChecker {
    const decls: seq<SymbolDecl>
    const roles: seq<Role>
    const recursiveIsError: bool
    /** The symbols that carry SYMBOL_CHECK and SYMBOL_CHECKED. */
    var check: set<nat>
    var checked: set<nat>

    ghost predicate Valid() {
      |roles| == |decls| && IsGraph(G())
    }

    ghost function G(): Graph
      requires |roles| == |decls|
    {
      GraphOf(decls, roles, recursiveIsError)
    }

    ghost function Now(): Marks
      reads this
    {
      Marks(check, checked)
    }

    constructor (decls: seq<SymbolDecl>, roles: seq<Role>, recursiveIsError: bool)
      requires |roles| == |decls| && IsGraph(GraphOf(decls, roles, recursiveIsError))
      ensures Valid() && Now() == UNMARKED
      ensures this.decls == decls && this.roles == roles && this.recursiveIsError == recursiveIsError
    {
      this.decls, this.roles, this.recursiveIsError := decls, roles, recursiveIsError;
      check, checked := {}, {};
    }

    method CheckSymbol(s: Symbol) returns (r: Option<nat>)
      requires Valid() && InRange(G(), RefsOfSymbol(s))
      modifies this
      ensures (r, Now()) == CheckRefs(G(), old(Now()), RefsOfSymbol(s))
      decreases All(G()) - checked, 3
    {
      r := None;
      if s.Config? {
        assert RefsOfSymbol(s)[0] == s.id;
        OneRef(G(), Now(), s.id);
        r := CheckDeps(s.id);
      }
    }

    /** sym_check_expr_deps */
    method CheckExprDeps(e: Expr) returns (r: Option<nat>)
      requires Valid() && InRange(G(), RefsOf(e))
      modifies this
      ensures (r, Now()) == CheckRefs(G(), old(Now()), RefsOf(e))
      decreases All(G()) - checked, 4, e
    {
      match e
      case Sym(s) => r := CheckSymbol(s);
      case Not(x) => r := CheckExprDeps(x);
      case Comp(_, l, rgt) =>
        Split(RefsOfSymbol(l), RefsOfSymbol(rgt));
        r := CheckSymbol(l);
        if r.None? {
          r := CheckSymbol(rgt);
        }
      case Bin(_, l, rgt) =>
        Split(RefsOf(l), RefsOf(rgt));
        r := CheckExprDeps(l);
        if r.None? {
          r := CheckExprDeps(rgt);
        }
    }

    lemma Split(a: seq<nat>, b: seq<nat>)
      requires Valid() && InRange(G(), a + b)
      ensures InRange(G(), a) && InRange(G(), b)
      ensures forall k: Marks {:trigger CheckRefs(G(), k, a)} ::
                CheckRefs(G(), k, a + b) ==
                (if CheckRefs(G(), k, a).0.Some? then CheckRefs(G(), k, a)
                 else CheckRefs(G(), CheckRefs(G(), k, a).1, b))
    {
      assert (a + b)[..|a|] == a && (a + b)[|a|..] == b;
      forall k: Marks
        ensures CheckRefs(G(), k, a + b) ==
                (if CheckRefs(G(), k, a).0.Some? then CheckRefs(G(), k, a)
                 else CheckRefs(G(), CheckRefs(G(), k, a).1, b))
      {
        RefsInPieces(G(), k, a, b);
      }
    }

    method CheckMaybeDeps(e: MaybeExpr) returns (r: Option<nat>)
      requires Valid() && InRange(G(), RefsOfMaybe(e))
      modifies this
      ensures (r, Now()) == CheckRefs(G(), old(Now()), RefsOfMaybe(e))
      decreases All(G()) - checked, 5
    {
      r := None;
      if e.Some? {
        r := CheckExprDeps(e.value);
      }
    }

    /** The loop over the properties in sym_check_sym_deps. */
    method CheckProps(props: seq<Property>, isChoice: bool) returns (r: Option<nat>)
      requires Valid() && InRange(G(), RefsOfProps(props, isChoice))
      modifies this
      ensures (r, Now()) == CheckRefs(G(), old(Now()), RefsOfProps(props, isChoice))
      decreases All(G()) - checked, 6
    {
      r := None;
      var p := 0;
      while p < |props|
        invariant p <= |props| && old(checked) <= checked && r.None?
        invariant InRange(G(), RefsOfProps(props[p..], isChoice))
        invariant CheckRefs(G(), old(Now()), RefsOfProps(props, isChoice)) ==
                  CheckRefs(G(), Now(), RefsOfProps(props[p..], isChoice))
      {
        var prop := props[p];
        ghost var visible := RefsOfMaybe(prop.visible);
        ghost var expr := if prop.Default? && !isChoice then RefsOf(prop.expr) else [];
        assert props[p..][1..] == props[p + 1..];
        Split(visible + expr, RefsOfProps(props[p + 1..], isChoice));
        Split(visible, expr);
        r := CheckMaybeDeps(prop.visible);
        if r.Some? {
          return;
        }
        if prop.Default? && !isChoice {
          r := CheckExprDeps(prop.expr);
          if r.Some? {
            return;
          }
        }
        p := p + 1;
      }
    }

    /** sym_check_sym_deps */
    method CheckSymDeps(i: nat) returns (r: Option<nat>)
      requires Valid() && i < |decls|
      modifies this
      ensures (r, Now()) == CheckRefs(G(), old(Now()), G().refs[i])
      decreases All(G()) - checked, 7
    {
      var d := decls[i];
      ghost var props := RefsOfProps(d.props, roles[i].Choice?);
      assert G().refs[i] == RefsOfDecl(d, roles[i].Choice?);
      Split(RefsOfMaybe(d.dirDep) + RefsOfMaybe(d.revDep) + RefsOfMaybe(d.implied), props);
      Split(RefsOfMaybe(d.dirDep) + RefsOfMaybe(d.revDep), RefsOfMaybe(d.implied));
      Split(RefsOfMaybe(d.dirDep), RefsOfMaybe(d.revDep));
      r := CheckMaybeDeps(d.dirDep);
      if r.None? {
        r := CheckMaybeDeps(d.revDep);
      }
      if r.None? {
        r := CheckMaybeDeps(d.implied);
      }
      if r.None? {
        r := CheckProps(d.props, roles[i].Choice?);
      }
    }

    /** sym_check_choice_deps */
    method CheckChoiceDeps(c: nat) returns (r: Option<nat>)
      requires Valid() && c < |decls| && roles[c].Choice? && c !in checked
      modifies this
      ensures (r, Now()) == CheckChoice(G(), old(Now()), c)
      decreases All(G()) - checked, 1
    {
      hide CheckRefs, RefsOfDecl;
      var ms := roles[c].members;
      check, checked := check + SetOf(ms) + {c}, checked + SetOf(ms) + {c};
      assert G().refs[c] == RefsOfDecl(decls[c], true) && c in All(G());
      r := CheckSymDeps(c);
      check := check - {c};
      if r.None? {
        var m := 0;
        ghost var before := Now();
        while m < |ms|
          invariant m <= |ms| && before.checked <= checked && r.None?
          invariant CheckMembers(G(), before, ms) == CheckMembers(G(), Now(), ms[m..])
        {
          assert ms[m..][1..] == ms[m + 1..];
          r := CheckSymDeps(ms[m]);
          if r.Some? {
            break;
          }
          m := m + 1;
        }
        assert (r, Now()) == CheckMembers(G(), before, ms);
      }
      check := check - SetOf(ms);
      if r.Some? && r.value in ms {
        r := Some(c);
      }
    }

    /** sym_check_deps */
    method CheckDeps(s: nat) returns (r: Option<nat>)
      requires Valid() && s < |decls|
      modifies this
      ensures (r, Now()) == DependencyGraph.CheckDeps(G(), old(Now()), s)
      decreases All(G()) - checked, 2, if roles[s].Member? then 1 else 0
    {
      if s in check {
        return Some(s);
      }
      if s in checked {
        return None;
      }
      match roles[s] {
        case Member(c) =>
          r := CheckDeps(c);
        case Choice(_) =>
          r := CheckChoiceDeps(s);
        case Plain =>
          check, checked := check + {s}, checked + {s};
          assert G().refs[s] == RefsOfDecl(decls[s], false) && s in All(G());
          r := CheckSymDeps(s);
          check := check - {s};
      }
      if !recursiveIsError && r == Some(s) {
        r := None;
      }
    }

    /** Checks every symbol, as the end of parsing does, and counts the errors. */
    method CheckAllSymbols() returns (errors: nat)
      requires Valid() && Now() == UNMARKED
      modifies this
      ensures errors == CheckAll(G(), UNMARKED, Upto(|decls|))
    {
      errors := 0;
      assert Upto(|decls|)[0..] == Upto(|decls|);
      for s := 0 to |decls|
        invariant CheckAll(G(), UNMARKED, Upto(|decls|)) == errors + CheckAll(G(), Now(), Upto(|decls|)[s..])
      {
        assert Upto(|decls|)[s..][1..] == Upto(|decls|)[s + 1..];
        var r := CheckDeps(s);
        if r.Some? {
          errors := errors + 1;
        }
      }
    }
  }

  function Upto(n: nat): (s: seq<nat>)
    ensures |s| == n && forall i | 0 <= i < n :: s[i] == i
  {
    seq(n, i => i)
  }

  // ----- a checked configuration without choices can be evaluated -----

  lemma {:induction false} RefsAreSymbols(e: Expr, s: Symbol)
    requires s in SymbolsOf(e) && s.Config?
    ensures s.id in RefsOf(e)
  {
    match e
    case Not(x) => RefsAreSymbols(x, s);
    case Bin(_, l, r) =>
      if s in SymbolsOf(l) {
        RefsAreSymbols(l, s);
      } else {
        RefsAreSymbols(r, s);
      }
    case _ =>
  }

  lemma {:induction false} RefsOfPropsAreSymbols(props: seq<Property>, s: Symbol)
    requires s in SymbolsOfProps(props) && s.Config?
    ensures s.id in RefsOfProps(props, false)
  {
    var p := props[0];
    if p.visible.Some? && s in SymbolsOf(p.visible.value) {
      RefsAreSymbols(p.visible.value, s);
    } else if p.Default? && s in SymbolsOf(p.expr) {
      RefsAreSymbols(p.expr, s);
    } else {
      RefsOfPropsAreSymbols(props[1..], s);
    }
  }

  lemma RefsOfDeclAreSymbols(d: SymbolDecl, s: Symbol)
    requires s in SymbolsOfDecl(d) && s.Config?
    ensures s.id in RefsOfDecl(d, false)
  {
    if d.dirDep.Some? && s in SymbolsOf(d.dirDep.value) {
      RefsAreSymbols(d.dirDep.value, s);
    } else if d.revDep.Some? && s in SymbolsOf(d.revDep.value) {
      RefsAreSymbols(d.revDep.value, s);
    } else if d.implied.Some? && s in SymbolsOf(d.implied.value) {
      RefsAreSymbols(d.implied.value, s);
    } else {
      RefsOfPropsAreSymbols(d.props, s);
    }
  }

  /** The check follows the mention of s in the declaration: anywhere in its
      conditions, and in the values of defaults unless it is a choice. */
  ghost predicate Follows(d: SymbolDecl, isChoice: bool, s: Symbol) {
    || s in SymbolsOfMaybe(d.dirDep) || s in SymbolsOfMaybe(d.revDep) || s in SymbolsOfMaybe(d.implied)
    || exists k :: 0 <= k < |d.props| && FollowsProp(d.props[k], isChoice, s)
  }

  predicate FollowsProp(p: Property, isChoice: bool, s: Symbol) {
    s in SymbolsOfMaybe(p.visible) || (!isChoice && p.Default? && s in SymbolsOf(p.expr))
  }

  ghost predicate IsRef(j: nat, syms: set<Symbol>) {
    exists s :: s in syms && s.Config? && s.id == j
  }

  lemma {:induction false} RefsOfExactly(e: Expr, j: nat)
    ensures j in RefsOf(e) <==> IsRef(j, SymbolsOf(e))
  {
    match e
    case Sym(s) => assert IsRef(j, SymbolsOf(e)) <==> s.Config? && s.id == j;
    case Comp(_, l, r) =>
      assert l in SymbolsOf(e) && r in SymbolsOf(e);
    case Not(x) => RefsOfExactly(x, j);
    case Bin(_, l, r) =>
      RefsOfExactly(l, j);
      RefsOfExactly(r, j);
      RefOfUnion(j, SymbolsOf(l), SymbolsOf(r));
  }

  lemma RefOfUnion(j: nat, a: set<Symbol>, b: set<Symbol>)
    ensures IsRef(j, a + b) <==> IsRef(j, a) || IsRef(j, b)
  {
    if IsRef(j, a) {
      var s :| s in a && s.Config? && s.id == j;
      assert s in a + b;
    }
    if IsRef(j, b) {
      var s :| s in b && s.Config? && s.id == j;
      assert s in a + b;
    }
  }

  lemma RefsOfMaybeExactly(e: MaybeExpr, j: nat)
    ensures j in RefsOfMaybe(e) <==> IsRef(j, SymbolsOfMaybe(e))
  {
    if e.Some? {
      RefsOfExactly(e.value, j);
    }
  }

  ghost predicate RefOfProp(j: nat, p: Property, isChoice: bool) {
    exists s :: FollowsProp(p, isChoice, s) && s.Config? && s.id == j
  }

  lemma RefsOfPropExactly(p: Property, isChoice: bool, j: nat)
    ensures (j in RefsOfMaybe(p.visible) || (p.Default? && !isChoice && j in RefsOf(p.expr)))
            <==> RefOfProp(j, p, isChoice)
  {
    RefsOfMaybeExactly(p.visible, j);
    if IsRef(j, SymbolsOfMaybe(p.visible)) {
      var s :| s in SymbolsOfMaybe(p.visible) && s.Config? && s.id == j;
      assert FollowsProp(p, isChoice, s);
    }
    if p.Default? {
      RefsOfExactly(p.expr, j);
      if !isChoice && IsRef(j, SymbolsOf(p.expr)) {
        var s :| s in SymbolsOf(p.expr) && s.Config? && s.id == j;
        assert FollowsProp(p, isChoice, s);
      }
    }
    hide RefsOf, SymbolsOf;
  }

  lemma {:induction false} RefsOfPropsExactly(props: seq<Property>, isChoice: bool, j: nat)
    ensures j in RefsOfProps(props, isChoice) <==> exists k :: 0 <= k < |props| && RefOfProp(j, props[k], isChoice)
  {
    if props != [] {
      RefsOfPropExactly(props[0], isChoice, j);
      RefsOfPropsExactly(props[1..], isChoice, j);
      hide RefOfProp, RefsOf, RefsOfMaybe;
      if k :| 0 <= k < |props[1..]| && RefOfProp(j, props[1..][k], isChoice) {
        assert RefOfProp(j, props[k + 1], isChoice);
      }
      if k :| 0 < k < |props| && RefOfProp(j, props[k], isChoice) {
        assert RefOfProp(j, props[1..][k - 1], isChoice);
      }
    }
  }

  /** The graph holds exactly the mentions that the check follows. */
  lemma GraphHoldsMentions(decls: seq<SymbolDecl>, roles: seq<Role>, strict: bool, i: nat, j: nat)
    requires |roles| == |decls| && i < |decls|
    ensures j in GraphOf(decls, roles, strict).refs[i]
            <==> exists s :: Follows(decls[i], roles[i].Choice?, s) && s.Config? && s.id == j
  {
    var d, isChoice := decls[i], roles[i].Choice?;
    assert GraphOf(decls, roles, strict).refs[i] == RefsOfDecl(d, isChoice);
    RefsOfMaybeExactly(d.dirDep, j);
    RefsOfMaybeExactly(d.revDep, j);
    RefsOfMaybeExactly(d.implied, j);
    RefsOfPropsExactly(d.props, isChoice, j);
    hide RefsOfMaybe, RefsOfProps, SymbolsOfMaybe, GraphOf, FollowsProp;
    if j in RefsOfDecl(d, isChoice) {
      FollowedRef(d, isChoice, j);
    }
    if s :| Follows(d, isChoice, s) && s.Config? && s.id == j {
      if k :| 0 <= k < |d.props| && FollowsProp(d.props[k], isChoice, s) {
        assert RefOfProp(j, d.props[k], isChoice);
      } else {
        assert IsRef(j, SymbolsOfMaybe(d.dirDep))
            || IsRef(j, SymbolsOfMaybe(d.revDep)) || IsRef(j, SymbolsOfMaybe(d.implied));
      }
    }
  }

  lemma FollowedRef(d: SymbolDecl, isChoice: bool, j: nat)
    requires IsRef(j, SymbolsOfMaybe(d.dirDep))
            || IsRef(j, SymbolsOfMaybe(d.revDep)) || IsRef(j, SymbolsOfMaybe(d.implied))
          || exists k :: 0 <= k < |d.props| && RefOfProp(j, d.props[k], isChoice)
    ensures exists s :: Follows(d, isChoice, s) && s.Config? && s.id == j
  {
    hide SymbolsOfMaybe, FollowsProp;
    if k :| 0 <= k < |d.props| && RefOfProp(j, d.props[k], isChoice) {
      var s :| FollowsProp(d.props[k], isChoice, s) && s.Config? && s.id == j;
      assert Follows(d, isChoice, s);
    } else {
      var s :| (s in SymbolsOfMaybe(d.dirDep) || s in SymbolsOfMaybe(d.revDep) || s in SymbolsOfMaybe(d.implied))
        && s.Config? && s.id == j;
      assert Follows(d, isChoice, s);
    }
  }

  lemma {:induction false} ContainedIsRead(e: Expr, s: Symbol)
    requires ContainsSymbol(e, s)
    ensures s in SymbolsOf(e)
  {
    match e
    case Not(x) => ContainedIsRead(x, s);
    case Bin(_, l, r) =>
      if ContainsSymbol(l, s) {
        ContainedIsRead(l, s);
      } else {
        ContainedIsRead(r, s);
      }
    case _ =>
  }

  /** An entry goes below that of a symbol only if its prompt or else its dependencies
      contain the symbol (menu_finalize), and so the symbol comes along with whatever
      else the entry mentions. */
  lemma EntryBelowMentions(decls: seq<SymbolDecl>, roles: seq<Role>, i: nat, s: Symbol)
    requires |roles| == |decls| && i < |decls| && !roles[i].Choice? && s.Config?
    requires MaybeContains(decls[i].dirDep, s)
          || exists k :: 0 <= k < |decls[i].props| && MaybeContains(decls[i].props[k].visible, s)
    ensures s.id in GraphOf(decls, roles, true).refs[i]
  {
    if MaybeContains(decls[i].dirDep, s) {
      ContainedIsRead(decls[i].dirDep.value, s);
    } else {
      var k :| 0 <= k < |decls[i].props| && MaybeContains(decls[i].props[k].visible, s);
      ContainedIsRead(decls[i].props[k].visible.value, s);
      PropIsIncluded(decls[i].props, k);
    }
    RefsOfDeclAreSymbols(decls[i], s);
  }

  predicate MaybeContains(e: MaybeExpr, s: Symbol) {
    e.Some? && ContainsSymbol(e.value, s)
  }

  /** Every mention of a symbol carries the type the symbol is declared with. */
  ghost predicate TypesAgree(decls: seq<SymbolDecl>) {
    forall i | 0 <= i < |decls| :: forall s | s in SymbolsOfDecl(decls[i]) && s.Config? ::
      s.id < |decls| && s.stype == decls[s.id].stype
  }

  /** If the check reports nothing, the finishing order is an evaluation order
      for the memoised evaluator. */
  lemma CheckedMeansRanked(decls: seq<SymbolDecl>, roles: seq<Role>) returns (rank: seq<nat>)
    requires |roles| == |decls| && (forall i | 0 <= i < |roles| :: roles[i] == Plain) && TypesAgree(decls)
    requires IsGraph(GraphOf(decls, roles, true)) && CheckAll(GraphOf(decls, roles, true), UNMARKED, Upto(|decls|)) == 0
    ensures Ranked(decls, rank)
  {
    var g := GraphOf(decls, roles, true);
    forall i | 0 <= i < |g.refs|
      ensures i in Upto(|decls|)
    {
      assert Upto(|decls|)[i] == i;
    }
    var ord := FinishOrder(g, Upto(|decls|));
    assert forall i | 0 <= i < |decls| :: NodeOf(g, i) == One(i) && One(i) in ord;
    rank := seq(|decls|, i requires 0 <= i < |decls| => First(ord, One(i)));
    forall i | 0 <= i < |decls|
      ensures RankedBelow(decls, rank, SymbolsOfDecl(decls[i]), rank[i])
    {
      forall s | s in SymbolsOfDecl(decls[i]) && s.Config?
        ensures s.id < |decls| && rank[s.id] < rank[i] && s.stype == decls[s.id].stype
      {
        RefsOfDeclAreSymbols(decls[i], s);
        assert g.refs[i] == RefsOfDecl(decls[i], false);
        assert NodeOf(g, s.id) in Targets(g, One(i));
        FirstIsLower(g, ord, One(i), One(s.id));
      }
    }
  }

  // ----- a cycle that the check can miss -----

  /** The symbols of the configuration

          choice
            prompt "which"
          config A
            bool "a"
            depends on X
          if y
          menu "more"
          config X
            bool "x"
          endmenu
          endif
          endchoice

      after menu_finalize: the choice (0), A (1) and X (2).  X is in the menu and
      thus no member, but has the choice as a dependency all the same. */
  function MenuInChoice(): (decls: seq<SymbolDecl>) {
    var choice := Sym(Config(0, Boolean));
    var both := Bin(AndOp, choice, Sym(Config(2, Boolean)));
    var inMenu := Bin(AndOp, choice, Sym(SymYes));
    [SymbolDecl("", Boolean, [Entry(None), Prompt(None)], None, Some(Sym(SymMod)), None),
     SymbolDecl("A", Boolean, [Entry(Some(both)), Prompt(Some(both))], Some(both), None, None),
     SymbolDecl("X", Boolean, [Entry(Some(inMenu)), Prompt(Some(inMenu))], Some(inMenu), None, None)]
  }

  function MenuInChoiceGraph(): Graph {
    GraphOf(MenuInChoice(), [Choice([1]), Member(0), Plain], true)
  }

  /** What the check reads of that configuration. */
  ghost predicate IsMenuInChoice(g: Graph) {
    && IsGraph(g) && |g.refs| == 3 && g.strict && InRange(g, [0, 1, 2]) && InRange(g, [2, 0, 1])
    && g.roles[0] == Choice([1]) && g.roles[1] == Member(0) && g.roles[2] == Plain
    && g.refs[0] == [] && g.refs[1] == [0, 2, 0, 2, 0, 2] && g.refs[2] == [0, 0, 0]
  }

  lemma TwoPropsRefs(visible: MaybeExpr, isChoice: bool)
    ensures RefsOfProps([Entry(visible), Prompt(visible)], isChoice) == RefsOfMaybe(visible) + RefsOfMaybe(visible)
  {
    var props := [Entry(visible), Prompt(visible)];
    assert props[1..] == [Prompt(visible)];
    assert props[1..][1..] == [];
    assert RefsOfProps(props[1..], isChoice) == RefsOfMaybe(visible);
  }

  lemma MenuInChoiceDecls()
    ensures var decls := MenuInChoice();
            && |decls| == 3 && RefsOfDecl(decls[0], true) == [] && RefsOfDecl(decls[2], false) == [0, 0, 0]
            && RefsOfDecl(decls[1], false) == [0, 2, 0, 2, 0, 2]
  {
    var decls := MenuInChoice();
    TwoPropsRefs(None, true);
    TwoPropsRefs(decls[1].dirDep, false);
    TwoPropsRefs(decls[2].dirDep, false);
    hide RefsOfProps;
    assert RefsOfMaybe(decls[1].dirDep) == [0, 2];
    assert RefsOfMaybe(decls[2].dirDep) == [0] + [] == [0];
  }

  lemma MenuInChoiceRefs()
    ensures IsMenuInChoice(MenuInChoiceGraph())
  {
    MenuInChoiceDecls();
    hide RefsOfDecl, MenuInChoice;
    var g := MenuInChoiceGraph();
    assert g.refs[0] == [] && g.refs[1] == [0, 2, 0, 2, 0, 2] && g.refs[2] == [0, 0, 0];
  }

  /** A needs X and X needs the choice of A.  The check misses the cycle when it
      starts from the choice, and finds it when it starts from X. */
  lemma CycleCanBeMissed()
    ensures var g := MenuInChoiceGraph();
            && IsMenuInChoice(g) && HasCycle(g) && !MembersComeAlong(g)
            && CheckAll(g, UNMARKED, [0, 1, 2]) == 0 && CheckAll(g, UNMARKED, [2, 0, 1]) > 0
  {
    var g := MenuInChoiceGraph();
    MenuInChoiceRefs();
    hide MenuInChoiceGraph, CheckAll;
    CycleInMenu(g);
    MissedFromChoice(g);
    FoundFromSymbol(g);
  }

  lemma CycleInMenu(g: Graph)
    requires IsMenuInChoice(g)
    ensures HasCycle(g) && !MembersComeAlong(g)
  {
    var steps := [(1, 2), (2, 0)];
    assert Mentions(g, steps[0].0, steps[0].1) by { assert g.refs[1][1] == 2; }
    assert Mentions(g, steps[1].0, steps[1].1) by { assert g.refs[2][0] == 0; }
    assert IsCycle(g, steps);
    assert 0 in g.refs[2] && IsNode(g, Group(0)) && Top(g, 2) != 0;
    assert forall j | j in g.refs[2] :: j == 0 && !StandsForMembers(g, 0, j);
  }

  /** Everything mentioned is marked already. */
  lemma {:induction false} NothingNew(g: Graph, k: Marks, refs: seq<nat>)
    requires IsGraph(g) && InRange(g, refs) && forall a | 0 <= a < |refs| :: refs[a] in k.checked && refs[a] !in k.check
    ensures CheckRefs(g, k, refs) == (None, k)
    decreases |refs|
  {
    if refs != [] {
      NothingNew(g, k, refs[1..]);
    }
  }

  lemma MissedFromChoice(g: Graph)
    requires IsMenuInChoice(g)
    ensures CheckAll(g, UNMARKED, [0, 1, 2]) == 0
  {
    assert SetOf([1]) == {1};
    var k1 := Marks({0, 1}, {0, 1});
    assert Marks(UNMARKED.check + {1} + {0}, UNMARKED.checked + {1} + {0}) == k1;
    assert CheckRefs(g, k1, g.refs[0]) == (None, k1);
    var k2 := Marks({1}, {0, 1});
    assert k1.(check := k1.check - {0}) == k2;
    var k3 := Marks({1, 2}, {0, 1, 2});
    assert Marks(k2.check + {2}, k2.checked + {2}) == k3;
    NothingNew(g, k3, [0, 0, 0]);
    var k4 := Marks({1}, {0, 1, 2});
    assert k3.(check := k3.check - {2}) == k4;
    assert CheckDeps(g, k2, 2) == (None, k4);
    NothingNew(g, k4, [0, 2, 0, 2]);
    assert [2, 0, 2, 0, 2][1..] == [0, 2, 0, 2] && [0, 2, 0, 2, 0, 2][1..] == [2, 0, 2, 0, 2];
    assert CheckRefs(g, k2, [2, 0, 2, 0, 2]) == (None, k4);
    assert CheckRefs(g, k2, g.refs[1]) == (None, k4);
    assert CheckMembers(g, k4, []) == (None, k4);
    assert CheckMembers(g, k2, [1]) == (None, k4) by { assert [1][1..] == []; }
    var k5 := Marks({}, {0, 1, 2});
    assert k4.(check := k4.check - {1}) == k5;
    assert CheckChoice(g, UNMARKED, 0) == (None, k5);
    assert CheckDeps(g, UNMARKED, 0) == (None, k5);
    assert CheckDeps(g, k5, 1) == (None, k5) == CheckDeps(g, k5, 2);
    assert [0, 1, 2][1..] == [1, 2] && [1, 2][1..] == [2] && [2][1..] == [];
    assert CheckAll(g, k5, [1, 2]) == 0;
  }

  lemma FoundFromSymbol(g: Graph)
    requires IsMenuInChoice(g)
    ensures CheckAll(g, UNMARKED, [2, 0, 1]) > 0
  {
    var k1 := Marks({2}, {2});
    assert Marks(UNMARKED.check + {2}, UNMARKED.checked + {2}) == k1;
    assert SetOf([1]) == {1};
    var k2 := Marks({0, 1, 2}, {0, 1, 2});
    assert Marks(k1.check + {1} + {0}, k1.checked + {1} + {0}) == k2;
    assert CheckRefs(g, k2, g.refs[0]) == (None, k2);
    var k3 := Marks({1, 2}, {0, 1, 2});
    assert k2.(check := k2.check - {0}) == k3;
    assert CheckDeps(g, k3, 0) == (None, k3) && CheckDeps(g, k3, 2).0 == Some(2);
    assert [0, 2, 0, 2, 0, 2][1..] == [2, 0, 2, 0, 2];
    assert CheckRefs(g, k3, [2, 0, 2, 0, 2]).0 == Some(2);
    assert CheckRefs(g, k3, g.refs[1]).0 == Some(2);
    assert CheckMembers(g, k3, [1]).0 == Some(2);
    assert CheckChoice(g, k1, 0).0 == Some(2);
    assert CheckDeps(g, k1, 0).0 == Some(2);
    assert CheckRefs(g, k1, [0, 0, 0]).0 == Some(2);
    assert CheckDeps(g, UNMARKED, 2).0 == Some(2);
  }
}
