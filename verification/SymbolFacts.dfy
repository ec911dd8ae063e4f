// How the value of a symbol depends on the rest of a configuration.

module SymbolFacts {
  import opened Wrappers
  import opened TristateLogic
  import opened Exprs
  import opened Symbols

  // ----- one symbol: only what it reads matters -----

  ghost predicate Agree(a: Env, b: Env, syms: set<Symbol>) {
    forall s {:trigger a(s)} {:trigger b(s)} | s in syms :: a(s) == b(s)
  }

  lemma MaybeAgrees(a: Env, b: Env, e: MaybeExpr)
    requires Agree(a, b, SymbolsOfMaybe(e))
    ensures EvalMaybe(a, e) == EvalMaybe(b, e)
  {
    if e.Some? {
      EvalAgrees(a, b, e.value);
    }
  }

  lemma {:induction false} PromptsAgree(a: Env, b: Env, props: seq<Property>, k: nat)
    requires Agree(a, b, SymbolsOfProps(props)) && k <= |props|
    ensures PromptsUpTo(a, props, k) == PromptsUpTo(b, props, k)
  {
    if k > 0 {
      PropIsIncluded(props, k - 1);
      PromptsAgree(a, b, props, k - 1);
      MaybeAgrees(a, b, props[k - 1].visible);
    }
  }

  lemma {:induction false} FirstAgrees(a: Env, b: Env, props: seq<Property>, k: nat)
    requires Agree(a, b, SymbolsOfProps(props)) && k <= |props|
    ensures FirstDefault(a, props, k) == FirstDefault(b, props, k)
    ensures FirstRange(a, props, k) == FirstRange(b, props, k)
    decreases |props| - k
  {
    if k < |props| {
      PropIsIncluded(props, k);
      MaybeAgrees(a, b, props[k].visible);
      FirstAgrees(a, b, props, k + 1);
    }
  }

  lemma WantedAgrees(d: SymbolDecl, user: Option<Value>, visible: Tristate, implied: Tristate, a: Env, b: Env)
    requires Agree(a, b, SymbolsOfProps(d.props))
    ensures Wanted(d, user, visible, implied, a) == Wanted(d, user, visible, implied, b)
  {
    FirstAgrees(a, b, d.props, 0);
    var k := FirstDefault(a, d.props, 0);
    if k.Some? {
      PropIsIncluded(d.props, k.value);
      EvalAgrees(a, b, d.props[k.value].expr);
      MaybeAgrees(a, b, d.props[k.value].visible);
    }
  }

  lemma TextAgrees(d: SymbolDecl, user: Option<Value>, visible: Tristate, a: Env, b: Env, ra: Env, rb: Env)
    requires Agree(a, b, SymbolsOfProps(d.props)) && Agree(ra, rb, SymbolsOfProps(d.props))
    ensures TextOf(d, user, visible, a, ra) == TextOf(d, user, visible, b, rb)
    ensures Clamped(d, a, TextOf(d, user, visible, a, ra)) == Clamped(d, b, TextOf(d, user, visible, b, rb))
  {
    FirstAgrees(a, b, d.props, 0);
    var k := FirstDefault(a, d.props, 0);
    if k.Some? {
      PropIsIncluded(d.props, k.value);
      if d.props[k.value].expr.Sym? {
        assert d.props[k.value].expr.s in SymbolsOfProp(d.props[k.value]);
      }
    }
  }

  lemma DependenciesAgree(d: SymbolDecl, m: Tristate, m': Tristate, a: Env, b: Env)
    requires Agree(a, b, SymbolsOfDecl(d)) && (d.stype == Tri ==> m == m')
    ensures VisibleOf(d, m, a) == VisibleOf(d, m', b) && DirOf(d, m, a) == DirOf(d, m', b)
    ensures RevOf(d, m, a) == RevOf(d, m', b) && ImpliedOf(d, m, a) == ImpliedOf(d, m', b)
  {
    PromptsAgree(a, b, d.props, |d.props|);
    MaybeAgrees(a, b, d.dirDep);
    MaybeAgrees(a, b, d.revDep);
    MaybeAgrees(a, b, d.implied);
  }

  /** The value of MODULES matters directly to tristate symbols only. */
  lemma ComputeAgrees(d: SymbolDecl, user: Option<Value>, m: Tristate, m': Tristate, a: Env, b: Env, ra: Env, rb: Env)
    requires Agree(a, b, SymbolsOfDecl(d)) && Agree(ra, rb, SymbolsOfDecl(d)) && (d.stype == Tri ==> m == m')
    ensures ComputeWith(d, user, m, a, ra) == ComputeWith(d, user, m', b, rb)
  {
    DependenciesAgree(d, m, m', a, b);
    WantedAgrees(d, user, VisibleOf(d, m, a), ImpliedOf(d, m, a), a, b);
    TextAgrees(d, user, VisibleOf(d, m, a), a, b, ra, rb);
  }

  // ----- a set of symbols closed under dependencies -----

  ghost predicate Closed(decls: seq<SymbolDecl>, ids: set<nat>) {
    forall i | i in ids :: i < |decls| && forall s | s in SymbolsOfDecl(decls[i]) && s.Config? :: s.id in ids
  }

  /** c and d differ at most in user values outside ids and, if no symbol in
      ids is a tristate, in the value of MODULES. */
  ghost predicate SameWithin(c: Context, d: Context, ids: set<nat>) {
    && IsContext(c) && IsContext(d) && c.decls == d.decls && c.rank == d.rank && Ranked(c.decls, c.rank)
    && Closed(c.decls, ids)
    && (forall i | i in ids :: c.user[i] == d.user[i])
    && (c.modules == d.modules || forall i | i in ids :: c.decls[i].stype != Tri)
  }

  lemma {:induction false} SameValueWithin(c: Context, d: Context, ids: set<nat>, i: nat)
    requires SameWithin(c, d, ids) && i in ids
    ensures SymbolValue(c, i) == SymbolValue(d, i)
    decreases c.rank[i]
  {
    SameReadsWithin(c, d, ids, SymbolsOfDecl(c.decls[i]), c.rank[i]);
    ComputeAgrees(c.decls[i], c.user[i], c.modules, d.modules, Shown(c, c.rank[i]), Shown(d, c.rank[i]),
                  Raw(c, c.rank[i]), Raw(d, c.rank[i]));
  }

  lemma {:induction false} SameReadsWithin(c: Context, d: Context, ids: set<nat>, syms: set<Symbol>, bound: nat)
    requires SameWithin(c, d, ids) && forall s | s in syms && s.Config? :: s.id in ids
    ensures Agree(Shown(c, bound), Shown(d, bound), syms) && Agree(Raw(c, bound), Raw(d, bound), syms)
    decreases bound, 0
  {
    forall s | s in syms
      ensures Shown(c, bound)(s) == Shown(d, bound)(s) && Raw(c, bound)(s) == Raw(d, bound)(s)
    {
      if s.Config? {
        if c.rank[s.id] < bound {
          SameValueWithin(c, d, ids, s.id);
        }
        ShownIsWellTyped(c, bound);
        assert ValueOk(s, Shown(c, bound)(s));
      }
      assert Shown(c, bound)(s) == ShownValue(s, Raw(c, bound)(s), c.modules);
      assert Shown(d, bound)(s) == ShownValue(s, Raw(d, bound)(s), d.modules);
    }
  }

  // ----- what every value respects -----

  /** Where m has no meaning there is none; failing direct dependencies beat a
      select, which otherwise is honoured; the user gets no more than is visible
      or selected; a default no more than its condition, an imply or a select. */
  lemma ValueGuarantees(c: Context, i: nat)
    requires IsContext(c) && i < |c.decls| && (c.decls[i].stype == Boolean || c.decls[i].stype == Tri)
    ensures var (d, v) := (c.decls[i], SymbolValue(c, i));
            var noM := d.stype == Boolean || c.modules == NO || v.implied == YES;
            && (noM ==> v.curr.tri != MOD)
            && (if v.dir == NO && v.rev != NO then v.curr.tri == NO else v.rev <= v.curr.tri)
            && (v.visible != NO && c.user[i].Some? ==> v.curr.tri <= PromoteIf(noM, TriOr(v.visible, v.rev)))
            && var k := FirstDefault(Shown(c, c.rank[i]), d.props, 0);
               var offered := if k.Some? then EvalMaybe(Shown(c, c.rank[i]), d.props[k.value].visible) else NO;
               (v.visible == NO || c.user[i].None? ==>
                  v.curr.tri <= PromoteIf(noM, TriOr(TriOr(offered, v.implied), v.rev)))
  {
    var d, v := c.decls[i], SymbolValue(c, i);
    var wanted := Wanted(d, c.user[i], v.visible, v.implied, Shown(c, c.rank[i]));
    assert v.curr.tri == Settle(d.stype, c.modules, wanted, v.dir, v.rev, v.implied);
  }

  // ----- exactly which value results -----

  predicate IsActive(env: Env, p: Property) {
    EvalMaybe(env, p.visible) != NO
  }

  /** Property k is the first default whose condition is not n. */
  ghost predicate DefaultDecides(env: Env, props: seq<Property>, k: nat) {
    && k < |props| && props[k].Default? && IsActive(env, props[k])
    && forall j | 0 <= j < k && props[j].Default? :: !IsActive(env, props[j])
  }

  ghost predicate NoDefault(env: Env, props: seq<Property>) {
    forall j | 0 <= j < |props| && props[j].Default? :: !IsActive(env, props[j])
  }

  ghost predicate RangeDecides(env: Env, props: seq<Property>, k: nat) {
    && k < |props| && props[k].Range? && IsActive(env, props[k])
    && forall j | 0 <= j < k && props[j].Range? :: !IsActive(env, props[j])
  }

  ghost predicate NoRange(env: Env, props: seq<Property>) {
    forall j | 0 <= j < |props| && props[j].Range? :: !IsActive(env, props[j])
  }

  /** The visibility is the highest of the conditions of the prompts. */
  ghost predicate HighestPrompt(env: Env, props: seq<Property>, t: Tristate) {
    && (forall k | 0 <= k < |props| && props[k].Prompt? :: EvalMaybe(env, props[k].visible) <= t)
    && (t == NO || exists k :: 0 <= k < |props| && props[k].Prompt? && EvalMaybe(env, props[k].visible) == t)
  }

  lemma {:induction false} FirstDefaultIs(env: Env, props: seq<Property>, n: nat)
    requires n <= |props| && forall j | 0 <= j < n && props[j].Default? :: !IsActive(env, props[j])
    ensures match FirstDefault(env, props, n)
            case Some(k) => DefaultDecides(env, props, k)
            case None => NoDefault(env, props)
    decreases |props| - n
  {
    if n < |props| && !(props[n].Default? && IsActive(env, props[n])) {
      FirstDefaultIs(env, props, n + 1);
    }
  }

  lemma {:induction false} FirstRangeIs(env: Env, props: seq<Property>, n: nat)
    requires n <= |props| && forall j | 0 <= j < n && props[j].Range? :: !IsActive(env, props[j])
    ensures match FirstRange(env, props, n)
            case Some(k) => RangeDecides(env, props, k)
            case None => NoRange(env, props)
    decreases |props| - n
  {
    if n < |props| && !(props[n].Range? && IsActive(env, props[n])) {
      FirstRangeIs(env, props, n + 1);
    }
  }

  lemma {:induction false} PromptsAreHighest(env: Env, props: seq<Property>)
    ensures HighestPrompt(env, props, PromptsUpTo(env, props, |props|))
  {
    if props != [] {
      var init := props[..|props| - 1];
      PromptsAreHighest(env, init);
      PromptsOfPrefix(env, props, init, |init|);
      assert forall k | 0 <= k < |init| :: init[k] == props[k];
      var t := PromptsUpTo(env, init, |init|);
      if t != NO {
        var k :| 0 <= k < |init| && init[k].Prompt? && EvalMaybe(env, init[k].visible) == t;
        assert props[k].Prompt? && EvalMaybe(env, props[k].visible) == t;
      }
    }
  }

  lemma {:induction false} PromptsOfPrefix(env: Env, props: seq<Property>, init: seq<Property>, k: nat)
    requires init <= props && k <= |init|
    ensures PromptsUpTo(env, props, k) == PromptsUpTo(env, init, k)
  {
    if k > 0 {
      PromptsOfPrefix(env, props, init, k - 1);
    }
  }

  /** m counts as y where it has no meaning. */
  predicate Promoted(noM: bool, before: Tristate, after: Tristate) {
    after == if noM && before == MOD then YES else before
  }

  /** The conditions that are recorded with the value: the highest prompt, and the
      direct, reverse and weak reverse dependencies. */
  predicate Recorded(d: SymbolDecl, modules: Tristate, env: Env, v: Computed, highest: Tristate) {
    var noM := d.stype == Boolean || (d.stype == Tri && modules == NO);
    && Promoted(d.stype != Tri || modules == NO, highest, v.visible)
    && Promoted(noM, EvalMaybe(env, d.dirDep), v.dir)
    && (if d.revDep.Some? then Promoted(noM, Eval(env, d.revDep.value), v.rev) else v.rev == NO)
    && (if d.implied.Some? && v.dir != NO then Promoted(noM, Eval(env, d.implied.value), v.implied)
        else v.implied == NO)
  }

  lemma RecordedAt(d: SymbolDecl, user: Option<Value>, modules: Tristate, env: Env, raw: Env)
          returns (highest: Tristate)
    ensures HighestPrompt(env, d.props, highest)
    ensures Recorded(d, modules, env, ComputeWith(d, user, modules, env, raw), highest)
  {
    PromptsAreHighest(env, d.props);
    highest := PromptsUpTo(env, d.props, |d.props|);
  }

  lemma RecordedConditions(c: Context, i: nat) returns (highest: Tristate)
    requires IsContext(c) && i < |c.decls|
    ensures HighestPrompt(Shown(c, c.rank[i]), c.decls[i].props, highest)
    ensures Recorded(c.decls[i], c.modules, Shown(c, c.rank[i]), SymbolValue(c, i), highest)
  {
    highest := RecordedAt(c.decls[i], c.user[i], c.modules, Shown(c, c.rank[i]), Raw(c, c.rank[i]));
  }

  /** The value of a bool or tristate that is asked to be at asked: n if it is
      selected while its direct dependencies fail, else at least the select. */
  predicate SettledAt(d: SymbolDecl, modules: Tristate, v: Computed, asked: Tristate) {
    var noM := d.stype == Boolean || modules == NO || v.implied == YES;
    if v.dir == NO && v.rev != NO then v.curr.tri == NO
    else Promoted(noM, if v.rev > asked then v.rev else asked, v.curr.tri)
  }

  predicate UserDecides(c: Context, i: nat, v: Computed)
    requires IsContext(c) && i < |c.user|
  {
    v.visible != NO && c.user[i].Some?
  }

  /** What a bool or tristate symbol is asked to be: by a visible user value, up to
      the visibility; else by the first default that applies, up to its condition,
      or by an imply. */
  lemma LogicalValue(c: Context, i: nat)
    requires IsContext(c) && i < |c.decls| && (c.decls[i].stype == Boolean || c.decls[i].stype == Tri)
    ensures var (d, v, env) := (c.decls[i], SymbolValue(c, i), Shown(c, c.rank[i]));
            && (UserDecides(c, i, v) ==>
                  var u := c.user[i].value.tri;
                  SettledAt(d, c.modules, v, if u < v.visible then u else v.visible))
            && (forall k: nat | DefaultDecides(env, d.props, k) && !UserDecides(c, i, v) ::
                  var (x, cond) := (Eval(env, d.props[k].expr), EvalMaybe(env, d.props[k].visible));
                  var offered := if x < cond then x else cond;
                  SettledAt(d, c.modules, v, if offered < v.implied then v.implied else offered))
            && (NoDefault(env, d.props) && !UserDecides(c, i, v) ==> SettledAt(d, c.modules, v, v.implied))
  {
    var d, env := c.decls[i], Shown(c, c.rank[i]);
    FirstDefaultIs(env, d.props, 0);
    forall k: nat | DefaultDecides(env, d.props, k)
      ensures FirstDefault(env, d.props, 0) == Some(k)
    {
      OneDecides(env, d.props, k);
    }
  }

  lemma OneDecides(env: Env, props: seq<Property>, k: nat)
    requires DefaultDecides(env, props, k)
    ensures FirstDefault(env, props, 0) == Some(k)
  {
    FirstDefaultIs(env, props, 0);
    assert !NoDefault(env, props);
    var r := FirstDefault(env, props, 0).value;
    assert DefaultDecides(env, props, r);
    assert !(r < k) && !(k < r);
  }

  /** The text that a symbol named in a default stands for. */
  ghost function TextNamed(c: Context, s: Symbol): string
    requires IsContext(c) && (s.Config? ==> s.id < |c.decls|)
  {
    if s.Config? then SymbolValue(c, s.id).curr.str else ConstText(s)
  }

  /** text, forced into the first range that applies if there is one. */
  ghost predicate InRangeOf(env: Env, d: SymbolDecl, text: string, shown: string) {
    && (forall k: nat | RangeDecides(env, d.props, k) && d.stype != String :: shown == d.props[k].clamp(text))
    && (NoRange(env, d.props) || d.stype == String ==> shown == text)
  }

  /** The text of a string, int or hex symbol: that of a visible user value, else
      of the symbol named by the first default that applies, else none. */
  lemma TextValue(c: Context, i: nat)
    requires IsContext(c) && Ranked(c.decls, c.rank) && i < |c.decls|
    requires c.decls[i].stype == String || c.decls[i].stype == Int || c.decls[i].stype == Hex
    ensures var (d, v, env) := (c.decls[i], SymbolValue(c, i), Shown(c, c.rank[i]));
            && v.curr.tri == NO
            && (UserDecides(c, i, v) ==> InRangeOf(env, d, c.user[i].value.str, v.curr.str))
            && (forall k: nat | DefaultDecides(env, d.props, k) && !UserDecides(c, i, v) && d.props[k].expr.Sym? ::
                  var s := d.props[k].expr.s;
                  (s.Config? ==> s.id < |c.decls|) && InRangeOf(env, d, TextNamed(c, s), v.curr.str))
            && (NoDefault(env, d.props) && !UserDecides(c, i, v) ==> InRangeOf(env, d, "", v.curr.str))
  {
    var (d, v, env) := (c.decls[i], SymbolValue(c, i), Shown(c, c.rank[i]));
    FirstDefaultIs(env, d.props, 0);
    forall k: nat | DefaultDecides(env, d.props, k) && d.props[k].expr.Sym?
      ensures var s := d.props[k].expr.s;
              && (s.Config? ==> s.id < |c.decls|) && Raw(c, c.rank[i])(s).str == TextNamed(c, s)
              && FirstDefault(env, d.props, 0) == Some(k)
    {
      NamedText(c, i, k);
      OneDecides(env, d.props, k);
    }
    var text := TextOf(d, c.user[i], v.visible, env, Raw(c, c.rank[i]));
    ClampedIs(env, d, text);
    assert v.curr.str == Clamped(d, env, text);
    hide InRangeOf, Clamped, Raw, Shown, Ranked, NoRange, RangeDecides, ComputeWith, SymbolValue;
  }

  lemma ClampedIs(env: Env, d: SymbolDecl, text: string)
    requires d.stype == String || d.stype == Int || d.stype == Hex
    ensures InRangeOf(env, d, text, Clamped(d, env, text))
  {
    FirstRangeIs(env, d.props, 0);
    var r := FirstRange(env, d.props, 0);
    forall k: nat | RangeDecides(env, d.props, k)
      ensures r == Some(k)
    {
      assert r.Some? && RangeDecides(env, d.props, r.value);
      assert !(r.value < k) && !(k < r.value);
    }
  }

  lemma NamedText(c: Context, i: nat, k: nat)
    requires IsContext(c) && Ranked(c.decls, c.rank) && i < |c.decls|
    requires k < |c.decls[i].props| && c.decls[i].props[k].Default? && c.decls[i].props[k].expr.Sym?
    ensures var s := c.decls[i].props[k].expr.s;
            (s.Config? ==> s.id < |c.decls|) && Raw(c, c.rank[i])(s).str == TextNamed(c, s)
  {
    var s := c.decls[i].props[k].expr.s;
    PropIsIncluded(c.decls[i].props, k);
    assert s in SymbolsOfDecl(c.decls[i]);
    assert RankedBelow(c.decls, c.rank, SymbolsOfDecl(c.decls[i]), c.rank[i]);
  }

  // ----- changing one user value -----

  /** sym_tristate_within_range on the recorded fields of a symbol. */
  predicate WithinRange(t: SymbolType, modules: Tristate, v: Computed, val: Tristate) {
    && v.visible != NO
    && (t == Boolean || t == Tri)
    && !(EffectiveType(t, modules) == Boolean && val == MOD)
    && v.visible > v.rev
    && !(v.implied == YES && val == MOD)
    && v.rev <= val <= v.visible
  }

  /** A user value is accepted exactly if the symbol is more visible than selected,
      the value is no more than visible, and it is what would result. */
  lemma WithinRangeExactly(d: SymbolDecl, modules: Tristate, v: Computed, val: Tristate)
    requires (d.stype == Boolean || d.stype == Tri) && v.dir != NO
    ensures WithinRange(d.stype, modules, v, val)
            <==> v.rev < v.visible && val <= v.visible && SettledAt(d, modules, v.(curr := Value(val, "n")), val)
  {
  }

  /** The user has set the bool or tristate symbol i to val. */
  ghost predicate UserSet(d: Context, i: nat, val: Tristate) {
    && IsContext(d) && i < |d.decls| && (d.decls[i].stype == Boolean || d.decls[i].stype == Tri)
    && d.user[i].Some? && d.user[i].value.tri == val
  }

  /** Everything symbol i reads is the same in c and d. */
  ghost predicate SameBelow(c: Context, d: Context, i: nat, ids: set<nat>) {
    && SameWithin(c, d, ids) && i < |c.decls|
    && (forall s | s in SymbolsOfDecl(c.decls[i]) && s.Config? :: s.id in ids)
    && (c.decls[i].stype == Tri ==> c.modules == d.modules)
  }

  lemma SameFieldsBelow(c: Context, d: Context, i: nat, ids: set<nat>)
    requires SameBelow(c, d, i, ids)
    ensures var (v, w) := (SymbolValue(c, i), SymbolValue(d, i));
            v.visible == w.visible && v.dir == w.dir && v.rev == w.rev && v.implied == w.implied
    ensures Agree(Shown(c, c.rank[i]), Shown(d, c.rank[i]), SymbolsOfDecl(c.decls[i]))
  {
    SameReadsWithin(c, d, ids, SymbolsOfDecl(c.decls[i]), c.rank[i]);
    DependenciesAgree(c.decls[i], c.modules, d.modules, Shown(c, c.rank[i]), Shown(d, c.rank[i]));
  }

  /** A change that was accepted takes effect, except when the direct
      dependencies fail while something selects the symbol: then it is n. */
  lemma AcceptedChange(c: Context, d: Context, i: nat, val: Tristate, ids: set<nat>)
    requires UserSet(d, i, val) && SameBelow(c, d, i, ids)
    requires WithinRange(c.decls[i].stype, c.modules, SymbolValue(c, i), val)
    ensures var v := SymbolValue(c, i);
            SymbolValue(d, i).curr.tri == (if v.dir == NO && v.rev != NO then NO else val)
  {
    SameFieldsBelow(c, d, i, ids);
    SettledAfterSet(d, i, val);
  }

  /** The value of a visible symbol that has a user value. */
  lemma SettledAfterSet(d: Context, i: nat, val: Tristate)
    requires UserSet(d, i, val)
    ensures var w := SymbolValue(d, i);
            w.visible != NO ==> w.curr.tri == Settle(d.decls[i].stype,
                d.modules, TriAnd(val, w.visible), w.dir, w.rev, w.implied)
  {
  }

  /** When a symbol is set to the value it already has, nothing is recomputed.
      That is harmless if the symbol is not visible, if its direct dependencies
      fail, or if clipping the value to the visibility does not lower it. */
  predicate Harmless(t: SymbolType, modules: Tristate, v: Computed, val: Tristate) {
    || v.visible == NO
    || (v.dir == NO && v.rev != NO)
    || val <= v.visible
    || val == v.rev
    || (val == YES && TriOr(v.visible, v.rev) == MOD && (EffectiveType(t, modules) == Boolean || v.implied == YES))
  }

  /** Exactly then does the symbol keep its value under the new user value. */
  lemma UnchangedSet(c: Context, d: Context, i: nat, val: Tristate, ids: set<nat>)
    requires UserSet(d, i, val) && SameBelow(c, d, i, ids) && c.modules == d.modules
    requires val == SymbolValue(c, i).curr.tri
    ensures SymbolValue(d, i) == SymbolValue(c, i) <==> Harmless(c.decls[i].stype, c.modules, SymbolValue(c, i), val)
  {
    var v, w := SymbolValue(c, i), SymbolValue(d, i);
    SameFieldsBelow(c, d, i, ids);
    SettledAfterSet(d, i, val);
    var decl, env := c.decls[i], Shown(c, c.rank[i]);
    var wanted := Wanted(decl, c.user[i], v.visible, v.implied, env);
    assert v.curr == Value(Settle(decl.stype, c.modules, wanted, v.dir, v.rev, v.implied), "n");
    if v.visible == NO {
      WantedAgrees(decl, d.user[i], w.visible, w.implied, env, Shown(d, c.rank[i]));
      assert Wanted(decl, d.user[i], v.visible, v.implied, env) == wanted;
    } else {
      SettleTwice(decl.stype, c.modules, wanted, val, v);
    }
  }

  lemma SettleTwice(t: SymbolType, modules: Tristate, wanted: Tristate, val: Tristate, v: Computed)
    requires val == Settle(t, modules, wanted, v.dir, v.rev, v.implied) && v.visible != NO
    ensures Settle(t, modules, TriAnd(val, v.visible), v.dir, v.rev, v.implied) == val <==> Harmless(t, modules, v, val)
  {
  }

  /** If one symbol keeps its value, changing its user value changes no other. */
  lemma {:induction false} OthersUnchanged(c: Context, d: Context, i: nat, j: nat)
    requires IsContext(c) && Ranked(c.decls, c.rank) && i < |c.decls| && j < |c.decls|
    requires IsContext(d) && d == c.(user := d.user) && forall k | 0 <= k < |c.decls| && k != i ::
            c.user[k] == d.user[k]
    requires SymbolValue(d, i) == SymbolValue(c, i)
    ensures SymbolValue(d, j) == SymbolValue(c, j)
    decreases c.rank[j]
  {
    if j != i {
      var syms, bound := SymbolsOfDecl(c.decls[j]), c.rank[j];
      forall s | s in syms
        ensures Raw(c, bound)(s) == Raw(d, bound)(s) && Shown(c, bound)(s) == Shown(d, bound)(s)
      {
        if s.Config? {
          OthersUnchanged(c, d, i, s.id);
        }
        assert Shown(c, bound)(s) == ShownValue(s, Raw(c, bound)(s), c.modules);
        assert Shown(d, bound)(s) == ShownValue(s, Raw(d, bound)(s), d.modules);
      }
      ComputeAgrees(c.decls[j], c.user[j], c.modules, d.modules,
          Shown(c, bound), Shown(d, bound), Raw(c, bound), Raw(d, bound));
    }
  }

  /** A tristate that is y by default behind a prompt that only offers m:
      choosing y again is accepted, is not recomputed, and would have given m. */
  lemma UnchangedSetCanBeStale()
    ensures var d := SymbolDecl("A", Tri, [Prompt(Some(Sym(SymMod))), Default(None, Sym(SymYes))], None, None, None);
            var c := Context([d], [None], YES, [0]);
            var v := SymbolValue(c, 0);
            v.curr.tri == YES && !Harmless(Tri, YES, v, YES)
            && SymbolValue(c.(user := [Some(Value(YES, ""))]), 0).curr.tri == MOD
  {
    var props := [Prompt(Some(Sym(SymMod))), Default(None, Sym(SymYes))];
    var d := SymbolDecl("A", Tri, props, None, None, None);
    var c := Context([d], [None], YES, [0]);
    var c' := c.(user := [Some(Value(YES, ""))]);
    StaleFields(c, props);
    StaleFields(c', props);
    var env := Shown(c, 0);
    assert FirstDefault(env, props, 1) == Some(1);
    assert FirstDefault(env, props, 0) == Some(1);
    ShownIsWellTyped(c, 0);
    assert ValueOk(SymYes, env(SymYes));
    assert Wanted(d, None, MOD, NO, env) == YES;
  }

  lemma StaleFields(c: Context, props: seq<Property>)
    requires props == [Prompt(Some(Sym(SymMod))), Default(None, Sym(SymYes))]
    requires c.decls == [SymbolDecl("A", Tri, props, None, None, None)]
            && |c.user| == 1 && c.rank == [0] && c.modules == YES
    ensures var v := SymbolValue(c, 0); v.visible == MOD && v.dir == YES && v.rev == NO && v.implied == NO
  {
    var env := Shown(c, 0);
    ShownIsWellTyped(c, 0);
    assert ValueOk(SymMod, env(SymMod));
    assert PromptsUpTo(env, props, 0) == NO;
    assert PromptsUpTo(env, props, 1) == MOD;
    assert PromptsUpTo(env, props, 2) == MOD;
  }
}
