// Choices (sym_calc_visibility, sym_choice_default, sym_calc_choice,
// sym_calc_value and sym_set_tristate_value in scripts/config/symbol.c, for a
// choice and its members).

module Choices {
  import opened Wrappers
  import opened TristateLogic
  import opened Exprs
  import opened ExprJoin
  import opened ExprTransform
  import opened MenuConditions
  import opened SymbolFacts
  import opened Symbols

  datatype MemberDecl = MemberDecl(stype: SymbolType, prompts: seq<MaybeExpr>)

  /** A default of a choice names one of its members. */
  datatype ChoiceDefault = ChoiceDefault(visible: MaybeExpr, member: nat)

  datatype ChoiceDecl = ChoiceDecl(
    self: Symbol,
    prompts: seq<MaybeExpr>,
    dirDep: MaybeExpr,
    revDep: MaybeExpr,
    implied: MaybeExpr,
    members: seq<MemberDecl>,
    defaults: seq<ChoiceDefault>)

  ghost predicate IsChoice(d: ChoiceDecl) {
    && IsLogical(d.self)
    && (forall i | 0 <= i < |d.members| :: d.members[i].stype == Boolean || d.members[i].stype == Tri)
    && (forall k | 0 <= k < |d.defaults| :: d.defaults[k].member < |d.members|)
  }

  // ----- what the loops compute -----

  function AnyPrompt(env: Env, prompts: seq<MaybeExpr>, k: nat): Tristate
    requires k <= |prompts|
  {
    if k == 0 then NO else TriOr(AnyPrompt(env, prompts, k - 1), EvalMaybe(env, prompts[k - 1]))
  }

  /** A prompt of a tristate member does not count at m while the choice is y. */
  function MemberPrompt(m: MemberDecl, choice: Tristate, t: Tristate): Tristate {
    if m.stype == Tri && t == MOD && choice == YES then NO else t
  }

  function MemberPrompts(env: Env, m: MemberDecl, choice: Tristate, k: nat): Tristate
    requires k <= |m.prompts|
  {
    if k == 0 then NO
    else TriOr(MemberPrompts(env, m, choice, k - 1), MemberPrompt(m, choice, EvalMaybe(env, m.prompts[k - 1])))
  }

  function MemberVisible(env: Env, m: MemberDecl, choice: Tristate, modules: Tristate): Tristate {
    PromoteIf(m.stype != Tri || modules == NO, MemberPrompts(env, m, choice, |m.prompts|))
  }

  function FirstVisible(visible: seq<Tristate>, k: nat): (r: Option<nat>)
    requires k <= |visible|
    ensures r.Some? ==> k <= r.value < |visible| && visible[r.value] != NO
    ensures r.None? ==> forall i | k <= i < |visible| :: visible[i] == NO
    decreases |visible| - k
  {
    if k == |visible| then None
    else if visible[k] != NO then Some(k)
    else FirstVisible(visible, k + 1)
  }

  function DefaultPick(env: Env, d: ChoiceDecl, visible: seq<Tristate>, k: nat): (r: Option<nat>)
    requires IsChoice(d) && |visible| == |d.members| && k <= |d.defaults|
    ensures r.Some? ==> r.value < |visible| && visible[r.value] != NO
    ensures r.None? ==> forall i | 0 <= i < |visible| :: visible[i] == NO
    decreases |d.defaults| - k
  {
    if k == |d.defaults| then FirstVisible(visible, 0)
    else if EvalMaybe(env, d.defaults[k].visible) != NO && visible[d.defaults[k].member] != NO then
      Some(d.defaults[k].member)
    else DefaultPick(env, d, visible, k + 1)
  }

  /** The mode of the choice before its members are looked at. */
  function Mode(d: ChoiceDecl, modules: Tristate, env: Env, user: Option<Tristate>): Tristate {
    var t := TypeOf(d.self);
    var bool' := EffectiveType(t, modules) == Boolean;
    var visible := PromoteIf(t != Tri || modules == NO, AnyPrompt(env, d.prompts, |d.prompts|));
    var dir := PromoteIf(bool', EvalMaybe(env, d.dirDep));
    var rev := PromoteIf(bool', if d.revDep.Some? then Eval(env, d.revDep.value) else NO);
    var implied := PromoteIf(bool', if d.implied.Some? && dir != NO then Eval(env, d.implied.value) else NO);
    Settle(t, modules, if visible != NO && user.Some? then TriAnd(user.value, visible) else NO, dir, rev, implied)
  }

  // ----- what these computations mean -----

  /** What prompt k counts for: for a tristate member m counts as n while the choice
      is y. */
  function Counts(env: Env, m: MemberDecl, choice: Tristate, k: nat): Tristate
    requires k < |m.prompts|
  {
    var t := EvalMaybe(env, m.prompts[k]);
    if m.stype == Tri && choice == YES && t != YES then NO else t
  }

  /** A member is as visible as the prompt that counts most. */
  lemma MemberVisibility(env: Env, m: MemberDecl, choice: Tristate, modules: Tristate) returns (highest: Tristate)
    ensures forall k | 0 <= k < |m.prompts| :: Counts(env, m, choice, k) <= highest
    ensures highest == NO || exists k :: 0 <= k < |m.prompts| && Counts(env, m, choice, k) == highest
    ensures Promoted(m.stype != Tri || modules == NO, highest, MemberVisible(env, m, choice, modules))
  {
    highest := MemberPrompts(env, m, choice, |m.prompts|);
    HighestCounts(env, m, choice, |m.prompts|);
  }

  lemma {:induction false} HighestCounts(env: Env, m: MemberDecl, choice: Tristate, n: nat)
    requires n <= |m.prompts|
    ensures var t := MemberPrompts(env, m, choice, n);
            && (forall k | 0 <= k < n :: Counts(env, m, choice, k) <= t)
            && (t == NO || exists k :: 0 <= k < n && Counts(env, m, choice, k) == t)
  {
    if n > 0 {
      HighestCounts(env, m, choice, n - 1);
      assert Counts(env, m, choice, n - 1) == MemberPrompt(m, choice, EvalMaybe(env, m.prompts[n - 1]));
    }
  }

  /** The choice as an ordinary symbol without defaults. */
  function AsSymbol(d: ChoiceDecl): SymbolDecl {
    SymbolDecl("", TypeOf(d.self), seq(|d.prompts|, i requires 0 <= i < |d.prompts| => Prompt(d.prompts[i])),
               d.dirDep, d.revDep, d.implied)
  }

  /** The mode is that of a symbol with the conditions of the choice, which the user
      asks for the given value; nothing else asks for one. */
  lemma ModeIsSettled(d: ChoiceDecl, modules: Tristate, env: Env, user: Option<Tristate>) returns (v: Computed)
    requires IsLogical(d.self)
    ensures exists t :: HighestPrompt(env, AsSymbol(d).props, t) && Recorded(AsSymbol(d), modules, env, v, t)
    ensures v.curr.tri == Mode(d, modules, env, user)
    ensures SettledAt(AsSymbol(d), modules, v,
                      if v.visible == NO || user.None? then NO
                      else if user.value < v.visible then user.value else v.visible)
  {
    var s := AsSymbol(d);
    v := ComputeWith(s, None, modules, env, env);
    var highest := RecordedAt(s, None, modules, env, env);
    PromptsAsSymbol(d, env, |d.prompts|);
    v := v.(curr := Value(Mode(d, modules, env, user), ""));
    assert Recorded(s, modules, env, v, highest);
  }

  lemma {:induction false} PromptsAsSymbol(d: ChoiceDecl, env: Env, k: nat)
    requires k <= |d.prompts|
    ensures PromptsUpTo(env, AsSymbol(d).props, k) == AnyPrompt(env, d.prompts, k)
  {
    if k > 0 {
      PromptsAsSymbol(d, env, k - 1);
    }
  }

  /** Default k of the choice applies and its member is visible. */
  predicate CanDecide(env: Env, d: ChoiceDecl, visible: seq<Tristate>, k: nat)
    requires IsChoice(d) && |visible| == |d.members| && k < |d.defaults|
  {
    EvalMaybe(env, d.defaults[k].visible) != NO && visible[d.defaults[k].member] != NO
  }

  /** pick is the member of the first default that can decide, else the first
      visible member, if there is one. */
  ghost predicate IsDefaultPick(env: Env, d: ChoiceDecl, visible: seq<Tristate>, pick: Option<nat>)
    requires IsChoice(d) && |visible| == |d.members|
  {
    && (forall k | 0 <= k < |d.defaults| && CanDecide(env, d, visible, k)
                   && (forall j | 0 <= j < k :: !CanDecide(env, d, visible, j)) ::
          pick == Some(d.defaults[k].member))
    && ((forall k | 0 <= k < |d.defaults| :: !CanDecide(env, d, visible, k)) ==>
          forall i | 0 <= i < |visible| && visible[i] != NO && (forall j | 0 <= j < i :: visible[j] == NO) ::
            pick == Some(i))
    && (pick.None? <==> forall i | 0 <= i < |visible| :: visible[i] == NO)
  }

  lemma {:induction false} DefaultPickIs(env: Env, d: ChoiceDecl, visible: seq<Tristate>, n: nat)
    requires IsChoice(d) && |visible| == |d.members| && n <= |d.defaults|
    requires forall j | 0 <= j < n :: !CanDecide(env, d, visible, j)
    ensures IsDefaultPick(env, d, visible, DefaultPick(env, d, visible, n))
    decreases |d.defaults| - n
  {
    if n == |d.defaults| {
      FirstVisibleIs(visible, 0);
    } else if !CanDecide(env, d, visible, n) {
      DefaultPickIs(env, d, visible, n + 1);
    }
  }

  lemma {:induction false} FirstVisibleIs(visible: seq<Tristate>, n: nat)
    requires n <= |visible| && forall j | 0 <= j < n :: visible[j] == NO
    ensures var r := FirstVisible(visible, n); r.Some? ==> forall j | 0 <= j < r.value :: visible[j] == NO
    decreases |visible| - n
  {
    if n < |visible| && visible[n] == NO {
      FirstVisibleIs(visible, n + 1);
    }
  }

  lemma MemberVisibleInYes(env: Env, m: MemberDecl, modules: Tristate, k: nat)
    requires k <= |m.prompts|
    ensures m.stype == Tri ==> MemberPrompts(env, m, YES, k) != MOD
    ensures m.stype == Boolean || m.stype == Tri ==> MemberVisible(env, m, YES, modules) != MOD
  {
    MemberPromptsInYes(env, m, k);
    MemberPromptsInYes(env, m, |m.prompts|);
  }

  lemma {:induction false} MemberPromptsInYes(env: Env, m: MemberDecl, k: nat)
    requires k <= |m.prompts|
    ensures m.stype == Tri ==> MemberPrompts(env, m, YES, k) != MOD
  {
    if k > 0 {
      MemberPromptsInYes(env, m, k - 1);
    }
  }

  /** A user value makes the mode no lower. */
  lemma ModeGrows(d: ChoiceDecl, modules: Tristate, env: Env, user: Option<Tristate>, u: Tristate)
    requires Mode(d, modules, env, user) == YES && (user.None? || user.value == u) && IsLogical(d.self)
    ensures Mode(d, modules, env, Some(u)) == YES
  {
  }

  lemma ModeOfBool(d: ChoiceDecl, modules: Tristate, env: Env, user: Option<Tristate>)
    ensures EffectiveType(TypeOf(d.self), modules) == Boolean ==> Mode(d, modules, env, user) != MOD
  {
  }

  /** What menu_finalize makes of the members' conditions: none exceeds the mode
      of the choice, and a bool member of a tristate choice needs it to be y. */
  ghost predicate BoundByChoice(d: ChoiceDecl) {
    forall i, k, env: Env | 0 <= i < |d.members| && 0 <= k < |d.members[i].prompts| && WellTyped(env) ::
      Bounded(d.self, d.members[i].stype, EvalMaybe(env, d.members[i].prompts[k]), env(d.self).tri)
  }

  predicate Bounded(choice: Symbol, t: SymbolType, visible: Tristate, mode: Tristate) {
    visible <= mode && (TypeOf(choice) == Tri && t != Tri && visible != NO ==> mode == YES)
  }

  /** The condition of a prompt of a member of type t: the choice, the conditions
      of the entry and of the prompt, and "choice = y" for bools in a tristate
      choice. */
  method FinalizePrompt(choice: Symbol, t: SymbolType, entryDep: MaybeExpr, dep: MaybeExpr, modules: Symbol)
    returns (r: MaybeExpr)
    requires IsLogical(choice) && MaybePlain(entryDep) && MaybePlain(dep)
    ensures forall env: Env | WellTyped(env) ::
              Finalized(env, choice, t, EvalMaybe(LimitM(env, modules), entryDep), EvalMaybe(LimitM(env, modules), dep),
                        EvalMaybe(env, r))
  {
    var base := Inherit(Some(Sym(choice)), entryDep, modules);
    var own := Inherit(base, dep, modules);
    r := MemberCondition(choice, t, own);
    forall env: Env | WellTyped(env)
      ensures Finalized(env, choice, t, EvalMaybe(LimitM(env, modules), entryDep), EvalMaybe(LimitM(env, modules), dep),
                        EvalMaybe(env, r))
    {
      MemberConditionIs(env, choice, t, own);
    }
  }

  /** The value of a member prompt: n exactly if one of the conditions is, or if a bool
      in a tristate choice finds that below y; for a tristate the lowest of them. */
  predicate Finalized(env: Env, choice: Symbol, t: SymbolType, entry: Tristate, prompt: Tristate, r: Tristate) {
    var all := TriAnd(TriAnd(env(choice).tri, entry), prompt);
    && Bounded(choice, t, r, env(choice).tri)
    && (t == Tri ==> r == all)
    && (r != NO <==> all != NO && (TypeOf(choice) == Tri && t != Tri ==> env(choice).tri == YES))
  }

  function MemberCondition(choice: Symbol, t: SymbolType, own: MaybeExpr): MaybeExpr {
    var r := if t != Tri && own.Some? then Some(TransBool(own.value)) else own;
    if TypeOf(choice) == Tri && t != Tri then AllocAnd(Some(Comp(Equal, choice, SymYes)), r) else r
  }

  lemma MemberConditionIs(env: Env, choice: Symbol, t: SymbolType, own: MaybeExpr)
    requires WellTyped(env) && IsLogical(choice) && MaybeNormal(own) && EvalMaybe(env, own) <= env(choice).tri
    ensures var (all, r) := (EvalMaybe(env, own), EvalMaybe(env, MemberCondition(choice, t, own)));
            && Bounded(choice, t, r, env(choice).tri) && (t == Tri ==> r == all)
            && (r != NO <==> all != NO && (TypeOf(choice) == Tri && t != Tri ==> env(choice).tri == YES))
  {
    if own.Some? {
      TransBoolExactly(env, own.value);
    }
    ComparesWithConst(env, choice, Equal, SymYes);
  }

  /** A choice among fixed surroundings. */
  class ChoiceBlock {
    const d: ChoiceDecl
    const outside: Env
    const modules: Tristate

    /** The user's mode and pick, with the SYMBOL_DEF_USER flag of the choice. */
    var hasUser: bool
    var userTri: Tristate
    var userPick: Option<nat>
    /** The same for the members. */
    var memberHasUser: seq<bool>
    var memberUserTri: seq<Tristate>

    var curr: Tristate
    var pick: Option<nat>
    var visible: seq<Tristate>
    var memberCurr: seq<Tristate>

    ghost predicate Valid()
      reads this
    {
      && IsChoice(d)
      && |memberHasUser| == |memberUserTri| == |visible| == |memberCurr| == |d.members|
      && (userPick.Some? ==> userPick.value < |d.members|)
    }

    constructor (d: ChoiceDecl, outside: Env, modules: Tristate)
      requires IsChoice(d)
      ensures Valid() && this.d == d && this.outside == outside && this.modules == modules
      ensures !hasUser && userPick == None
    {
      this.d, this.outside, this.modules := d, outside, modules;
      hasUser, userTri, userPick := false, NO, None;
      memberHasUser := seq(|d.members|, _ => false);
      memberUserTri := seq(|d.members|, _ => NO);
      curr, pick := NO, None;
      visible := seq(|d.members|, _ => NO);
      memberCurr := seq(|d.members|, _ => NO);
    }

    /** Outside symbols keep their values; the choice itself is at t. */
    function EnvAt(t: Tristate): Env {
      (s: Symbol) => if s == d.self then Value(t, TriName(t)) else outside(s)
    }

    /** The user's mode while the flag is set. */
    function UserMode(): Option<Tristate>
      reads this`hasUser, this`userTri
    {
      if hasUser then Some(userTri) else None
    }

    function MemberVisibleAt(i: nat, t: Tristate): Tristate
      requires i < |d.members|
    {
      MemberVisible(EnvAt(t), d.members[i], t, modules)
    }

    /** sym_calc_visibility of a member. */
    method CalcMemberVisibility(i: nat)
      requires Valid() && i < |d.members|
      modifies this`visible
      ensures Valid() && visible == old(visible)[i := MemberVisibleAt(i, curr)]
    {
      var m := d.members[i];
      var tri := NO;
      for k := 0 to |m.prompts|
        invariant tri == MemberPrompts(EnvAt(curr), m, curr, k)
      {
        var t := EvalMaybe(EnvAt(curr), m.prompts[k]);
        if m.stype == Tri && t == MOD && curr == YES {
          t := NO;
        }
        tri := TriOr(tri, t);
      }
      if tri == MOD && (m.stype != Tri || modules == NO) {
        tri := YES;
      }
      visible := visible[i := tri];
    }

    /** sym_choice_default */
    method ChoiceDefaultMember() returns (r: Option<nat>)
      requires Valid()
      ensures r == DefaultPick(EnvAt(curr), d, visible, 0) && IsDefaultPick(EnvAt(curr), d, visible, r)
    {
      DefaultPickIs(EnvAt(curr), d, visible, 0);
      for k := 0 to |d.defaults|
        invariant DefaultPick(EnvAt(curr), d, visible, 0) == DefaultPick(EnvAt(curr), d, visible, k)
      {
        if EvalMaybe(EnvAt(curr), d.defaults[k].visible) != NO && visible[d.defaults[k].member] != NO {
          return Some(d.defaults[k].member);
        }
      }
      for i := 0 to |visible|
        invariant FirstVisible(visible, 0) == FirstVisible(visible, i)
      {
        if visible[i] != NO {
          return Some(i);
        }
      }
      return None;
    }

    /** sym_calc_choice: as a side effect the choice loses its SYMBOL_DEF_USER
        flag when some visible member has none. */
    method CalcChoice() returns (r: Option<nat>)
      requires Valid()
      modifies this`visible, this`hasUser, this`curr
      ensures Valid() && forall i | 0 <= i < |visible| :: visible[i] == MemberVisibleAt(i, old(curr))
      ensures hasUser <==> old(hasUser) && forall i | 0 <= i < |visible| && visible[i] != NO :: memberHasUser[i]
      ensures r == if userPick.Some? && visible[userPick.value] != NO then userPick
                   else DefaultPick(EnvAt(old(curr)), d, visible, 0)
      ensures curr == if r.None? then NO else old(curr)
    {
      hide IsDefaultPick, DefaultPick, MemberVisible;
      var flag := hasUser;
      for i := 0 to |d.members|
        invariant Valid() && curr == old(curr) && hasUser == old(hasUser)
        invariant forall j | 0 <= j < i :: visible[j] == MemberVisibleAt(j, curr)
        invariant flag <==> hasUser && forall j | 0 <= j < i && visible[j] != NO :: memberHasUser[j]
      {
        CalcMemberVisibility(i);
        if visible[i] != NO {
          flag := flag && memberHasUser[i];
        }
      }
      hasUser := flag;
      if userPick.Some? && visible[userPick.value] != NO {
        return userPick;
      }
      r := ChoiceDefaultMember();
      if r.None? {
        curr := NO;
      }
    }

    /** sym_calc_value of the choice; its own conditions do not mention it. */
    method CalcValue()
      requires Valid()
      modifies this`visible, this`hasUser, this`curr, this`pick
      ensures Valid()
      ensures curr == YES ==>
                && Mode(d, modules, outside, old(UserMode())) == YES
                && (forall i | 0 <= i < |visible| :: visible[i] == MemberVisibleAt(i, YES))
                && pick == (if userPick.Some? && visible[userPick.value] != NO then userPick
                            else DefaultPick(EnvAt(YES), d, visible, 0))
                && IsDefaultPick(EnvAt(YES), d, visible, DefaultPick(EnvAt(YES), d, visible, 0))
                && pick.Some? && pick.value < |visible| && visible[pick.value] == YES
      ensures curr != YES ==>
                || curr == Mode(d, modules, outside, old(UserMode()))
                || (curr == NO && forall i | 0 <= i < |visible| :: MemberVisibleAt(i, YES) == NO)
      ensures curr != YES ==> pick == None
    {
      hide Mode, MemberVisible, IsDefaultPick;
      curr := Mode(d, modules, outside, UserMode());
      if curr == YES {
        pick := CalcChoice();
        DefaultPickIs(EnvAt(YES), d, visible, 0);
        forall i | 0 <= i < |visible|
          ensures MemberVisibleAt(i, YES) != MOD
        {
          MemberVisibleInYes(EnvAt(YES), d.members[i], modules, 0);
        }
      } else {
        pick := None;
      }
    }

    /** sym_calc_value of a member that has no defaults of its own.  Nothing ever
        computes the dependencies of a member, so they stay n. */
    method CalcMember(i: nat)
      requires Valid() && i < |d.members|
      modifies this`visible, this`memberCurr
      ensures Valid() && visible == old(visible)[i := MemberVisibleAt(i, curr)]
      ensures memberCurr == old(memberCurr)[i := MemberValue(i, visible[i])]
    {
      CalcMemberVisibility(i);
      var tri := NO;
      if visible[i] == YES {
        tri := if pick == Some(i) then YES else NO;
      } else {
        if visible[i] != NO && memberHasUser[i] {
          tri := TriAnd(memberUserTri[i], visible[i]);
        }
        if tri == MOD && EffectiveType(d.members[i].stype, modules) == Boolean {
          tri := YES;
        }
      }
      memberCurr := memberCurr[i := tri];
    }

    function MemberValue(i: nat, v: Tristate): Tristate
      reads this`pick, this`memberHasUser, this`memberUserTri
      requires i < |d.members| == |memberHasUser| == |memberUserTri|
    {
      if v == YES then (if pick == Some(i) then YES else NO)
      else PromoteIf(EffectiveType(d.members[i].stype, modules) == Boolean,
                     if v != NO && memberHasUser[i] then TriAnd(memberUserTri[i], v) else NO)
    }

    /** Evaluates the members one after the other. */
    method CalcMembers()
      requires Valid()
      modifies this`visible, this`memberCurr
      ensures Valid()
      ensures curr == YES && (forall j | 0 <= j < |d.members| :: old(visible)[j] == MemberVisibleAt(j, YES)) ==>
                visible == old(visible)
      ensures forall j | 0 <= j < |d.members| :: memberCurr[j] == MemberValue(j, MemberVisibleAt(j, curr))
    {
      for i := 0 to |d.members|
        invariant Valid()
        invariant curr == YES && (forall j | 0 <= j < |d.members| :: old(visible)[j] == MemberVisibleAt(j, YES)) ==>
                    visible == old(visible)
        invariant forall j | 0 <= j < i :: memberCurr[j] == MemberValue(j, MemberVisibleAt(j, curr))
      {
        CalcMember(i);
      }
    }

    /** Evaluates the choice and all its members. */
    method CalcAll()
      requires Valid()
      modifies this`visible, this`hasUser, this`curr, this`pick, this`memberCurr
      ensures Valid()
      ensures curr == YES ==> forall i | 0 <= i < |visible| :: visible[i] == MemberVisibleAt(i, YES)
      // a choice at y: exactly one member is y, it is visible, all others are n
      ensures curr == YES ==>
                && pick.Some? && pick.value < |d.members| && visible[pick.value] == YES
                && forall i | 0 <= i < |d.members| :: memberCurr[i] == if pick == Some(i) then YES else NO
      // the user's pick wins whenever it is visible
      ensures curr == YES && userPick.Some? && MemberVisibleAt(userPick.value, YES) != NO ==> pick == userPick
      // otherwise the defaults decide, then the order of the members
      ensures curr == YES && (userPick.Some? ==> MemberVisibleAt(userPick.value, YES) == NO) ==>
                IsDefaultPick(EnvAt(YES), d, visible, pick)
      // the choice falls back to n only if it is not wanted or has no visible member
      ensures Mode(d, modules, outside, old(UserMode())) == YES ==>
                curr == YES || forall i | 0 <= i < |d.members| :: MemberVisibleAt(i, YES) == NO
      // otherwise nothing is picked, and a fully visible member is n
      ensures curr != YES ==>
                && pick == None
                && forall i | 0 <= i < |d.members| && MemberVisibleAt(i, curr) == YES :: memberCurr[i] == NO
      // one that is not fully visible follows the user as far as it is visible
      ensures curr != YES ==>
                forall i | 0 <= i < |d.members| && MemberVisibleAt(i, curr) != YES ::
                  memberCurr[i] == if memberHasUser[i] then TriAnd(memberUserTri[i], MemberVisibleAt(i, curr)) else NO
      // and no member exceeds the choice
      ensures curr != YES && BoundByChoice(d) && WellTyped(outside) ==>
              forall i | 0 <= i < |d.members| :: memberCurr[i] <= curr
    {
      hide IsDefaultPick, DefaultPick, MemberVisible, Mode, BoundByChoice, WellTyped;
      CalcValue();
      CalcMembers();
      hide EnvAt;
      if curr != YES && BoundByChoice(d) && WellTyped(outside) {
        ModeOfBool(d, modules, outside, old(UserMode()));
        EnvAtIsWellTyped(curr);
      }
      forall i | 0 <= i < |d.members|
        ensures curr == YES ==> memberCurr[i] == if pick == Some(i) then YES else NO
        ensures curr != YES && MemberVisibleAt(i, curr) == YES ==> memberCurr[i] == NO
        ensures curr != YES && MemberVisibleAt(i, curr) != YES ==>
                  memberCurr[i] == if memberHasUser[i] then TriAnd(memberUserTri[i], MemberVisibleAt(i, curr)) else NO
        ensures curr != YES && BoundByChoice(d) && WellTyped(outside) ==> memberCurr[i] <= curr
      {
        if curr == YES {
          MemberAtYes(i);
        } else {
          MemberBelowYes(i);
          if BoundByChoice(d) && WellTyped(outside) {
            MemberBounded(i);
          }
        }
      }
    }

    lemma MemberAtYes(i: nat)
      requires Valid() && i < |d.members| && curr == YES
      requires pick.Some? ==> pick.value < |d.members| && MemberVisibleAt(pick.value, YES) == YES
      ensures MemberValue(i, MemberVisibleAt(i, curr)) == if pick == Some(i) then YES else NO
    {
      MemberVisibleInYes(EnvAt(YES), d.members[i], modules, 0);
    }

    lemma MemberBelowYes(i: nat)
      requires Valid() && i < |d.members| && curr != YES && pick == None
      ensures var v := MemberVisibleAt(i, curr);
              MemberValue(i, v) == if v != YES && memberHasUser[i] then TriAnd(memberUserTri[i], v) else NO
    {
    }

    lemma MemberBounded(i: nat)
      requires Valid() && BoundByChoice(d) && WellTyped(EnvAt(curr)) && i < |d.members| && curr != YES && pick == None
      requires EffectiveType(TypeOf(d.self), modules) == Boolean ==> curr != MOD
      ensures MemberValue(i, MemberVisibleAt(i, curr)) <= curr
    {
      MemberBound(i, |d.members[i].prompts|);
    }

    lemma EnvAtIsWellTyped(t: Tristate)
      requires WellTyped(outside) && IsLogical(d.self) && (TypeOf(d.self) == Boolean ==> t != MOD)
      ensures WellTyped(EnvAt(t))
    {
      forall s
        ensures ValueOk(s, EnvAt(t)(s))
      {
        assert ValueOk(s, outside(s));
      }
    }

    lemma {:induction false} MemberBound(i: nat, k: nat)
      requires Valid() && BoundByChoice(d) && WellTyped(EnvAt(curr))
              && i < |d.members| && k <= |d.members[i].prompts| && curr != YES
      ensures MemberPrompts(EnvAt(curr), d.members[i], curr, k) <= curr
      ensures TypeOf(d.self) == Tri && d.members[i].stype != Tri ==>
              MemberPrompts(EnvAt(curr), d.members[i], curr, k) == NO
    {
      if k > 0 {
        MemberBound(i, k - 1);
        assert Bounded(d.self, d.members[i].stype,
            EvalMaybe(EnvAt(curr), d.members[i].prompts[k - 1]), EnvAt(curr)(d.self).tri);
      }
    }

    /** sym_set_tristate_value of a member that is fully visible in a choice at y.
        Only y is accepted, unless the member has the value already. */
    method SetMember(i: nat, val: Tristate) returns (ok: bool)
      requires Valid() && i < |d.members| && visible[i] == YES
      modifies this`hasUser, this`userPick, this`memberHasUser, this`memberUserTri
      ensures Valid() && (ok <==> val == YES || val == memberCurr[i])
      ensures !ok ==>
                && hasUser == old(hasUser) && userPick == old(userPick)
                && memberHasUser == old(memberHasUser) && memberUserTri == old(memberUserTri)
      ensures ok && val == YES ==> userPick == Some(i) && hasUser
      ensures ok && val != YES ==> userPick == old(userPick) && hasUser == old(hasUser)
      ensures ok ==> memberUserTri == old(memberUserTri)[i := val]
      ensures ok ==> forall j | 0 <= j < |d.members| ::
                memberHasUser[j] == (old(memberHasUser)[j] || j == i || (val == YES && visible[j] != NO))
    {
      if memberCurr[i] != val && val != YES {
        return false;
      }
      memberHasUser := memberHasUser[i := true];
      if val == YES {
        userPick := Some(i);
        hasUser := true;
        for j := 0 to |d.members|
          invariant Valid() && hasUser && userPick == Some(i) && memberUserTri == old(memberUserTri)
          invariant forall k | 0 <= k < |d.members| ::
                      memberHasUser[k] == (old(memberHasUser)[k] || k == i || (k < j && visible[k] != NO))
        {
          if visible[j] != NO {
            memberHasUser := memberHasUser[j := true];
          }
        }
      }
      memberUserTri := memberUserTri[i := val];
      return true;
    }

    /** Picking a visible member of a choice at y takes effect, although the
        earlier evaluation may have dropped the choice's own user flag: after
        re-evaluation the choice is still y and the member is its only y. */
    method PickMember(i: nat)
      requires Valid() && i < |d.members|
      requires Mode(d, modules, outside, UserMode()) == YES && MemberVisibleAt(i, YES) == YES
      modifies this
      ensures Valid() && curr == YES && pick == Some(i)
      ensures forall j | 0 <= j < |d.members| :: memberCurr[j] == if j == i then YES else NO
    {
      var mode := UserMode();
      CalcAll();
      ModeGrows(d, modules, outside, mode, userTri);
      var ok := SetMember(i, YES);
      assert UserMode() == Some(userTri);
      CalcAll();
    }
  }
}
