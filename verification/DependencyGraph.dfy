// The depth-first check for recursive dependencies, as a function of the
// SYMBOL_CHECK and SYMBOL_CHECKED marks (sym_check_deps and its helpers in
// scripts/config/symbol.c), and what its answers mean.

module DependencyGraph {
  import opened Wrappers

  datatype Role = Plain | Choice(members: seq<nat>) | Member(choice: nat)

  /** For each symbol, the symbols that its checked expressions mention, in the
      order in which they are visited.  strict is recursive_is_error. */
  datatype Graph = Graph(refs: seq<seq<nat>>, roles: seq<Role>, strict: bool)

  datatype Marks = Marks(check: set<nat>, checked: set<nat>)

  function SetOf(s: seq<nat>): set<nat> {
    set x | x in s
  }

  predicate InRange(g: Graph, s: seq<nat>) {
    forall k | 0 <= k < |s| :: s[k] < |g.refs|
  }

  predicate IsGraph(g: Graph) {
    && |g.roles| == |g.refs|
    && (forall i | 0 <= i < |g.refs| :: InRange(g, g.refs[i]))
    && (forall c | 0 <= c < |g.roles| && g.roles[c].Choice? ::
          InRange(g, g.roles[c].members) && forall m | m in g.roles[c].members ::
              m < |g.roles| && g.roles[m] == Member(c))
    && (forall m | 0 <= m < |g.roles| && g.roles[m].Member? ::
          g.roles[m].choice < |g.roles| && g.roles[g.roles[m].choice].Choice?
              && m in g.roles[g.roles[m].choice].members)
  }

  function All(g: Graph): set<int> {
    set i {:trigger g.refs[i]} | 0 <= i < |g.refs| :: i
  }

  // ----- the check -----

  function CheckDeps(g: Graph, k: Marks, s: nat): (r: (Option<nat>, Marks))
    requires IsGraph(g) && s < |g.refs|
    ensures k.checked <= r.1.checked
    decreases All(g) - k.checked, 2, if g.roles[s].Member? then 1 else 0
  {
    if s in k.check then (Some(s), k)
    else if s in k.checked then (None, k)
    else
      var (r, k') :=
        match g.roles[s]
        case Plain => CheckPlain(g, k, s)
        case Choice(_) => CheckChoice(g, k, s)
        case Member(c) => CheckDeps(g, k, c);
      (if !g.strict && r == Some(s) then None else r, k')
  }

  function CheckPlain(g: Graph, k: Marks, s: nat): (r: (Option<nat>, Marks))
    requires IsGraph(g) && s < |g.refs| && s !in k.checked
    ensures k.checked <= r.1.checked
    decreases All(g) - k.checked, 1, 0
  {
    var (r, k') := CheckRefs(g, Marks(k.check + {s}, k.checked + {s}), g.refs[s]);
    (r, k'.(check := k'.check - {s}))
  }

  /** The choice and its members are one unit: all are marked at once, but the
      choice itself is released before its members are looked at. */
  function CheckChoice(g: Graph, k: Marks, c: nat): (r: (Option<nat>, Marks))
    requires IsGraph(g) && c < |g.refs| && c !in k.checked && g.roles[c].Choice?
    ensures k.checked <= r.1.checked
    decreases All(g) - k.checked, 1, 0
  {
    var ms := g.roles[c].members;
    var (r, k1) := CheckRefs(g, Marks(k.check + SetOf(ms) + {c}, k.checked + SetOf(ms) + {c}), g.refs[c]);
    var k2 := k1.(check := k1.check - {c});
    var (r', k3) := if r.Some? then (r, k2) else CheckMembers(g, k2, ms);
    (if r'.Some? && r'.value in ms then Some(c) else r', k3.(check := k3.check - SetOf(ms)))
  }

  function CheckMembers(g: Graph, k: Marks, ms: seq<nat>): (r: (Option<nat>, Marks))
    requires IsGraph(g) && InRange(g, ms)
    ensures k.checked <= r.1.checked
    decreases All(g) - k.checked, 4, |ms|
  {
    if ms == [] then (None, k)
    else
      var (r, k') := CheckRefs(g, k, g.refs[ms[0]]);
      if r.Some? then (r, k') else CheckMembers(g, k', ms[1..])
  }

  function CheckRefs(g: Graph, k: Marks, refs: seq<nat>): (r: (Option<nat>, Marks))
    requires IsGraph(g) && InRange(g, refs)
    ensures k.checked <= r.1.checked
    decreases All(g) - k.checked, 3, |refs|
  {
    if refs == [] then (None, k)
    else
      var (r, k') := CheckDeps(g, k, refs[0]);
      if r.Some? then (r, k') else CheckRefs(g, k', refs[1..])
  }

  /** All symbols in turn; the number of errors. */
  function CheckAll(g: Graph, k: Marks, symbols: seq<nat>): nat
    requires IsGraph(g) && InRange(g, symbols)
    decreases |symbols|
  {
    if symbols == [] then 0
    else
      var (r, k') := CheckDeps(g, k, symbols[0]);
      (if r.Some? then 1 else 0) + CheckAll(g, k', symbols[1..])
  }

  const UNMARKED := Marks({}, {})
}
