// What the check for recursive dependencies guarantees.

module DependencyOrder {
  import opened DependencyGraph

  // ----- marks are balanced -----

  /** The members of a choice are marked together, and they carry the CHECK
      mark whenever their choice does. */
  ghost predicate Consistent(g: Graph, k: Marks)
    requires IsGraph(g)
  {
    && k.check <= k.checked
    && forall m | 0 <= m < |g.roles| && g.roles[m].Member? ::
         var c := g.roles[m].choice;
         && (m in k.checked <==> c in k.checked)
         && (c in k.check ==> m in k.check)
         && (m in k.check ==> forall m' | m' in g.roles[c].members :: m' in k.check)
  }

  lemma {:induction false} DepsBalanced(g: Graph, k: Marks, s: nat)
    requires IsGraph(g) && s < |g.refs| && Consistent(g, k)
    ensures var k' := CheckDeps(g, k, s).1; Consistent(g, k') && k'.check == k.check && s in k'.checked
    decreases All(g) - k.checked, 2, if g.roles[s].Member? then 1 else 0
  {
    if s !in k.check && s !in k.checked {
      match g.roles[s]
      case Plain => PlainBalanced(g, k, s);
      case Choice(_) => ChoiceBalanced(g, k, s);
      case Member(c) => DepsBalanced(g, k, c);
    }
  }

  lemma {:induction false} PlainBalanced(g: Graph, k: Marks, s: nat)
    requires IsGraph(g) && s < |g.refs| && s !in k.checked && g.roles[s].Plain? && Consistent(g, k)
    ensures var k' := CheckPlain(g, k, s).1; Consistent(g, k') && k'.check == k.check && s in k'.checked
    decreases All(g) - k.checked, 1, 0
  {
    RefsBalanced(g, Marks(k.check + {s}, k.checked + {s}), g.refs[s]);
  }

  /** The marks while the choice itself is examined. */
  function Marked(g: Graph, k: Marks, c: nat): Marks
    requires c < |g.roles| && g.roles[c].Choice?
  {
    var ms := SetOf(g.roles[c].members);
    Marks(k.check + ms + {c}, k.checked + ms + {c})
  }

  lemma MarkedIsConsistent(g: Graph, k: Marks, c: nat)
    requires IsGraph(g) && c < |g.refs| && c !in k.checked && g.roles[c].Choice? && Consistent(g, k)
    ensures Consistent(g, Marked(g, k, c))
    ensures forall m | m in g.roles[c].members :: m !in k.checked
  {
  }

  lemma ReleaseChoice(g: Graph, k: Marks, c: nat)
    requires IsGraph(g) && c < |g.refs| && g.roles[c].Choice? && Consistent(g, k)
    ensures Consistent(g, k.(check := k.check - {c}))
  {
  }

  lemma ReleaseMembers(g: Graph, k: Marks, c: nat)
    requires IsGraph(g) && c < |g.refs| && g.roles[c].Choice? && c !in k.check && Consistent(g, k)
    ensures Consistent(g, k.(check := k.check - SetOf(g.roles[c].members)))
  {
  }

  lemma {:induction false} ChoiceBalanced(g: Graph, k: Marks, c: nat)
    requires IsGraph(g) && c < |g.refs| && c !in k.checked && g.roles[c].Choice? && Consistent(g, k)
    ensures var k' := CheckChoice(g, k, c).1; Consistent(g, k') && k'.check == k.check && c in k'.checked
    decreases All(g) - k.checked, 1, 0
  {
    var ms := g.roles[c].members;
    MarkedIsConsistent(g, k, c);
    RefsBalanced(g, Marked(g, k, c), g.refs[c]);
    var (r, k1) := CheckRefs(g, Marked(g, k, c), g.refs[c]);
    ReleaseChoice(g, k1, c);
    var k2 := k1.(check := k1.check - {c});
    MembersBalanced(g, k2, ms);
    var k3 := if r.Some? then k2 else CheckMembers(g, k2, ms).1;
    ReleaseMembers(g, k3, c);
  }

  lemma {:induction false} MembersBalanced(g: Graph, k: Marks, ms: seq<nat>)
    requires IsGraph(g) && InRange(g, ms) && Consistent(g, k)
    ensures var k' := CheckMembers(g, k, ms).1; Consistent(g, k') && k'.check == k.check
    decreases All(g) - k.checked, 4, |ms|
  {
    if ms != [] {
      RefsBalanced(g, k, g.refs[ms[0]]);
      MembersBalanced(g, CheckRefs(g, k, g.refs[ms[0]]).1, ms[1..]);
    }
  }

  lemma {:induction false} RefsBalanced(g: Graph, k: Marks, refs: seq<nat>)
    requires IsGraph(g) && InRange(g, refs) && Consistent(g, k)
    ensures var k' := CheckRefs(g, k, refs).1; Consistent(g, k') && k'.check == k.check
    decreases All(g) - k.checked, 3, |refs|
  {
    if refs != [] {
      DepsBalanced(g, k, refs[0]);
      RefsBalanced(g, CheckDeps(g, k, refs[0]).1, refs[1..]);
    }
  }

  // ----- no error: the order in which symbols are finished -----

  /** A symbol on its own, or the members of a choice taken together. */
  datatype Node = One(i: nat) | Group(c: nat)

  function NodeOf(g: Graph, i: nat): Node
    requires i < |g.roles|
  {
    match g.roles[i]
    case Member(c) => Group(c)
    case _ => One(i)
  }

  predicate IsNode(g: Graph, u: Node) {
    match u
    case One(i) => i < |g.roles| && !g.roles[i].Member?
    case Group(c) => c < |g.roles| && g.roles[c].Choice? && g.roles[c].members != []
  }

  /** What evaluating a node needs; members also need their choice. */
  function Targets(g: Graph, u: Node): set<Node>
    requires IsGraph(g) && IsNode(g, u)
  {
    match u
    case One(i) => set j | j in g.refs[i] :: NodeOf(g, j)
    case Group(c) => {One(c)} + set m, j | m in g.roles[c].members && j in g.refs[m] :: NodeOf(g, j)
  }

  ghost predicate Ordered(g: Graph, ord: seq<Node>)
    requires IsGraph(g)
  {
    forall b | 0 <= b < |ord| :: IsNode(g, ord[b]) && forall v | v in Targets(g, ord[b]) :: v in ord[..b]
  }

  predicate Finished(g: Graph, k: Marks, u: Node)
    requires IsNode(g, u)
  {
    match u
    case One(i) => i in k.checked && i !in k.check
    case Group(c) => c in k.checked && c !in k.check && forall m | m in g.roles[c].members :: m !in k.check
  }

  ghost predicate Covers(g: Graph, k: Marks, ord: seq<Node>) {
    forall u | IsNode(g, u) && Finished(g, k, u) :: u in ord
  }

  ghost predicate Progress(g: Graph, k: Marks, ord: seq<Node>)
    requires IsGraph(g)
  {
    Consistent(g, k) && Ordered(g, ord) && Covers(g, k, ord)
  }

  lemma AppendNode(g: Graph, ord: seq<Node>, u: Node)
    requires IsGraph(g) && Ordered(g, ord) && IsNode(g, u) && forall v | v in Targets(g, u) :: v in ord
    ensures Ordered(g, ord + [u])
  {
    var ord' := ord + [u];
    forall b | 0 <= b < |ord'|
      ensures IsNode(g, ord'[b]) && forall v | v in Targets(g, ord'[b]) :: v in ord'[..b]
    {
      assert ord'[..b] == ord[..b];
    }
  }

  lemma CheckedIsFinished(g: Graph, k: Marks, s: nat)
    requires IsGraph(g) && Consistent(g, k) && s < |g.refs| && s in k.checked && s !in k.check
    ensures IsNode(g, NodeOf(g, s)) && Finished(g, k, NodeOf(g, s))
  {
  }

  lemma {:induction false} DepsOrder(g: Graph, k: Marks, s: nat, ord: seq<Node>) returns (ord': seq<Node>)
    requires IsGraph(g) && g.strict && s < |g.refs| && Progress(g, k, ord) && CheckDeps(g, k, s).0.None?
    ensures Progress(g, CheckDeps(g, k, s).1, ord') && ord <= ord' && NodeOf(g, s) in ord'
    decreases All(g) - k.checked, 2, if g.roles[s].Member? then 1 else 0
  {
    DepsBalanced(g, k, s);
    if s in k.checked {
      ord' := ord;
    } else {
      match g.roles[s]
      case Plain => ord' := PlainOrder(g, k, s, ord);
      case Choice(_) => ord' := ChoiceOrder(g, k, s, ord);
      case Member(c) => ord' := DepsOrder(g, k, c, ord);
    }
    CheckedIsFinished(g, CheckDeps(g, k, s).1, s);
  }

  lemma {:induction false} PlainOrder(g: Graph, k: Marks, s: nat, ord: seq<Node>) returns (ord': seq<Node>)
    requires IsGraph(g) && g.strict && s < |g.refs| && s !in k.checked && g.roles[s].Plain?
    requires Progress(g, k, ord) && CheckPlain(g, k, s).0.None?
    ensures Progress(g, CheckPlain(g, k, s).1, ord') && ord <= ord'
    decreases All(g) - k.checked, 1, 0
  {
    PlainBalanced(g, k, s);
    var k1 := Marks(k.check + {s}, k.checked + {s});
    var ord1 := RefsOrder(g, k1, g.refs[s], ord);
    ord' := ord1 + [One(s)];
    AppendNode(g, ord1, One(s));
  }

  lemma {:induction false} ChoiceOrder(g: Graph, k: Marks, c: nat, ord: seq<Node>) returns (ord': seq<Node>)
    requires IsGraph(g) && g.strict && c < |g.refs| && c !in k.checked && g.roles[c].Choice?
    requires Progress(g, k, ord) && CheckChoice(g, k, c).0.None?
    ensures Progress(g, CheckChoice(g, k, c).1, ord') && ord <= ord'
    decreases All(g) - k.checked, 1, 0
  {
    ChoiceBalanced(g, k, c);
    MarkedIsConsistent(g, k, c);
    var ms := g.roles[c].members;
    var ord1 := RefsOrder(g, Marked(g, k, c), g.refs[c], ord);
    var k1 := CheckRefs(g, Marked(g, k, c), g.refs[c]).1;
    RefsBalanced(g, Marked(g, k, c), g.refs[c]);
    var k2 := k1.(check := k1.check - {c});
    ReleaseChoice(g, k1, c);
    AppendNode(g, ord1, One(c));
    var ord2 := ord1 + [One(c)];
    CoversAfterChoice(g, k1, c, ord1);
    var ord3 := MembersOrder(g, k2, ms, ord2);
    MembersBalanced(g, k2, ms);
    ord' := CoversAfterGroup(g, CheckMembers(g, k2, ms).1, c, ord3);
  }

  lemma CoversAfterChoice(g: Graph, k: Marks, c: nat, ord: seq<Node>)
    requires IsGraph(g) && c < |g.refs| && g.roles[c].Choice? && Covers(g, k, ord)
    requires forall m | m in g.roles[c].members :: m in k.check && m != c
    ensures Covers(g, k.(check := k.check - {c}), ord + [One(c)])
  {
    var k' := k.(check := k.check - {c});
    if g.roles[c].members != [] {
      assert g.roles[c].members[0] in k'.check;
      assert !Finished(g, k', Group(c));
    }
    forall u | IsNode(g, u) && Finished(g, k', u)
      ensures u in ord + [One(c)]
    {
      assert u == One(c) || Finished(g, k, u);
    }
  }

  lemma CoversAfterGroup(g: Graph, k: Marks, c: nat, ord: seq<Node>) returns (ord': seq<Node>)
    requires IsGraph(g) && c < |g.refs| && g.roles[c].Choice? && Covers(g, k, ord) && Ordered(g, ord) && One(c) in ord
    requires forall m, j | m in g.roles[c].members && j in g.refs[m] :: NodeOf(g, j) in ord
    ensures Covers(g, k.(check := k.check - SetOf(g.roles[c].members)), ord') && ord <= ord' && Ordered(g, ord')
  {
    var k' := k.(check := k.check - SetOf(g.roles[c].members));
    if g.roles[c].members == [] {
      ord' := ord;
      assert k'.check == k.check;
    } else {
      ord' := ord + [Group(c)];
      AppendNode(g, ord, Group(c));
    }
    forall u | IsNode(g, u) && Finished(g, k', u)
      ensures u in ord'
    {
      assert u != Group(c) ==> Finished(g, k, u);
    }
  }

  lemma {:induction false} MembersOrder(g: Graph, k: Marks, ms: seq<nat>, ord: seq<Node>) returns (ord': seq<Node>)
    requires IsGraph(g) && g.strict && InRange(g, ms) && Progress(g, k, ord) && CheckMembers(g, k, ms).0.None?
    ensures Progress(g, CheckMembers(g, k, ms).1, ord') && ord <= ord'
    ensures forall m, j | m in ms && j in g.refs[m] :: NodeOf(g, j) in ord'
    decreases All(g) - k.checked, 4, |ms|
  {
    ord' := ord;
    if ms != [] {
      ord' := RefsOrder(g, k, g.refs[ms[0]], ord);
      ord' := MembersOrder(g, CheckRefs(g, k, g.refs[ms[0]]).1, ms[1..], ord');
    }
  }

  lemma {:induction false} RefsOrder(g: Graph, k: Marks, refs: seq<nat>, ord: seq<Node>) returns (ord': seq<Node>)
    requires IsGraph(g) && g.strict && InRange(g, refs) && Progress(g, k, ord) && CheckRefs(g, k, refs).0.None?
    ensures Progress(g, CheckRefs(g, k, refs).1, ord') && ord <= ord'
    ensures forall j | j in refs :: NodeOf(g, j) in ord'
    decreases All(g) - k.checked, 3, |refs|
  {
    ord' := ord;
    if refs != [] {
      ord' := DepsOrder(g, k, refs[0], ord);
      ord' := RefsOrder(g, CheckDeps(g, k, refs[0]).1, refs[1..], ord');
    }
  }

  lemma {:induction false} AllOrder(g: Graph, k: Marks, symbols: seq<nat>, ord: seq<Node>) returns (ord': seq<Node>)
    requires IsGraph(g) && g.strict && InRange(g, symbols) && Progress(g, k, ord) && CheckAll(g, k, symbols) == 0
    ensures Ordered(g, ord') && ord <= ord' && forall s | s in symbols :: NodeOf(g, s) in ord'
    decreases |symbols|
  {
    ord' := ord;
    if symbols != [] {
      ord' := DepsOrder(g, k, symbols[0], ord);
      DepsBalanced(g, k, symbols[0]);
      ord' := AllOrder(g, CheckDeps(g, k, symbols[0]).1, symbols[1..], ord');
    }
  }

  predicate AllSymbols(g: Graph, symbols: seq<nat>) {
    InRange(g, symbols) && forall i | 0 <= i < |g.refs| :: i in symbols
  }

  /** Without errors there is an order in which every symbol, and the members of
      every choice, come after all they need. */
  lemma FinishOrder(g: Graph, symbols: seq<nat>) returns (ord: seq<Node>)
    requires IsGraph(g) && g.strict && AllSymbols(g, symbols) && CheckAll(g, UNMARKED, symbols) == 0
    ensures Ordered(g, ord) && forall i | 0 <= i < |g.refs| :: NodeOf(g, i) in ord
  {
    ord := AllOrder(g, UNMARKED, symbols, []);
  }

  // ----- an error: a cycle among symbols, choices counting as one with their members -----

  function Top(g: Graph, i: nat): nat
    requires i < |g.roles|
  {
    match g.roles[i]
    case Member(c) => c
    case _ => i
  }

  /** Symbol i mentions j; that members mention their own choice is no matter. */
  predicate Mentions(g: Graph, i: nat, j: nat) {
    i < |g.refs| && |g.roles| == |g.refs| && j < |g.refs| && j in g.refs[i] && g.roles[i] != Member(j)
  }

  predicate IsChain(g: Graph, steps: seq<(nat, nat)>) {
    && (forall a | 0 <= a < |steps| :: Mentions(g, steps[a].0, steps[a].1))
    && (forall a | 0 < a < |steps| :: Top(g, steps[a - 1].1) == Top(g, steps[a].0))
  }

  ghost predicate HasCycle(g: Graph) {
    exists steps: seq<(nat, nat)> :: IsCycle(g, steps)
  }

  predicate IsCycle(g: Graph, steps: seq<(nat, nat)>) {
    IsChain(g, steps) && steps != [] && Top(g, steps[|steps| - 1].1) == Top(g, steps[0].0)
  }

  /** A chain that leads to the unit t. */
  predicate LeadsTo(g: Graph, steps: seq<(nat, nat)>, t: nat) {
    IsChain(g, steps) && (steps == [] || Top(g, steps[|steps| - 1].1) == t)
  }

  ghost predicate StartsSomewhere(g: Graph, steps: seq<(nat, nat)>, t: nat)
    requires IsChain(g, steps)
  {
    exists a :: 0 <= a < |steps| && Top(g, steps[a].0) == t
  }

  lemma CloseCycle(g: Graph, steps: seq<(nat, nat)>, t: nat)
    requires LeadsTo(g, steps, t) && StartsSomewhere(g, steps, t)
    ensures HasCycle(g)
  {
    var a :| 0 <= a < |steps| && Top(g, steps[a].0) == t;
    var cycle := steps[a..];
    forall b | 0 < b < |cycle|
      ensures Top(g, cycle[b - 1].1) == Top(g, cycle[b].0)
    {
      assert cycle[b - 1] == steps[a + b - 1];
    }
    assert IsCycle(g, cycle);
  }

  /** Every CHECK mark belongs to a unit on the chain, the current one included
      if here is its symbol. */
  ghost predicate OnChain(g: Graph, k: Marks, steps: seq<(nat, nat)>, here: set<nat>)
    requires IsGraph(g) && IsChain(g, steps)
  {
    forall i | i in k.check :: i < |g.refs| && (Top(g, i) in here || StartsSomewhere(g, steps, Top(g, i)))
  }

  lemma {:induction false} DepsCycle(g: Graph, k: Marks, s: nat, steps: seq<(nat, nat)>)
    requires IsGraph(g) && s < |g.refs| && Consistent(g, k) && LeadsTo(g, steps, Top(g, s))
    requires OnChain(g, k, steps, {}) && CheckDeps(g, k, s).0.Some?
    ensures HasCycle(g)
    decreases All(g) - k.checked, 2, if g.roles[s].Member? then 1 else 0
  {
    if s in k.check {
      CloseCycle(g, steps, Top(g, s));
    } else {
      match g.roles[s]
      case Plain => RefsCycle(g, Marks(k.check + {s}, k.checked + {s}), g.refs[s], s, steps);
      case Choice(_) => ChoiceCycle(g, k, s, steps);
      case Member(c) => DepsCycle(g, k, c, steps);
    }
  }

  lemma {:induction false} ChoiceCycle(g: Graph, k: Marks, c: nat, steps: seq<(nat, nat)>)
    requires IsGraph(g) && c < |g.refs| && c !in k.checked && g.roles[c].Choice? && Consistent(g, k)
    requires LeadsTo(g, steps, c) && OnChain(g, k, steps, {}) && CheckChoice(g, k, c).0.Some?
    ensures HasCycle(g)
    decreases All(g) - k.checked, 1, 0
  {
    MarkedIsConsistent(g, k, c);
    var k1 := Marked(g, k, c);
    var (r, k2) := CheckRefs(g, k1, g.refs[c]);
    RefsBalanced(g, k1, g.refs[c]);
    if r.Some? {
      RefsCycle(g, k1, g.refs[c], c, steps);
    } else {
      ReleaseChoice(g, k2, c);
      MembersCycle(g, k2.(check := k2.check - {c}), c, g.roles[c].members, steps);
    }
  }

  lemma {:induction false} MembersCycle(g: Graph, k: Marks, c: nat, ms: seq<nat>, steps: seq<(nat, nat)>)
    requires IsGraph(g) && c < |g.refs| && g.roles[c].Choice? && Consistent(g, k) && c in k.checked && c !in k.check
    requires InRange(g, ms) && forall m | m in ms :: g.roles[m] == Member(c)
    requires LeadsTo(g, steps, c) && OnChain(g, k, steps, {c}) && CheckMembers(g, k, ms).0.Some?
    ensures HasCycle(g)
    decreases All(g) - k.checked, 4, |ms|
  {
    var (r, k') := CheckRefs(g, k, g.refs[ms[0]]);
    if r.Some? {
      RefsCycle(g, k, g.refs[ms[0]], ms[0], steps);
    } else {
      RefsBalanced(g, k, g.refs[ms[0]]);
      MembersCycle(g, k', c, ms[1..], steps);
    }
  }

  lemma {:induction false} RefsCycle(g: Graph, k: Marks, refs: seq<nat>, i: nat, steps: seq<(nat, nat)>)
    requires IsGraph(g) && InRange(g, refs) && i < |g.refs| && Consistent(g, k)
    requires forall j | j in refs :: j in g.refs[i]
    requires g.roles[i].Member? ==> g.roles[i].choice in k.checked && g.roles[i].choice !in k.check
    requires LeadsTo(g, steps, Top(g, i)) && OnChain(g, k, steps, {Top(g, i)}) && CheckRefs(g, k, refs).0.Some?
    ensures HasCycle(g)
    decreases All(g) - k.checked, 3, |refs|
  {
    var j := refs[0];
    var (r, k') := CheckDeps(g, k, j);
    if r.Some? {
      var steps' := steps + [(i, j)];
      assert g.roles[i] != Member(j);
      assert IsChain(g, steps');
      OnLongerChain(g, k, steps, (i, j));
      DepsCycle(g, k, j, steps');
    } else {
      DepsBalanced(g, k, j);
      RefsCycle(g, k', refs[1..], i, steps);
    }
  }

  lemma OnLongerChain(g: Graph, k: Marks, steps: seq<(nat, nat)>, last: (nat, nat))
    requires IsGraph(g) && IsChain(g, steps) && IsChain(g, steps + [last]) && last.0 < |g.refs|
    requires OnChain(g, k, steps, {Top(g, last.0)})
    ensures OnChain(g, k, steps + [last], {})
  {
    var steps' := steps + [last];
    forall i | i in k.check
      ensures i < |g.refs| && StartsSomewhere(g, steps', Top(g, i))
    {
      if StartsSomewhere(g, steps, Top(g, i)) {
        var a :| 0 <= a < |steps| && Top(g, steps[a].0) == Top(g, i);
        assert steps'[a] == steps[a];
      } else {
        assert steps'[|steps|] == last;
      }
    }
  }

  /** Every reported error is a real cycle. */
  lemma {:induction false} ErrorMeansCycle(g: Graph, k: Marks, symbols: seq<nat>)
    requires IsGraph(g) && InRange(g, symbols) && Consistent(g, k) && k.check == {} && CheckAll(g, k, symbols) > 0
    ensures HasCycle(g)
    decreases |symbols|
  {
    if CheckDeps(g, k, symbols[0]).0.Some? {
      DepsCycle(g, k, symbols[0], []);
    } else {
      DepsBalanced(g, k, symbols[0]);
      ErrorMeansCycle(g, CheckDeps(g, k, symbols[0]).1, symbols[1..]);
    }
  }

  // ----- when recursion is not an error -----

  /** Unless it is an error, a cycle is only reported up to where it began. */
  lemma {:induction false} LenientDeps(g: Graph, k: Marks, s: nat)
    requires IsGraph(g) && !g.strict && s < |g.refs| && Consistent(g, k)
    ensures var r := CheckDeps(g, k, s).0; r.Some? ==> r.value in k.check
    decreases All(g) - k.checked, 2, if g.roles[s].Member? then 1 else 0
  {
    if s !in k.check && s !in k.checked {
      match g.roles[s]
      case Plain => LenientRefs(g, Marks(k.check + {s}, k.checked + {s}), g.refs[s]);
      case Choice(_) => LenientChoice(g, k, s);
      case Member(c) => LenientDeps(g, k, c);
    }
  }

  lemma {:induction false} LenientChoice(g: Graph, k: Marks, c: nat)
    requires IsGraph(g) && !g.strict && c < |g.refs| && c !in k.checked && g.roles[c].Choice? && Consistent(g, k)
    ensures var r := CheckChoice(g, k, c).0; r.Some? ==> r.value in k.check || r.value == c
    decreases All(g) - k.checked, 1, 0
  {
    MarkedIsConsistent(g, k, c);
    LenientRefs(g, Marked(g, k, c), g.refs[c]);
    RefsBalanced(g, Marked(g, k, c), g.refs[c]);
    var (r, k1) := CheckRefs(g, Marked(g, k, c), g.refs[c]);
    if r.None? {
      ReleaseChoice(g, k1, c);
      LenientMembers(g, k1.(check := k1.check - {c}), g.roles[c].members);
    }
  }

  lemma {:induction false} LenientMembers(g: Graph, k: Marks, ms: seq<nat>)
    requires IsGraph(g) && !g.strict && InRange(g, ms) && Consistent(g, k)
    ensures var r := CheckMembers(g, k, ms).0; r.Some? ==> r.value in k.check
    decreases All(g) - k.checked, 4, |ms|
  {
    if ms != [] {
      LenientRefs(g, k, g.refs[ms[0]]);
      RefsBalanced(g, k, g.refs[ms[0]]);
      LenientMembers(g, CheckRefs(g, k, g.refs[ms[0]]).1, ms[1..]);
    }
  }

  lemma {:induction false} LenientRefs(g: Graph, k: Marks, refs: seq<nat>)
    requires IsGraph(g) && !g.strict && InRange(g, refs) && Consistent(g, k)
    ensures var r := CheckRefs(g, k, refs).0; r.Some? ==> r.value in k.check
    decreases All(g) - k.checked, 3, |refs|
  {
    if refs != [] {
      LenientDeps(g, k, refs[0]);
      DepsBalanced(g, k, refs[0]);
      LenientRefs(g, CheckDeps(g, k, refs[0]).1, refs[1..]);
    }
  }

  /** So nothing fails then, whatever the configuration. */
  lemma {:induction false} LenientCheckPasses(g: Graph, k: Marks, symbols: seq<nat>)
    requires IsGraph(g) && !g.strict && InRange(g, symbols) && Consistent(g, k) && k.check == {}
    ensures CheckAll(g, k, symbols) == 0
    decreases |symbols|
  {
    if symbols != [] {
      LenientDeps(g, k, symbols[0]);
      DepsBalanced(g, k, symbols[0]);
      LenientCheckPasses(g, CheckDeps(g, k, symbols[0]).1, symbols[1..]);
    }
  }

  // ----- exactly when the check finds all cycles -----

  /** Symbol j stands for the members of choice c: it is one of them, or lies
      below one and so mentions the choice too. */
  predicate StandsForMembers(g: Graph, c: nat, j: nat)
    requires IsGraph(g) && j < |g.refs|
  {
    g.roles[j] == Member(c) || (g.roles[j].Plain? && c in g.refs[j])
  }

  /** Whatever mentions a choice from outside also mentions one of its members,
      or an entry below them. */
  predicate MembersComeAlong(g: Graph)
    requires IsGraph(g)
  {
    forall i | 0 <= i < |g.refs| :: forall c | c in g.refs[i] && IsNode(g, Group(c)) && Top(g, i) != c ::
      exists j :: j in g.refs[i] && StandsForMembers(g, c, j)
  }

  function First(ord: seq<Node>, u: Node): (b: nat)
    requires u in ord
    ensures b < |ord| && ord[b] == u && u !in ord[..b]
  {
    if ord[0] == u then 0
    else
      var b := First(ord[1..], u);
      assert ord[..b + 1] == [ord[0]] + ord[1..][..b];
      b + 1
  }

  lemma FirstIsLower(g: Graph, ord: seq<Node>, u: Node, v: Node)
    requires IsGraph(g) && Ordered(g, ord) && u in ord && IsNode(g, u) && v in Targets(g, u)
    ensures v in ord && First(ord, v) < First(ord, u)
  {
    var b := First(ord, u);
    var a :| 0 <= a < b && ord[..b][a] == v;
    FirstAtMost(ord, v, a);
  }

  lemma {:induction false} FirstAtMost(ord: seq<Node>, v: Node, a: nat)
    requires a < |ord| && ord[a] == v
    ensures First(ord, v) <= a
  {
    if ord[0] != v {
      FirstAtMost(ord[1..], v, a - 1);
    }
  }

  /** The node by which a unit is finished. */
  function LastNode(g: Graph, t: nat): Node
    requires t < |g.roles|
  {
    if g.roles[t].Choice? && g.roles[t].members != [] then Group(t) else One(t)
  }

  lemma LastNodeIsIn(g: Graph, ord: seq<Node>, i: nat)
    requires IsGraph(g) && i < |g.refs| && forall j | 0 <= j < |g.refs| :: NodeOf(g, j) in ord
    ensures LastNode(g, Top(g, i)) in ord && IsNode(g, LastNode(g, Top(g, i)))
  {
    var t := Top(g, i);
    assert NodeOf(g, t) in ord;
    if g.roles[t].Choice? && g.roles[t].members != [] {
      assert NodeOf(g, g.roles[t].members[0]) in ord;
    }
  }

  lemma {:induction false} MembersAreLower(g: Graph, ord: seq<Node>, i: nat, c: nat)
    requires IsGraph(g) && MembersComeAlong(g) && i < |g.refs|
            && c in g.refs[i] && IsNode(g, Group(c)) && Top(g, i) != c
    requires Ordered(g, ord) && NodeOf(g, i) in ord
    ensures Group(c) in ord && First(ord, Group(c)) < First(ord, NodeOf(g, i))
    decreases First(ord, NodeOf(g, i))
  {
    var j :| j in g.refs[i] && StandsForMembers(g, c, j);
    assert NodeOf(g, j) in Targets(g, NodeOf(g, i));
    FirstIsLower(g, ord, NodeOf(g, i), NodeOf(g, j));
    if g.roles[j].Plain? {
      MembersAreLower(g, ord, j, c);
    }
  }

  lemma StepIsLower(g: Graph, ord: seq<Node>, i: nat, j: nat)
    requires IsGraph(g) && MembersComeAlong(g) && Mentions(g, i, j)
    requires Ordered(g, ord) && forall s | 0 <= s < |g.refs| :: NodeOf(g, s) in ord
    ensures LastNode(g, Top(g, i)) in ord && LastNode(g, Top(g, j)) in ord
    ensures First(ord, LastNode(g, Top(g, j))) < First(ord, LastNode(g, Top(g, i)))
  {
    LastNodeIsIn(g, ord, i);
    LastNodeIsIn(g, ord, j);
    var u := NodeOf(g, i);
    assert NodeOf(g, j) in Targets(g, u);
    FirstIsLower(g, ord, u, NodeOf(g, j));
    if u != LastNode(g, Top(g, i)) {
      FirstIsLower(g, ord, Group(i), One(i));
    }
    if IsNode(g, Group(j)) && Top(g, i) != j {
      MembersAreLower(g, ord, i, j);
    }
  }

  lemma {:induction false} ChainIsLower(g: Graph, ord: seq<Node>, steps: seq<(nat, nat)>)
    requires IsGraph(g) && MembersComeAlong(g) && IsChain(g, steps) && steps != []
    requires Ordered(g, ord) && forall s | 0 <= s < |g.refs| :: NodeOf(g, s) in ord
    ensures LastNode(g, Top(g, steps[0].0)) in ord && LastNode(g, Top(g, steps[|steps| - 1].1)) in ord
    ensures First(ord, LastNode(g, Top(g, steps[|steps| - 1].1))) < First(ord, LastNode(g, Top(g, steps[0].0)))
    decreases |steps|
  {
    hide IsGraph, MembersComeAlong, Ordered, NodeOf, LastNode;
    StepIsLower(g, ord, steps[0].0, steps[0].1);
    if |steps| > 1 {
      var rest := steps[1..];
      assert forall a | 0 < a < |rest| :: rest[a - 1] == steps[a];
      ChainIsLower(g, ord, rest);
    }
  }

  /** As long as members come along, the check reports nothing exactly when
      there is no cycle. */
  lemma CheckIsExact(g: Graph, symbols: seq<nat>)
    requires IsGraph(g) && g.strict && AllSymbols(g, symbols) && MembersComeAlong(g)
    ensures CheckAll(g, UNMARKED, symbols) == 0 <==> !HasCycle(g)
  {
    if CheckAll(g, UNMARKED, symbols) == 0 {
      var ord := FinishOrder(g, symbols);
      forall steps: seq<(nat, nat)>
        ensures !IsCycle(g, steps)
      {
        if IsCycle(g, steps) {
          ChainIsLower(g, ord, steps);
        }
      }
    } else {
      ErrorMeansCycle(g, UNMARKED, symbols);
    }
  }
}
