// menu_finalize on the next/list/parent pointers (scripts/config/menu.c), and
// the pointer walk that conf_write makes over the result
// (scripts/config/confdata.c).

module MenuTrees {
  import opened Wrappers
  import opened MenuShape

  /** The three pointers of every entry; entries are numbered. */
  datatype Links = Links(next: seq<Option<nat>>, list: seq<Option<nat>>, parent: seq<Option<nat>>)

  /** Following next from p passes the entries ms, all with the given parent,
      and ends at end; their list pointers lead to their submenus. */
  predicate IsList(k: Links, p: Option<nat>, parent: Option<nat>, ms: seq<Menu>, end: Option<nat>)
    decreases ms
  {
    |k.next| == |k.list| == |k.parent| &&
    if ms == [] then p == end
    else
      var i := ms[0].id;
      && p == Some(i) && i < |k.next| && k.parent[i] == parent
      && IsList(k, k.list[i], Some(i), ms[0].kids, None)
      && IsList(k, k.next[i], parent, ms[1..], end)
  }

  function HeadOr(ms: seq<Menu>, end: Option<nat>): Option<nat> {
    if ms == [] then end else Some(ms[0].id)
  }

  function Ids(ms: seq<Menu>): set<nat> {
    set i | i in Preorder(ms)
  }

  predicate NoDup(s: seq<nat>) {
    forall i, j | 0 <= i < j < |s| :: s[i] != s[j]
  }

  /** Every entry occurs once. */
  predicate Distinct(ms: seq<Menu>) {
    NoDup(Preorder(ms))
  }

  ghost predicate SameOutside(k: Links, k': Links, ids: set<nat>) {
    && |k.next| == |k'.next| == |k.list| == |k'.list| == |k.parent| == |k'.parent|
    && forall i | 0 <= i < |k.next| && i !in ids ::
        k'.next[i] == k.next[i] && k'.list[i] == k.list[i] && k'.parent[i] == k.parent[i]
  }

  // ----- facts about lists -----

  lemma NoDupConcat(a: seq<nat>, b: seq<nat>)
    requires NoDup(a + b)
    ensures NoDup(a) && NoDup(b) && forall x | x in a :: x !in b
  {
    assert forall i | 0 <= i < |a| :: (a + b)[i] == a[i];
    assert forall j | 0 <= j < |b| :: (a + b)[|a| + j] == b[j];
  }

  /** The pieces of a list of distinct entries. */
  lemma DistinctCons(ms: seq<Menu>)
    requires ms != [] && Distinct(ms)
    ensures Distinct(ms[0].kids) && Distinct(ms[1..])
    ensures ms[0].id !in Ids(ms[0].kids) && ms[0].id !in Ids(ms[1..]) && Ids(ms[0].kids) !! Ids(ms[1..])
    ensures Ids(ms) == {ms[0].id} + Ids(ms[0].kids) + Ids(ms[1..])
  {
    var a, b, c := [ms[0].id], Preorder(ms[0].kids), Preorder(ms[1..]);
    NoDupConcat(a + b, c);
    NoDupConcat(a, b);
    assert ms[0].id in a && ms[0].id in a + b;
    assert forall x | x in b :: x in a + b;
  }

  lemma IdsConcat(a: seq<Menu>, b: seq<Menu>)
    ensures Ids(a + b) == Ids(a) + Ids(b)
    ensures Distinct(a + b) ==> Distinct(a) && Distinct(b) && Ids(a) !! Ids(b)
  {
    PreorderConcat(a, b);
    if Distinct(a + b) {
      NoDupConcat(Preorder(a), Preorder(b));
    }
  }

  lemma {:induction false} ListConcat(k: Links, p: Option<nat>, parent: Option<nat>, a: seq<Menu>, b: seq<Menu>,
          end: Option<nat>)
    ensures IsList(k, p, parent, a + b, end) <==>
            IsList(k, p, parent, a, HeadOr(b, end)) && IsList(k, HeadOr(b, end), parent, b, end)
    decreases |a|
  {
    if a == [] {
      assert a + b == b;
    } else {
      assert (a + b)[1..] == a[1..] + b;
      if a[0].id < |k.next| {
        ListConcat(k, k.next[a[0].id], parent, a[1..], b, end);
      }
    }
  }

  lemma {:induction false} ListFrame(k: Links, k': Links, p: Option<nat>, parent: Option<nat>, ms: seq<Menu>,
          end: Option<nat>, ids: set<nat>)
    requires IsList(k, p, parent, ms, end) && SameOutside(k, k', ids) && Ids(ms) !! ids
    ensures IsList(k', p, parent, ms, end)
    decreases ms
  {
    if ms != [] {
      var i := ms[0].id;
      assert i in Ids(ms) && Ids(ms[0].kids) <= Ids(ms) && Ids(ms[1..]) <= Ids(ms);
      ListFrame(k, k', k.list[i], Some(i), ms[0].kids, None, ids);
      ListFrame(k, k', k.next[i], parent, ms[1..], end, ids);
    }
  }

  lemma IdsCons(ms: seq<Menu>)
    requires ms != []
    ensures Ids(ms) == {ms[0].id} + Ids(ms[0].kids) + Ids(ms[1..])
  {
    assert Preorder(ms) == [ms[0].id] + Preorder(ms[0].kids) + Preorder(ms[1..]);
  }

  lemma {:induction false} ListInRange(k: Links, p: Option<nat>, parent: Option<nat>, ms: seq<Menu>, end: Option<nat>)
    requires IsList(k, p, parent, ms, end)
    ensures forall i | i in Ids(ms) :: i < |k.next|
    decreases ms
  {
    if ms != [] {
      IdsCons(ms);
      ListInRange(k, k.list[ms[0].id], Some(ms[0].id), ms[0].kids, None);
      ListInRange(k, k.next[ms[0].id], parent, ms[1..], end);
    }
  }

  /** One more entry at the end of the part already passed. */
  lemma ExtendSegment(k: Links, p: Option<nat>, parent: Option<nat>, done: seq<Menu>, h: Menu, end: Option<nat>)
    requires IsList(k, p, parent, done, Some(h.id)) && IsList(k, Some(h.id), parent, [h], end)
    ensures IsList(k, p, parent, done + [h], end)
  {
    ListConcat(k, p, parent, done, [h], end);
  }

  lemma SplitHead(k: Links, p: Option<nat>, parent: Option<nat>, h: Menu, rest: seq<Menu>)
    requires IsList(k, p, parent, [h] + rest, None)
    ensures p == Some(h.id) && h.id < |k.next|
    ensures IsList(k, p, parent, [h], k.next[h.id]) && IsList(k, k.next[h.id], parent, rest, None)
  {
    assert ([h] + rest)[1..] == rest && [h][1..] == [];
  }

  /** Redirecting the last next pointer of a list. */
  lemma {:induction false} RedirectEnd(k: Links, k': Links, p: Option<nat>, parent: Option<nat>, ms: seq<Menu>,
          end: Option<nat>, end': Option<nat>)
    requires ms != [] && Distinct(ms) && IsList(k, p, parent, ms, end)
    requires ms[|ms| - 1].id < |k.next| && k' == k.(next := k.next[ms[|ms| - 1].id := end'])
    ensures IsList(k', p, parent, ms, end')
    decreases ms
  {
    var i, last := ms[0].id, ms[|ms| - 1].id;
    DistinctCons(ms);
    if |ms| == 1 {
      assert ms[1..] == [];
    } else {
      assert ms[1..][|ms| - 2] == ms[|ms| - 1];
      LastIsThere(ms[1..]);
      RedirectEnd(k, k', k.next[i], parent, ms[1..], end, end');
    }
    ListFrame(k, k', k.list[i], Some(i), ms[0].kids, None, {last});
  }

  lemma {:induction false} LastIsThere(ms: seq<Menu>)
    requires ms != []
    ensures ms[|ms| - 1].id in Ids(ms)
  {
    if |ms| > 1 {
      assert ms[1..][|ms| - 2] == ms[|ms| - 1];
      LastIsThere(ms[1..]);
    }
  }

  /** Changing the parent of a single entry. */
  lemma Adopt(k: Links, k': Links, h: Menu, parent: Option<nat>, parent': Option<nat>, end: Option<nat>)
    requires Distinct([h]) && IsList(k, Some(h.id), parent, [h], end)
    requires k' == k.(parent := k.parent[h.id := parent'])
    ensures IsList(k', Some(h.id), parent', [h], end)
  {
    DistinctCons([h]);
    assert [h][1..] == [] && [h][0] == h;
    ListFrame(k, k', k.list[h.id], Some(h.id), h.kids, None, {h.id});
  }

  /** A loop over siblings that started at q has passed done and is at cur, with
      todo still to come; the parent pointers of both parts are given. */
  ghost predicate Passing(k: Links, q: Option<nat>, par: Option<nat>, done: seq<Menu>, cur: Option<nat>,
          par': Option<nat>, todo: seq<Menu>) {
    IsList(k, q, par, done, cur) && IsList(k, cur, par', todo, None) && Distinct(todo) && Ids(done) !! Ids(todo)
  }

  /** The entry at cur has been rewritten to h, which leaves rest after it. */
  lemma PassOne(k: Links, k': Links, q: Option<nat>, par: Option<nat>, done: seq<Menu>, cur: Option<nat>,
          todo: seq<Menu>, h: Menu, rest: seq<Menu>)
    requires Passing(k, q, par, done, cur, par, todo) && SameOutside(k, k', Ids(todo))
    requires IsList(k', cur, par, [h] + rest, None) && Preorder([h] + rest) == Preorder(todo)
    ensures h.id < |k'.next| && Passing(k', q, par, done + [h], k'.next[h.id], par, rest)
    ensures Ids(done + [h]) + Ids(rest) == Ids(done) + Ids(todo) && |Preorder(rest)| < |Preorder(todo)|
  {
    ListFrame(k, k', q, par, done, cur, Ids(todo));
    SplitHead(k', cur, par, h, rest);
    ExtendSegment(k', q, par, done, h, k'.next[h.id]);
    IdsConcat(done, [h]);
    IdsConcat([h], rest);
    PreorderCons(h, rest);
  }

  /** The same when the entry is moved below p, the owner of the list. */
  lemma AdoptOne(k: Links, k': Links, k'': Links, q: Option<nat>, p: nat, par: Option<nat>, done: seq<Menu>,
          cur: Option<nat>, todo: seq<Menu>, h: Menu, rest: seq<Menu>)
    requires Passing(k, q, Some(p), done, cur, par, todo) && SameOutside(k, k', Ids(todo))
    requires IsList(k', cur, par, [h] + rest, None) && Preorder([h] + rest) == Preorder(todo)
    requires h.id < |k'.parent| && k'' == k'.(parent := k'.parent[h.id := Some(p)])
    ensures h.id < |k''.next| && Passing(k'', q, Some(p), done + [h], k''.next[h.id], par, rest)
    ensures Ids(done + [h]) + Ids(rest) == Ids(done) + Ids(todo)
            && h.id in Ids(todo) && |Preorder(rest)| < |Preorder(todo)|
  {
    SplitHead(k', cur, par, h, rest);
    IdsConcat(done, [h]);
    IdsConcat([h], rest);
    PreorderCons(h, rest);
    assert h.id in Ids([h] + rest) && h.id in Ids([h]);
    ListFrame(k, k'', q, Some(p), done, cur, Ids(todo));
    ListFrame(k', k'', k'.next[h.id], par, rest, None, {h.id});
    Adopt(k', k'', h, par, Some(p), k'.next[h.id]);
    ExtendSegment(k'', q, Some(p), done, h, k''.next[h.id]);
  }

  lemma {:induction false} LastNext(k: Links, p: Option<nat>, par: Option<nat>, ms: seq<Menu>, end: Option<nat>)
    requires ms != [] && IsList(k, p, par, ms, end)
    ensures ms[|ms| - 1].id < |k.next| && k.next[ms[|ms| - 1].id] == end
    decreases |ms|
  {
    if |ms| > 1 {
      LastNext(k, k.next[ms[0].id], par, ms[1..], end);
    }
  }

  /** The entries passed become the submenu of p, the others follow p. */
  lemma CloseSubmenu(k: Links, k': Links, q: Option<nat>, p: nat, par: Option<nat>, done: seq<Menu>,
          cur: Option<nat>, todo: seq<Menu>, last: nat)
    requires Passing(k, q, Some(p), done, cur, par, todo) && Distinct(done) && done != [] && last == done[|done| - 1].id
    requires p < |k.next| && last < |k.next| && p !in Ids(done) && p !in Ids(todo) && last != p
    requires k' == k.(list := k.list[p := q], next := k.next[p := k.next[last]][last := None])
    ensures IsList(k', k'.list[p], Some(p), done, None) && IsList(k', k'.next[p], par, todo, None)
    ensures SameOutside(k, k', Ids(done) + {p})
  {
    LastNext(k, q, Some(p), done, cur);
    LastIsThere(done);
    ListFrame(k, k', cur, par, todo, None, {p, last});
    var mid := k.(next := k.next[last := None]);
    RedirectEnd(k, mid, q, Some(p), done, cur, None);
    ListFrame(mid, k', q, Some(p), done, None, {p});
  }

  lemma AbsorbNext(f: MenuInfo, p: nat, todo: seq<Menu>)
    requires todo != [] && f.nests(p, todo[0].id)
    ensures var (h, rest) := FinalizeHead(f, todo);
            Absorb(f, p, todo) == ([h] + Absorb(f, p, rest).0, Absorb(f, p, rest).1)
  {
  }

  /** The result of the collecting loop that has taken done and is to see todo. */
  function AbsorbFrom(f: MenuInfo, p: nat, done: seq<Menu>, todo: seq<Menu>): (seq<Menu>, seq<Menu>) {
    (done + Absorb(f, p, todo).0, Absorb(f, p, todo).1)
  }

  lemma AbsorbStart(f: MenuInfo, p: nat, todo: seq<Menu>)
    ensures AbsorbFrom(f, p, [], todo) == Absorb(f, p, todo)
  {
    assert [] + Absorb(f, p, todo).0 == Absorb(f, p, todo).0;
  }

  lemma AbsorbStep(f: MenuInfo, p: nat, done: seq<Menu>, todo: seq<Menu>)
    requires todo != [] && f.nests(p, todo[0].id)
    ensures var (h, rest) := FinalizeHead(f, todo); AbsorbFrom(f, p, done, todo) == AbsorbFrom(f, p, done + [h], rest)
  {
    var (h, rest) := FinalizeHead(f, todo);
    AbsorbNext(f, p, todo);
    Associate(done, [h], Absorb(f, p, rest).0);
  }

  lemma AbsorbStop(f: MenuInfo, p: nat, done: seq<Menu>, todo: seq<Menu>)
    requires todo == [] || !f.nests(p, todo[0].id)
    ensures AbsorbFrom(f, p, done, todo) == (done, todo)
  {
    assert done + [] == done;
  }

  lemma FinalizeAllStep(f: MenuInfo, done: seq<Menu>, todo: seq<Menu>)
    requires todo != []
    ensures var (h, rest) := FinalizeHead(f, todo);
            done + FinalizeAll(f, todo) == (done + [h]) + FinalizeAll(f, rest)
  {
    var (h, rest) := FinalizeHead(f, todo);
    assert FinalizeAll(f, todo) == [h] + FinalizeAll(f, rest);
  }

  lemma DistinctAppend(done: seq<Menu>, h: Menu, rest: seq<Menu>, todo: seq<Menu>)
    requires Distinct(done) && Distinct(todo) && Ids(done) !! Ids(todo) && Preorder([h] + rest) == Preorder(todo)
    ensures Distinct(done + [h])
  {
    PreorderConcat(done, [h]);
    IdsConcat([h], rest);
    var a, b := Preorder(done), Preorder([h]);
    forall i, j | 0 <= i < j < |a + b| ensures (a + b)[i] != (a + b)[j] {
      if i < |a| <= j {
        assert a[i] in Ids(done) && b[j - |a|] in Ids([h]);
      }
    }
  }

  /** The loop that collects the entries below p, started on the links k0. */
  ghost predicate Taking(f: MenuInfo, k0: Links, k: Links, p: nat, par: Option<nat>, sibs: seq<Menu>,
          done: seq<Menu>, cur: Option<nat>, todo: seq<Menu>) {
    && SameOutside(k0, k, Ids(sibs)) && p < |k.next| && p !in Ids(sibs)
    && Passing(k, k.next[p], Some(p), done, cur, par, todo) && Distinct(done)
    && Ids(done) + Ids(todo) <= Ids(sibs) && |Preorder(todo)| <= |Preorder(sibs)|
    && Absorb(f, p, sibs) == AbsorbFrom(f, p, done, todo)
  }

  lemma TakeOne(f: MenuInfo, k0: Links, k: Links, k': Links, k'': Links, p: nat, par: Option<nat>, sibs: seq<Menu>,
          done: seq<Menu>, cur: Option<nat>, todo: seq<Menu>, h: Menu, rest: seq<Menu>)
    requires Taking(f, k0, k, p, par, sibs, done, cur, todo) && todo != [] && f.nests(p, todo[0].id)
    requires FinalizeHead(f, todo) == (h, rest)
            && SameOutside(k, k', Ids(todo)) && IsList(k', cur, par, [h] + rest, None)
    requires h.id < |k'.parent| && k'' == k'.(parent := k'.parent[h.id := Some(p)])
    ensures h.id < |k''.next| && Taking(f, k0, k'', p, par, sibs, done + [h], k''.next[h.id], rest)
    ensures |Preorder(rest)| < |Preorder(todo)|
  {
    AbsorbStep(f, p, done, todo);
    AdoptOne(k, k', k'', k.next[p], p, par, done, cur, todo, h, rest);
    DistinctAppend(done, h, rest, todo);
    SameOutsideGrows(k0, k, k', k'', Ids(sibs), Ids(todo), h.id, Some(p));
  }

  lemma SameOutsideGrows(k0: Links, k: Links, k': Links,
          k'': Links, ids: set<nat>, few: set<nat>, i: nat, q: Option<nat>)
    requires SameOutside(k0, k, ids) && SameOutside(k, k', few) && few <= ids && i in ids
    requires i < |k'.parent| && k'' == k'.(parent := k'.parent[i := q])
    ensures SameOutside(k0, k'', ids)
  {
  }

  lemma TakingLast(f: MenuInfo, k0: Links, k: Links, p: nat, par: Option<nat>, sibs: seq<Menu>, done: seq<Menu>,
          cur: Option<nat>, todo: seq<Menu>)
    requires Taking(f, k0, k, p, par, sibs, done, cur, todo)
    ensures p !in Ids(done) && p !in Ids(todo) && Ids(done) <= Ids(sibs)
    ensures done == [] ==> IsList(k, None, Some(p), done, None) && IsList(k, k.next[p], par, todo, None)
    ensures done != [] ==> done[|done| - 1].id < |k.next| && done[|done| - 1].id in Ids(sibs)
  {
    if done != [] {
      LastIsThere(done);
      LastNext(k, k.next[p], Some(p), done, cur);
    }
  }

  /** The submenu of the first entry is put after it. */
  lemma SpliceSubmenu(k: Links, k': Links, k'': Links, p: nat, todo: seq<Menu>, last: nat)
    requires todo != [] && todo[0].kids != [] && Distinct(todo) && IsList(k, Some(todo[0].id), Some(p), todo, None)
    requires SameOutside(k, k', Ids(todo[0].kids)) && IsList(k', k.list[todo[0].id], Some(p), todo[0].kids, None)
    requires last == todo[0].kids[|todo[0].kids| - 1].id < |k.next|
    requires k'' == k'.(next := k'.next[last := k'.next[todo[0].id]][todo[0].id := k'.list[todo[0].id]],
            list := k'.list[todo[0].id := None])
    ensures SameOutside(k, k'', Ids(todo))
    ensures IsList(k'', Some(todo[0].id), Some(p), [Menu(todo[0].id, [])] + (todo[0].kids + todo[1..]), None)
  {
    var m, kids, rest := todo[0].id, todo[0].kids, todo[1..];
    DistinctCons(todo);
    LastIsThere(kids);
    var mid := k'.(next := k'.next[last := k'.next[m]]);
    RedirectEnd(k', mid, k.list[m], Some(p), kids, None, k'.next[m]);
    ListFrame(mid, k'', k.list[m], Some(p), kids, k'.next[m], {m});
    ListFrame(k, k'', k.next[m], Some(p), rest, None, {m} + Ids(kids));
    ListConcat(k'', k.list[m], Some(p), kids, rest, None);
    assert HeadOr(rest, None) == k.next[m] == k'.next[m];
    assert ([Menu(m, [])] + (kids + rest))[1..] == kids + rest;
  }

  lemma SpliceKeepsOrder(todo: seq<Menu>)
    requires todo != []
    ensures Preorder([Menu(todo[0].id, [])] + (todo[0].kids + todo[1..])) == Preorder(todo)
  {
    PreorderConcat(todo[0].kids, todo[1..]);
    PreorderCons(Menu(todo[0].id, []), todo[0].kids + todo[1..]);
  }

  lemma FlattenStep(f: MenuInfo, done: seq<Menu>, todo: seq<Menu>, h: Menu, rest: seq<Menu>)
    requires todo != []
    requires (h, rest)
          == if Hidden(f, todo[0]) then (Menu(todo[0].id, []), todo[0].kids + todo[1..]) else (todo[0], todo[1..])
    ensures done + Flatten(f, todo) == (done + [h]) + Flatten(f, rest)
  {
    Associate(done, [h], Flatten(f, rest));
  }

  /** The loop that gives the entries of a submenu of m the parent p. */
  ghost predicate Moving(k0: Links, k: Links, q: Option<nat>, p: nat, m: nat, kids: seq<Menu>, done: seq<Menu>,
          cur: Option<nat>, todo: seq<Menu>) {
    && Passing(k, q, Some(p), done, cur, Some(m), todo)
    && kids == done + todo && Ids(todo) <= Ids(kids) && SameOutside(k0, k, Ids(kids))
  }

  lemma MoveStart(k: Links, q: Option<nat>, p: nat, m: nat, kids: seq<Menu>)
    requires kids != [] && Distinct(kids) && IsList(k, q, Some(m), kids, None)
    ensures Moving(k, k, q, p, m, kids, [], q, kids) && q == Some(kids[0].id) && kids[0].id < |k.parent|
  {
    assert kids == [] + kids;
  }

  lemma MoveOne(k0: Links, k: Links, k': Links, q: Option<nat>, p: nat, m: nat, kids: seq<Menu>, done: seq<Menu>,
          i: nat, todo: seq<Menu>)
    requires Moving(k0, k, q, p, m, kids, done, Some(i), todo)
    requires i < |k.parent| && k' == k.(parent := k.parent[i := Some(p)])
    ensures todo != [] && todo[0].id == i < |k'.next| && |Preorder(todo[1..])| < |Preorder(todo)|
    ensures Moving(k0, k', q, p, m, kids, done + [todo[0]], k'.next[i], todo[1..])
  {
    var h, rest := todo[0], todo[1..];
    assert [h] + rest == todo;
    IdsConcat([h], rest);
    AdoptOne(k, k, k', q, p, Some(m), done, Some(i), todo, h, rest);
    Associate(done, [h], rest);
  }

  lemma MoveNext(k0: Links, k: Links, q: Option<nat>, p: nat, m: nat, kids: seq<Menu>, done: seq<Menu>, i: nat,
          todo: seq<Menu>)
    requires Moving(k0, k, q, p, m, kids, done, Some(i), todo)
    ensures todo != [] && todo[0].id == i < |k.parent|
  {
  }

  lemma MoveEnd(k0: Links, k: Links, q: Option<nat>, p: nat, m: nat, kids: seq<Menu>, done: seq<Menu>, todo: seq<Menu>)
    requires Moving(k0, k, q, p, m, kids, done, None, todo)
    ensures done == kids && IsList(k, q, Some(p), kids, None) && SameOutside(k0, k, Ids(kids))
  {
    assert done + [] == done;
  }

  /** The flattening loop over the entries kids of p. */
  ghost predicate Flattening(f: MenuInfo, k0: Links, k: Links, p: nat, kids: seq<Menu>, done: seq<Menu>,
          cur: Option<nat>, todo: seq<Menu>) {
    && p < |k.list| == |k0.list| && Passing(k, k0.list[p], Some(p), done, cur, Some(p), todo)
    && Flatten(f, kids) == done + Flatten(f, todo)
    && Ids(done) + Ids(todo) <= Ids(kids) && SameOutside(k0, k, Ids(kids))
  }

  lemma FlattenStart(f: MenuInfo, k: Links, p: nat, kids: seq<Menu>)
    requires p < |k.list| && Distinct(kids) && IsList(k, k.list[p], Some(p), kids, None)
    ensures Flattening(f, k, k, p, kids, [], k.list[p], kids)
  {
    assert [] + Flatten(f, kids) == Flatten(f, kids);
  }

  lemma FlattenAt(f: MenuInfo, k0: Links, k: Links, p: nat, kids: seq<Menu>, done: seq<Menu>, i: nat, todo: seq<Menu>)
    requires Flattening(f, k0, k, p, kids, done, Some(i), todo)
    ensures todo != [] && todo[0].id == i < |k.list| && Distinct(todo) && IsList(k, Some(i), Some(p), todo, None)
    ensures Distinct(todo[0].kids) && k.list[i] == HeadOr(todo[0].kids, None)
            && IsList(k, k.list[i], Some(i), todo[0].kids, None)
  {
    DistinctCons(todo);
    assert IsList(k, k.list[i], Some(i), todo[0].kids, None);
  }

  lemma FlattenOne(f: MenuInfo, k0: Links, k: Links, k': Links, p: nat, kids: seq<Menu>, done: seq<Menu>, i: nat,
          todo: seq<Menu>, h: Menu, rest: seq<Menu>)
    requires Flattening(f, k0, k, p, kids, done, Some(i), todo) && todo != [] && SameOutside(k, k', Ids(todo))
    requires (h, rest)
          == if Hidden(f, todo[0]) then (Menu(todo[0].id, []), todo[0].kids + todo[1..]) else (todo[0], todo[1..])
    requires IsList(k', Some(i), Some(p), [h] + rest, None)
    ensures i < |k'.next| && Flattening(f, k0, k', p, kids, done + [h], k'.next[i], rest)
    ensures |Preorder(rest)| < |Preorder(todo)|
  {
    SpliceKeepsOrder(todo);
    assert [todo[0]] + todo[1..] == todo;
    FlattenStep(f, done, todo, h, rest);
    PassOne(k, k', k0.list[p], Some(p), done, Some(i), todo, h, rest);
  }

  lemma FlattenEnd(f: MenuInfo, k0: Links, k: Links, p: nat, kids: seq<Menu>, done: seq<Menu>, todo: seq<Menu>)
    requires Flattening(f, k0, k, p, kids, done, None, todo)
    ensures IsList(k, k0.list[p], Some(p), Flatten(f, kids), None) && SameOutside(k0, k, Ids(kids))
  {
    assert done + [] == done;
  }

  /** The submenu of p is now kids, the entries after it are rest. */
  ghost predicate Halfway(k0: Links, k: Links, p: nat,
          par: Option<nat>, ms: seq<Menu>, kids: seq<Menu>, rest: seq<Menu>) {
    && SameOutside(k0, k, Ids(ms)) && p < |k.next| && k.parent[p] == par
    && IsList(k, k.list[p], Some(p), kids, None) && IsList(k, k.next[p], par, rest, None)
    && Preorder(ms) == [p] + Preorder(kids) + Preorder(rest) && Distinct(ms)
  }

  lemma HalfwayAtFirst(k: Links, p: nat, par: Option<nat>, ms: seq<Menu>)
    requires ms != [] && ms[0].id == p && Distinct(ms) && IsList(k, Some(p), par, ms, None)
    ensures Halfway(k, k, p, par, ms, ms[0].kids, ms[1..]) && Distinct(ms[1..]) && p !in Ids(ms[1..])
    ensures p < |k.next| == |k.list| == |k.parent| && (k.list[p].Some? <==> ms[0].kids != [])
    ensures Distinct(ms[0].kids) && p !in Ids(ms[0].kids)
  {
    DistinctCons(ms);
  }

  /** The entries of ms fall into p, those below it and those after it. */
  lemma HalfwayIsApart(k0: Links, k: Links, p: nat, par: Option<nat>, ms: seq<Menu>, kids: seq<Menu>, rest: seq<Menu>)
    requires Halfway(k0, k, p, par, ms, kids, rest)
    ensures Distinct(kids) && p < |k.list| && p !in Ids(kids) && p !in Ids(rest) && Ids(kids) !! Ids(rest)
    ensures Ids(ms) == {p} + Ids(kids) + Ids(rest)
            && |Preorder(kids)| < |Preorder(ms)| && |Preorder(rest)| < |Preorder(ms)|
  {
    var a, b, c := [p], Preorder(kids), Preorder(rest);
    NoDupConcat(a + b, c);
    NoDupConcat(a, b);
    assert p in a && p in a + b;
    assert forall x | x in b :: x in a + b;
  }

  lemma HalfwayByChildren(k0: Links, k: Links, p: nat, par: Option<nat>, ms: seq<Menu>, kids: seq<Menu>,
          kids': seq<Menu>, rest: seq<Menu>)
    requires Halfway(k0, k0, p, par, ms, kids, rest) && Preorder(kids') == Preorder(kids)
    requires p < |k.list| && SameOutside(k0, k, Ids(kids)) && IsList(k, k.list[p], Some(p), kids', None)
    ensures Halfway(k0, k, p, par, ms, kids', rest)
  {
    HalfwayIsApart(k0, k0, p, par, ms, kids, rest);
    ListFrame(k0, k, k0.next[p], par, rest, None, Ids(kids));
  }

  lemma SameOutsideWiden(k: Links, k': Links, few: set<nat>, ids: set<nat>)
    requires SameOutside(k, k', few) && few <= ids
    ensures SameOutside(k, k', ids)
  {
  }

  lemma AfterOne(p: nat, a: seq<nat>, b: seq<nat>)
    ensures [p] + [] + (a + b) == [p] + a + b
  {
  }

  lemma HalfwayByAbsorbing(k0: Links, k: Links, p: nat, par: Option<nat>, ms: seq<Menu>, sibs: seq<Menu>,
          below: seq<Menu>, after: seq<Menu>)
    requires Halfway(k0, k0, p, par, ms, [], sibs) && SameOutside(k0, k, Ids(sibs) + {p}) && k.parent[p] == k0.parent[p]
    requires IsList(k, k.list[p], Some(p), below, None) && IsList(k, k.next[p], par, after, None)
    requires Preorder(below) + Preorder(after) == Preorder(sibs)
    ensures Halfway(k0, k, p, par, ms, below, after)
  {
    hide IsList, Distinct, SameOutside, Ids;
    HalfwayIsApart(k0, k0, p, par, ms, [], sibs);
    SameOutsideWiden(k0, k, Ids(sibs) + {p}, Ids(ms));
    assert Preorder(ms) == [p] + Preorder(below) + Preorder(after) by {
      assert Preorder([]) == [];
      AfterOne(p, Preorder(below), Preorder(after));
    }
  }

  lemma HalfwayResult(f: MenuInfo, ms: seq<Menu>)
    requires ms != []
    ensures FinalizeHead(f, ms).0 == Menu(ms[0].id, Flatten(f,
      if ms[0].kids != [] then FinalizeAll(f, ms[0].kids)
      else if f.hasSym(ms[0].id) then Absorb(f, ms[0].id, ms[1..]).0 else []))
    ensures FinalizeHead(f, ms).1 ==
      if ms[0].kids == [] && f.hasSym(ms[0].id) then Absorb(f, ms[0].id, ms[1..]).1 else ms[1..]
  {
  }

  lemma HalfwayDone(k0: Links, k: Links, k': Links, p: nat, par: Option<nat>, ms: seq<Menu>, kids: seq<Menu>,
          rest: seq<Menu>, h: Menu)
    requires Halfway(k0, k, p, par, ms, kids, rest) && h.id == p
    requires p < |k'.list| && SameOutside(k, k', Ids(kids)) && IsList(k', k'.list[p], Some(p), h.kids, None)
    ensures IsList(k', Some(p), par, [h] + rest, None) && SameOutside(k0, k', Ids(ms))
  {
    HalfwayIsApart(k0, k, p, par, ms, kids, rest);
    ListFrame(k, k', k.next[p], par, rest, None, Ids(kids));
    assert ([h] + rest)[1..] == rest;
  }

  /** Where the walk of conf_write has gone down: below owner, whose later
      siblings are rest. */
  datatype Frame = Frame(owner: nat, rest: seq<Menu>)

  /** The parent pointers lead from par up through the frames. */
  predicate IsPath(k: Links, par: Option<nat>, frames: seq<Frame>)
    decreases |frames|
  {
    if frames == [] then par == None
    else
      var i := frames[0].owner;
      && par == Some(i) && i < |k.next| == |k.parent|
      && IsList(k, k.next[i], k.parent[i], frames[0].rest, None) && IsPath(k, k.parent[i], frames[1..])
  }

  /** What is still to come when the walk leaves the list it is in. */
  function Pending(frames: seq<Frame>): seq<nat> {
    if frames == [] then [] else Preorder(frames[0].rest) + Pending(frames[1..])
  }

  /** The walk stands at menu, the first of the entries todo. */
  ghost predicate Walking(k: Links, menu: Option<nat>, par: Option<nat>, todo: seq<Menu>, frames: seq<Frame>,
          all: seq<nat>, visited: seq<nat>) {
    && IsList(k, menu, par, todo, None) && IsPath(k, par, frames)
    && visited + Preorder(todo) + Pending(frames) == all
  }

  lemma WalkInto(k: Links, menu: Option<nat>, par: Option<nat>, todo: seq<Menu>, frames: seq<Frame>, all: seq<nat>,
          visited: seq<nat>)
    requires menu.Some? && Walking(k, menu, par, todo, frames, all, visited)
    ensures todo != [] && menu == Some(todo[0].id) && |visited| < |all| && todo[0].id < |k.list|
    ensures Walking(k, k.list[todo[0].id], menu, todo[0].kids,
            [Frame(todo[0].id, todo[1..])] + frames, all, visited + [todo[0].id])
    ensures k.list[todo[0].id].Some? <==> todo[0].kids != []
  {
    var below := [Frame(todo[0].id, todo[1..])] + frames;
    assert below[1..] == frames;
    assert visited + ([todo[0].id] + Preorder(todo[0].kids) + Preorder(todo[1..])) + Pending(frames)
        == visited + [todo[0].id] + Preorder(todo[0].kids) + (Preorder(todo[1..]) + Pending(frames));
  }

  lemma WalkStart(k: Links, root: nat, m: Menu)
    requires IsList(k, Some(root), None, [m], None) && m.id == root
    ensures root < |k.list|
    ensures Walking(k, k.list[root], Some(root), m.kids, [Frame(root, [])], Preorder(m.kids), [])
    ensures Pending([Frame(root, [])]) == []
  {
    var frames := [Frame(root, [])];
    assert [m][1..] == [] && frames[1..] == [];
    assert [] + Preorder(m.kids) + [] == Preorder(m.kids);
  }

  lemma WalkEnd(k: Links, frames: seq<Frame>)
    requires IsPath(k, None, frames)
    ensures Pending(frames) == []
  {
  }

  lemma WalkAll(k: Links, par: Option<nat>, todo: seq<Menu>, frames: seq<Frame>, all: seq<nat>, visited: seq<nat>)
    requires Walking(k, None, par, todo, frames, all, visited) && Pending(frames) == []
    ensures visited == all
  {
  }

  lemma WalkUp(k: Links, par: Option<nat>, frames: seq<Frame>, all: seq<nat>, visited: seq<nat>)
    requires par.Some? && Walking(k, None, par, [], frames, all, visited)
    ensures frames != [] && par.value < |k.next| == |k.parent|
    ensures Walking(k, k.next[par.value], k.parent[par.value], frames[0].rest, frames[1..], all, visited)
    ensures k.next[par.value].Some? <==> frames[0].rest != []
  {
    assert visited + [] + (Preorder(frames[0].rest) + Pending(frames[1..]))
        == visited + Preorder(frames[0].rest) + Pending(frames[1..]);
  }

  /** The parent pointers are those of the tree. */
  lemma {:induction false} PointersOfParents(k: Links, q: Option<nat>, p: nat, ms: seq<Menu>, end: Option<nat>)
    requires IsList(k, q, Some(p), ms, end)
    ensures forall e | e in Parents(p, ms) :: e.0 < |k.parent| && k.parent[e.0] == Some(e.1)
    decreases ms
  {
    if ms != [] {
      var i := ms[0].id;
      PointersOfParents(k, k.list[i], i, ms[0].kids, None);
      PointersOfParents(k, k.next[i], p, ms[1..], end);
    }
  }

  lemma RootAlone(f: MenuInfo, m: Menu)
    ensures FinalizeHead(f, [m]).1 == [] && Preorder([FinalizeHead(f, [m]).0]) == Preorder([m])
  {
    assert [m][1..] == [];
    assert [FinalizeHead(f, [m]).0] + [] == [FinalizeHead(f, [m]).0];
  }

  class MenuTree {
    const info: MenuInfo
    var next: seq<Option<nat>>
    var list: seq<Option<nat>>
    var parent: seq<Option<nat>>
    /** The entries in the order in which menu_finalize was called for them. */
    ghost var log: seq<nat>

    ghost function K(): Links
      reads this
    {
      Links(next, list, parent)
    }

    /** The loop that finalises the entries of an existing submenu. */
    method FinalizeChildren(p: nat, ghost kids: seq<Menu>)
      requires p < |list| && p !in Ids(kids) && Distinct(kids) && IsList(K(), list[p], Some(p), kids, None)
      modifies this
      ensures p < |list| && IsList(K(), list[p], Some(p), FinalizeAll(info, kids), None)
      ensures SameOutside(old(K()), K(), Ids(kids))
      ensures log == old(log) + Preorder(kids)
      decreases |Preorder(kids)|, 2
    {
      var menu: Option<nat> := list[p];
      ghost var done: seq<Menu>, todo := [], kids;
      while menu.Some?
        invariant SameOutside(old(K()), K(), Ids(kids)) && p < |list|
        invariant Passing(K(), list[p], Some(p), done, menu, Some(p), todo)
        invariant Ids(done) + Ids(todo) <= Ids(kids) && |Preorder(todo)| <= |Preorder(kids)|
        invariant FinalizeAll(info, kids) == done + FinalizeAll(info, todo)
        invariant log + Preorder(todo) == old(log) + Preorder(kids)
        decreases |Preorder(todo)|
      {
        ghost var before := K();
        ghost var h, rest := Finalize(menu.value, todo, Some(p));
        FinalizeAllStep(info, done, todo);
        PassOne(before, K(), list[p], Some(p), done, menu, todo, h, rest);
        menu := next[menu.value];
        done, todo := done + [h], rest;
      }
      assert todo == [] && done + FinalizeAll(info, []) == done;
    }

    /** Finalises the entry m and makes p its parent; k is the state in between. */
    method FinalizeBelow(m: nat, p: nat, ghost ms: seq<Menu>, ghost par: Option<nat>) returns (ghost h: Menu,
            ghost rest: seq<Menu>, ghost k: Links)
      requires ms != [] && ms[0].id == m && Distinct(ms) && IsList(K(), Some(m), par, ms, None)
      modifies this
      ensures (h, rest) == FinalizeHead(info, ms) && h.id == m < |k.parent|
      ensures IsList(k, Some(m), par, [h] + rest, None) && SameOutside(old(K()), k, Ids(ms))
      ensures K() == k.(parent := k.parent[m := Some(p)])
      ensures log + Preorder(rest) == old(log) + Preorder(ms)
      decreases |Preorder(ms)|, 2
    {
      h, rest := Finalize(m, ms, par);
      k := K();
      SplitHead(k, Some(m), par, h, rest);
      parent := parent[m := Some(p)];
    }

    /** The loop over the entries after p that belong below it; the last one
        taken is returned. */
    method TakeBelow(p: nat, ghost par: Option<nat>, ghost sibs: seq<Menu>)
        returns (last: Option<nat>, ghost below: seq<Menu>, ghost cur: Option<nat>, ghost after: seq<Menu>)
      requires p < |next| == |list| == |parent|
      requires p !in Ids(sibs) && Distinct(sibs) && IsList(K(), next[p], par, sibs, None)
      modifies this
      ensures Taking(info, old(K()), K(), p, par, sibs, below, cur, after)
      ensures (below, after) == Absorb(info, p, sibs)
      ensures last == (if below == [] then None else Some(below[|below| - 1].id))
      ensures log + Preorder(after) == old(log) + Preorder(sibs)
      decreases |Preorder(sibs)|, 3
    {
      hide Absorb, FinalizeHead, AbsorbFrom, Preorder;
      ghost var k0 := K();
      var menu: Option<nat> := next[p];
      last := None;
      below, after := [], sibs;
      AbsorbStart(info, p, sibs);
      while menu.Some? && info.nests(p, menu.value)
        invariant Taking(info, k0, K(), p, par, sibs, below, menu, after)
        invariant last == if below == [] then None else Some(below[|below| - 1].id)
        invariant log + Preorder(after) == old(log) + Preorder(sibs)
        decreases |Preorder(after)|
      {
        ghost var before := K();
        ghost var h, rest, finalized := FinalizeBelow(menu.value, p, after, par);
        TakeOne(info, k0, before, finalized, K(), p, par, sibs, below, menu, after, h, rest);
        last := menu;
        menu := next[menu.value];
        below, after := below + [h], rest;
      }
      AbsorbStop(info, p, below, after);
      cur := menu;
    }

    /** Automatic submenu creation for a symbol without a submenu. */
    method AbsorbSiblings(p: nat, ghost par: Option<nat>, ghost sibs: seq<Menu>) returns (ghost below: seq<Menu>,
            ghost after: seq<Menu>)
      requires p < |next| == |list| == |parent| && list[p].None?
      requires p !in Ids(sibs) && Distinct(sibs) && IsList(K(), next[p], par, sibs, None)
      modifies this
      ensures SameOutside(old(K()), K(), Ids(sibs) + {p}) && parent[p] == old(parent[p])
      ensures (below, after) == Absorb(info, p, sibs) && Preorder(below) + Preorder(after) == Preorder(sibs)
      ensures IsList(K(), list[p], Some(p), below, None) && IsList(K(), next[p], par, after, None)
      ensures log + Preorder(after) == old(log) + Preorder(sibs)
      decreases |Preorder(sibs)|, 4
    {
      hide IsList, Preorder, Absorb, Distinct, Passing;
      ghost var k0 := K();
      var last: Option<nat>;
      ghost var cur;
      last, below, cur, after := TakeBelow(p, par, sibs);
      ghost var k := K();
      TakingLast(info, k0, k, p, par, sibs, below, cur, after);
      if last.Some? {
        list := list[p := next[p]];
        next := next[p := next[last.value]];
        next := next[last.value := None];
        CloseSubmenu(k, K(), k.next[p], p, par, below, cur, after, last.value);
      }
    }

    /** Gives every entry of the submenu of m the parent p; the last one is returned. */
    method Reparent(m: nat, p: nat, ghost kids: seq<Menu>) returns (last: nat)
      requires m < |list| && kids != [] && Distinct(kids) && IsList(K(), list[m], Some(m), kids, None)
      modifies this`parent
      ensures IsList(K(), list[m], Some(p), kids, None)
      ensures SameOutside(old(K()), K(), Ids(kids)) && last == kids[|kids| - 1].id < |next|
    {
      hide IsList, Preorder, Moving;
      ghost var k, q := K(), list[m];
      MoveStart(k, q, p, m, kids);
      last := list[m].value;
      parent := parent[last := Some(p)];
      MoveOne(k, k, K(), q, p, m, kids, [], last, kids);
      ghost var done, todo := [] + [kids[0]], kids[1..];
      while next[last].Some?
        invariant last < |next| && Moving(k, K(), q, p, m, kids, done, next[last], todo)
        invariant done != [] && last == done[|done| - 1].id
        decreases |Preorder(todo)|
      {
        ghost var before := K();
        MoveNext(k, before, q, p, m, kids, done, next[last].value, todo);
        last := next[last].value;
        parent := parent[last := Some(p)];
        MoveOne(k, before, K(), q, p, m, kids, done, last, todo);
        done, todo := done + [todo[0]], todo[1..];
      }
      MoveEnd(k, K(), q, p, m, kids, done, todo);
    }

    /** The loop that puts the submenus of entries without a prompt after them. */
    method FlattenChildren(p: nat, ghost kids: seq<Menu>)
      requires p < |list| && p !in Ids(kids) && Distinct(kids) && IsList(K(), list[p], Some(p), kids, None)
      modifies this`next, this`list, this`parent
      ensures p < |list| && IsList(K(), list[p], Some(p), Flatten(info, kids), None)
      ensures SameOutside(old(K()), K(), Ids(kids))
    {
      hide IsList, Preorder, Flattening, Flatten;
      ghost var k0 := K();
      var menu: Option<nat> := list[p];
      FlattenStart(info, k0, p, kids);
      ghost var done, todo := [], kids;
      while menu.Some?
        invariant Flattening(info, k0, K(), p, kids, done, menu, todo)
        decreases |Preorder(todo)|
      {
        ghost var before := K();
        var m := menu.value;
        FlattenAt(info, k0, before, p, kids, done, m, todo);
        ghost var h, rest := todo[0], todo[1..];
        if list[m].Some? && !info.prompted(m) {
          h, rest := Menu(m, []), todo[0].kids + todo[1..];
          var last := Reparent(m, p, todo[0].kids);
          ghost var moved := K();
          next := next[last := next[m]];
          next := next[m := list[m]];
          list := list[m := None];
          SpliceSubmenu(before, moved, K(), p, todo, last);
        } else {
          assert [h] + rest == todo;
        }
        FlattenOne(info, k0, before, K(), p, kids, done, m, todo, h, rest);
        menu := next[m];
        done, todo := done + [h], rest;
      }
      FlattenEnd(info, k0, K(), p, kids, done, todo);
    }

    /** menu_finalize(p), where p starts a list of siblings with the given shape. */
    method Finalize(p: nat, ghost ms: seq<Menu>, ghost par: Option<nat>) returns (ghost h: Menu, ghost rest: seq<Menu>)
      requires ms != [] && ms[0].id == p && Distinct(ms) && IsList(K(), Some(p), par, ms, None)
      modifies this
      ensures (h, rest) == FinalizeHead(info, ms) && IsList(K(), Some(p), par, [h] + rest, None)
      ensures SameOutside(old(K()), K(), Ids(ms))
      ensures log + Preorder(rest) == old(log) + Preorder(ms)
      decreases |Preorder(ms)|, 1
    {
      hide IsList, Preorder, Halfway, FinalizeHead, FinalizeAll, Absorb, Flatten;
      ghost var k0 := K();
      log := log + [p];
      HalfwayAtFirst(k0, p, par, ms);
      ghost var kids: seq<Menu> := ms[0].kids;
      rest := ms[1..];
      if list[p].Some? {
        FinalizeChildren(p, kids);
        HalfwayByChildren(k0, K(), p, par, ms, kids, FinalizeAll(info, kids), rest);
        kids := FinalizeAll(info, kids);
      } else if info.hasSym(p) {
        kids, rest := AbsorbSiblings(p, par, rest);
        HalfwayByAbsorbing(k0, K(), p, par, ms, ms[1..], kids, rest);
      }
      HalfwayIsApart(k0, K(), p, par, ms, kids, rest);
      ghost var k := K();
      FlattenChildren(p, kids);
      h := Menu(p, Flatten(info, kids));
      HalfwayDone(k0, k, K(), p, par, ms, kids, rest, h);
      HalfwayResult(info, ms);
    }

    constructor (f: MenuInfo, k: Links)
      ensures info == f && K() == k && log == []
    {
      info, next, list, parent, log := f, k.next, k.list, k.parent, [];
    }

    /** The call for the root menu: every entry is finalised once, in the order
        in which the entries were written down, and the result keeps that order. */
    method FinalizeRoot(root: nat, ghost m: Menu) returns (ghost h: Menu)
      requires m.id == root && Distinct([m]) && IsList(K(), Some(root), None, [m], None)
      modifies this
      ensures h == FinalizeHead(info, [m]).0 && IsList(K(), Some(root), None, [h], None)
      ensures Preorder([h]) == Preorder([m]) && NoneHidden(info, h.kids)
      // every entry ends up below its nearest ancestor with a prompt, or below the root
      ensures var owners := Owners(info, root, NestHead(info, [m]).0.kids);
              && Parents(root, h.kids) == owners
              && forall e | e in owners :: e.0 < |parent| && parent[e.0] == Some(e.1)
      ensures log == old(log) + Preorder([m])
    {
      ghost var rest;
      h, rest := Finalize(root, [m], None);
      RootAlone(info, m);
      FinalizeHeadLeavesNoneHidden(info, [m]);
      FinalParents(info, [m]);
      PointersOfParents(K(), list[root], root, h.kids, None);
      assert log + [] == log && [h] + [] == [h];
    }

    /** The walk over all entries below the root in conf_write. */
    method Walk(root: nat, ghost m: Menu) returns (visited: seq<nat>)
      requires m.id == root && IsList(K(), Some(root), None, [m], None)
      ensures visited == Preorder(m.kids)
    {
      var menu: Option<nat> := list[root];
      visited := [];
      ghost var k, all := K(), Preorder(m.kids);
      WalkStart(k, root, m);
      hide IsList, IsPath, Preorder, Pending;
      ghost var par, todo, frames := Some(root), m.kids, [Frame(root, [])];
      while menu.Some?
        invariant Walking(k, menu, par, todo, frames, all, visited)
        invariant menu.None? ==> Pending(frames) == []
        decreases |all| - |visited|
      {
        var i := menu.value;
        WalkInto(k, menu, par, todo, frames, all, visited);
        frames := [Frame(todo[0].id, todo[1..])] + frames;
        par, todo := menu, todo[0].kids;
        visited := visited + [i];
        if list[i].Some? {
          menu := list[i];
        } else if next[i].Some? {
          WalkUp(k, par, frames, all, visited);
          menu := next[i];
          par, todo, frames := parent[i], frames[0].rest, frames[1..];
        } else {
          WalkUp(k, par, frames, all, visited);
          par, todo, frames := parent[i], frames[0].rest, frames[1..];
          menu := parent[i];
          while menu.Some? && next[menu.value].None?
            invariant menu == par && Walking(k, None, par, [], frames, all, visited)
            decreases |frames|
          {
            WalkUp(k, par, frames, all, visited);
            par, frames := parent[menu.value], frames[1..];
            menu := parent[menu.value];
          }
          if menu.Some? {
            WalkUp(k, par, frames, all, visited);
            par, todo, frames := parent[menu.value], frames[0].rest, frames[1..];
            menu := next[menu.value];
          } else {
            WalkEnd(k, frames);
          }
        }
      }
      WalkAll(k, par, todo, frames, all, visited);
    }
  }
}
