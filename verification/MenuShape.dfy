// The menu tree as a value, and what menu_finalize in scripts/config/menu.c
// does to its shape.

module MenuShape {
  /** An entry with its submenu. */
  datatype Menu = Menu(id: nat, kids: seq<Menu>)

  /** What the rewriting looks at: whether an entry has a symbol, whether it has
      a prompt text, and whether the second entry belongs below the first. */
  datatype MenuInfo = MenuInfo(hasSym: nat -> bool, prompted: nat -> bool, nests: (nat, nat) -> bool)

  /** Entries in the order in which they were written down. */
  function Preorder(ms: seq<Menu>): (s: seq<nat>)
    ensures |s| == 0 <==> ms == []
  {
    if ms == [] then [] else [ms[0].id] + Preorder(ms[0].kids) + Preorder(ms[1..])
  }

  lemma {:induction false} PreorderConcat(a: seq<Menu>, b: seq<Menu>)
    ensures Preorder(a + b) == Preorder(a) + Preorder(b)
  {
    if a == [] {
      assert a + b == b;
    } else {
      assert (a + b)[1..] == a[1..] + b;
      PreorderConcat(a[1..], b);
    }
  }

  lemma PreorderCons(m: Menu, ms: seq<Menu>)
    ensures Preorder([m] + ms) == [m.id] + Preorder(m.kids) + Preorder(ms)
  {
    assert ([m] + ms)[1..] == ms;
  }

  predicate Hidden(f: MenuInfo, m: Menu) {
    m.kids != [] && !f.prompted(m.id)
  }

  /** Entries without a prompt hand their submenu over to their parent. */
  function Flatten(f: MenuInfo, ms: seq<Menu>): seq<Menu>
    decreases |Preorder(ms)|, |ms|
  {
    if ms == [] then []
    else if Hidden(f, ms[0]) then
      PreorderConcat(ms[0].kids, ms[1..]);
      [Menu(ms[0].id, [])] + Flatten(f, ms[0].kids + ms[1..])
    else [ms[0]] + Flatten(f, ms[1..])
  }

  lemma FlattenFirst(f: MenuInfo, ms: seq<Menu>)
    requires ms != []
    ensures Flatten(f, ms) ==
            if Hidden(f, ms[0]) then [Menu(ms[0].id, [])] + Flatten(f, ms[0].kids + ms[1..])
            else [ms[0]] + Flatten(f, ms[1..])
  {
  }

  lemma PreorderFirst(ms: seq<Menu>)
    requires ms != []
    ensures Preorder(ms) == [ms[0].id] + Preorder(ms[0].kids) + Preorder(ms[1..])
    ensures |Preorder(ms[0].kids)| + |Preorder(ms[1..])| < |Preorder(ms)|
  {
  }

  lemma {:induction false} FlattenKeepsOrder(f: MenuInfo, ms: seq<Menu>)
    ensures Preorder(Flatten(f, ms)) == Preorder(ms)
    decreases |Preorder(ms)|, |ms|
  {
    if ms != [] {
      FlattenFirst(f, ms);
      PreorderFirst(ms);
      hide Flatten, Preorder, Hidden;
      var rest := ms[0].kids + ms[1..];
      if Hidden(f, ms[0]) {
        PreorderConcat(ms[0].kids, ms[1..]);
        FlattenKeepsOrder(f, rest);
        PreorderLeaf(ms[0].id, Flatten(f, rest));
        Associate([ms[0].id], Preorder(ms[0].kids), Preorder(ms[1..]));
      } else {
        FlattenKeepsOrder(f, ms[1..]);
        PreorderCons(ms[0], Flatten(f, ms[1..]));
      }
    }
  }

  lemma PreorderLeaf(i: nat, ms: seq<Menu>)
    ensures Preorder([Menu(i, [])] + ms) == [i] + Preorder(ms)
  {
    PreorderCons(Menu(i, []), ms);
  }

  lemma Associate<T>(a: seq<T>, b: seq<T>, c: seq<T>)
    ensures (a + b) + c == a + (b + c)
  {
  }

  /** Finalises the first entry of a list of siblings: a submenu is finalised
      entry by entry; a symbol without one takes over the entries after it that
      belong below it.  What is left of the siblings comes second. */
  function FinalizeHead(f: MenuInfo, ms: seq<Menu>): (r: (Menu, seq<Menu>))
    requires ms != []
    ensures r.0.id == ms[0].id && Preorder([r.0] + r.1) == Preorder(ms)
    ensures |Preorder(r.1)| < |Preorder(ms)|
    decreases |Preorder(ms)|, 1
  {
    var (kids, rest) :=
      if ms[0].kids != [] then (FinalizeAll(f, ms[0].kids), ms[1..])
      else if f.hasSym(ms[0].id) then Absorb(f, ms[0].id, ms[1..])
      else ([], ms[1..]);
    var h := Menu(ms[0].id, Flatten(f, kids));
    FlattenKeepsOrder(f, kids);
    PreorderCons(h, rest);
    (h, rest)
  }

  function FinalizeAll(f: MenuInfo, ms: seq<Menu>): (r: seq<Menu>)
    ensures Preorder(r) == Preorder(ms)
    decreases |Preorder(ms)|, 2
  {
    if ms == [] then []
    else
      var (h, rest) := FinalizeHead(f, ms);
      var tail := FinalizeAll(f, rest);
      PreorderCons(h, rest);
      PreorderCons(h, tail);
      [h] + tail
  }

  /** The following entries that go below p, finalised, and the others. */
  function Absorb(f: MenuInfo, p: nat, ms: seq<Menu>): (r: (seq<Menu>, seq<Menu>))
    ensures Preorder(r.0) + Preorder(r.1) == Preorder(ms)
    decreases |Preorder(ms)|, 2
  {
    if ms == [] || !f.nests(p, ms[0].id) then ([], ms)
    else
      var (h, rest) := FinalizeHead(f, ms);
      var (below, after) := Absorb(f, p, rest);
      PreorderCons(h, rest);
      PreorderCons(h, below);
      ([h] + below, after)
  }

  /** What an entry takes over is a run of siblings that belong below it, ended by
      the first one that does not. */
  lemma {:induction false} AbsorbTakesRun(f: MenuInfo, p: nat, ms: seq<Menu>)
    ensures forall m | m in Absorb(f, p, ms).0 :: f.nests(p, m.id)
    ensures var after := Absorb(f, p, ms).1; after != [] ==> !f.nests(p, after[0].id)
    decreases |Preorder(ms)|
  {
    if ms != [] && f.nests(p, ms[0].id) {
      AbsorbTakesRun(f, p, FinalizeHead(f, ms).1);
    }
  }

  /** Every entry with a submenu has a prompt, at every depth. */
  predicate NoneHidden(f: MenuInfo, ms: seq<Menu>) {
    ms == [] || (!Hidden(f, ms[0]) && NoneHidden(f, ms[0].kids) && NoneHidden(f, ms[1..]))
  }

  /** The same one level down, while the entries themselves may still be hidden. */
  predicate NoneHiddenBelow(f: MenuInfo, ms: seq<Menu>) {
    ms == [] || (NoneHidden(f, ms[0].kids) && NoneHiddenBelow(f, ms[1..]))
  }

  lemma {:induction false} NoneHiddenConcat(f: MenuInfo, a: seq<Menu>, b: seq<Menu>)
    requires NoneHidden(f, a) && NoneHiddenBelow(f, b)
    ensures NoneHiddenBelow(f, a + b)
  {
    if a == [] {
      assert a + b == b;
    } else {
      assert (a + b)[1..] == a[1..] + b;
      NoneHiddenConcat(f, a[1..], b);
    }
  }

  lemma {:induction false} FlattenLeavesNoneHidden(f: MenuInfo, ms: seq<Menu>)
    requires NoneHiddenBelow(f, ms)
    ensures NoneHidden(f, Flatten(f, ms))
    decreases |Preorder(ms)|, |ms|
  {
    if ms != [] {
      if Hidden(f, ms[0]) {
        PreorderConcat(ms[0].kids, ms[1..]);
        NoneHiddenConcat(f, ms[0].kids, ms[1..]);
        FlattenLeavesNoneHidden(f, ms[0].kids + ms[1..]);
      } else {
        FlattenLeavesNoneHidden(f, ms[1..]);
      }
    }
  }

  /** Finalising leaves no hidden submenu anywhere below the entry. */
  lemma {:induction false} FinalizeHeadLeavesNoneHidden(f: MenuInfo, ms: seq<Menu>)
    requires ms != []
    ensures NoneHidden(f, FinalizeHead(f, ms).0.kids)
    decreases |Preorder(ms)|, 1
  {
    if ms[0].kids != [] {
      FinalizeAllLeavesNoneHidden(f, ms[0].kids);
      FlattenLeavesNoneHidden(f, FinalizeAll(f, ms[0].kids));
    } else if f.hasSym(ms[0].id) {
      AbsorbLeavesNoneHidden(f, ms[0].id, ms[1..]);
      FlattenLeavesNoneHidden(f, Absorb(f, ms[0].id, ms[1..]).0);
    }
  }

  lemma {:induction false} FinalizeAllLeavesNoneHidden(f: MenuInfo, ms: seq<Menu>)
    ensures NoneHiddenBelow(f, FinalizeAll(f, ms))
    decreases |Preorder(ms)|, 2
  {
    if ms != [] {
      FinalizeHeadLeavesNoneHidden(f, ms);
      FinalizeAllLeavesNoneHidden(f, FinalizeHead(f, ms).1);
    }
  }

  lemma {:induction false} AbsorbLeavesNoneHidden(f: MenuInfo, p: nat, ms: seq<Menu>)
    ensures NoneHiddenBelow(f, Absorb(f, p, ms).0)
    decreases |Preorder(ms)|, 2
  {
    if ms != [] && f.nests(p, ms[0].id) {
      FinalizeHeadLeavesNoneHidden(f, ms);
      AbsorbLeavesNoneHidden(f, p, FinalizeHead(f, ms).1);
    }
  }

  // ----- where every entry ends up -----

  /** The tree before any submenu is spliced out: a symbol without a submenu has
      taken over the entries after it that belong below it. */
  function NestHead(f: MenuInfo, ms: seq<Menu>): (r: (Menu, seq<Menu>))
    requires ms != []
    ensures r.0.id == ms[0].id && Preorder([r.0] + r.1) == Preorder(ms)
    ensures |Preorder(r.1)| < |Preorder(ms)|
    decreases |Preorder(ms)|, 1
  {
    var (kids, rest) :=
      if ms[0].kids != [] then (NestAll(f, ms[0].kids), ms[1..])
      else if f.hasSym(ms[0].id) then NestRun(f, ms[0].id, ms[1..])
      else ([], ms[1..]);
    PreorderCons(Menu(ms[0].id, kids), rest);
    (Menu(ms[0].id, kids), rest)
  }

  function NestAll(f: MenuInfo, ms: seq<Menu>): (r: seq<Menu>)
    ensures Preorder(r) == Preorder(ms)
    decreases |Preorder(ms)|, 2
  {
    if ms == [] then []
    else
      var (h, rest) := NestHead(f, ms);
      var tail := NestAll(f, rest);
      PreorderCons(h, rest);
      PreorderCons(h, tail);
      [h] + tail
  }

  function NestRun(f: MenuInfo, p: nat, ms: seq<Menu>): (r: (seq<Menu>, seq<Menu>))
    ensures Preorder(r.0) + Preorder(r.1) == Preorder(ms)
    decreases |Preorder(ms)|, 2
  {
    if ms == [] || !f.nests(p, ms[0].id) then ([], ms)
    else
      var (h, rest) := NestHead(f, ms);
      var (below, after) := NestRun(f, p, rest);
      PreorderCons(h, rest);
      PreorderCons(h, below);
      ([h] + below, after)
  }

  lemma {:induction false} NestRunIsRun(f: MenuInfo, p: nat, ms: seq<Menu>)
    ensures forall m | m in NestRun(f, p, ms).0 :: f.nests(p, m.id)
    ensures var after := NestRun(f, p, ms).1; after != [] ==> !f.nests(p, after[0].id)
    ensures NestRun(f, p, ms).0 == [] ==> NestRun(f, p, ms).1 == ms
    decreases |Preorder(ms)|
  {
    if ms != [] && f.nests(p, ms[0].id) {
      NestRunIsRun(f, p, NestHead(f, ms).1);
    }
  }

  /** What is taken from the siblings: nothing by an entry that has a submenu or no
      symbol; otherwise the run of those that belong below it, up to the first that
      does not. */
  lemma NestHeadTakes(f: MenuInfo, ms: seq<Menu>)
    requires ms != []
    ensures var (h, rest) := NestHead(f, ms);
            if ms[0].kids != [] || !f.hasSym(ms[0].id)
            then rest == ms[1..] && Preorder(h.kids) == Preorder(ms[0].kids)
            else && (forall m | m in h.kids :: f.nests(h.id, m.id))
                 && (rest != [] ==> !f.nests(h.id, rest[0].id))
                 && Preorder(h.kids) + Preorder(rest) == Preorder(ms[1..])
  {
    NestRunIsRun(f, ms[0].id, ms[1..]);
  }

  /** Splicing at every depth, from the bottom up. */
  function Flat(f: MenuInfo, m: Menu): Menu
    decreases |Preorder([m])|, 0
  {
    PreorderCons(m, []);
    Menu(m.id, Flatten(f, FlatAll(f, m.kids)))
  }

  function FlatAll(f: MenuInfo, ms: seq<Menu>): seq<Menu>
    decreases |Preorder(ms)|, 1
  {
    if ms == [] then []
    else
      PreorderCons(ms[0], []);
      [Flat(f, ms[0])] + FlatAll(f, ms[1..])
  }

  lemma FlatAllCons(f: MenuInfo, m: Menu, ms: seq<Menu>)
    ensures FlatAll(f, [m] + ms) == [Flat(f, m)] + FlatAll(f, ms)
  {
    assert ([m] + ms)[1..] == ms;
  }

  /** Finalising is nesting and then splicing. */
  lemma {:induction false} FinalizeHeadIs(f: MenuInfo, ms: seq<Menu>)
    requires ms != []
    ensures FinalizeHead(f, ms) == (Flat(f, NestHead(f, ms).0), NestHead(f, ms).1)
    decreases |Preorder(ms)|, 1
  {
    if ms[0].kids != [] {
      FinalizeAllIs(f, ms[0].kids);
    } else if f.hasSym(ms[0].id) {
      AbsorbIs(f, ms[0].id, ms[1..]);
    }
    hide FinalizeAll, Absorb, NestAll, NestRun, Preorder;
  }

  lemma {:induction false} FinalizeAllIs(f: MenuInfo, ms: seq<Menu>)
    ensures FinalizeAll(f, ms) == FlatAll(f, NestAll(f, ms))
    decreases |Preorder(ms)|, 2
  {
    if ms != [] {
      FinalizeHeadIs(f, ms);
      var (h, rest) := NestHead(f, ms);
      FinalizeAllIs(f, rest);
      FlatAllCons(f, h, NestAll(f, rest));
      hide FinalizeHead, NestHead, Flat, Preorder;
    }
  }

  lemma {:induction false} AbsorbIs(f: MenuInfo, p: nat, ms: seq<Menu>)
    ensures Absorb(f, p, ms) == (FlatAll(f, NestRun(f, p, ms).0), NestRun(f, p, ms).1)
    decreases |Preorder(ms)|, 2
  {
    if ms != [] && f.nests(p, ms[0].id) {
      FinalizeHeadIs(f, ms);
      var (h, rest) := NestHead(f, ms);
      AbsorbIs(f, p, rest);
      FlatAllCons(f, h, NestRun(f, p, rest).0);
      hide FinalizeHead, NestHead, Flat, Preorder;
    }
  }

  /** Every entry with its parent, in order, for a list below p. */
  function Parents(p: nat, ms: seq<Menu>): seq<(nat, nat)>
    decreases ms
  {
    if ms == [] then [] else [(ms[0].id, p)] + Parents(ms[0].id, ms[0].kids) + Parents(p, ms[1..])
  }

  /** Every entry with its nearest ancestor that has a prompt, or else p. */
  function Owners(f: MenuInfo, p: nat, ms: seq<Menu>): seq<(nat, nat)>
    decreases ms
  {
    if ms == [] then []
    else
      [(ms[0].id, p)]
      + Owners(f, if f.prompted(ms[0].id) then ms[0].id else p, ms[0].kids)
      + Owners(f, p, ms[1..])
  }

  /** The same while only the entries of the list itself may lack a prompt. */
  function TopOwners(f: MenuInfo, p: nat, ms: seq<Menu>): seq<(nat, nat)>
    decreases ms
  {
    if ms == [] then []
    else
      [(ms[0].id, p)]
      + (if f.prompted(ms[0].id) then Parents(ms[0].id, ms[0].kids) else TopOwners(f, p, ms[0].kids))
      + TopOwners(f, p, ms[1..])
  }

  lemma {:induction false} TopOwnersConcat(f: MenuInfo, p: nat, a: seq<Menu>, b: seq<Menu>)
    ensures TopOwners(f, p, a + b) == TopOwners(f, p, a) + TopOwners(f, p, b)
  {
    if a == [] {
      assert a + b == b;
    } else {
      assert (a + b)[1..] == a[1..] + b;
      TopOwnersConcat(f, p, a[1..], b);
    }
  }

  lemma TopOwnersCons(f: MenuInfo, p: nat, m: Menu, ms: seq<Menu>)
    ensures TopOwners(f, p, [m] + ms)
         == [(m.id, p)]
            + (if f.prompted(m.id) then Parents(m.id, m.kids) else TopOwners(f, p, m.kids))
            + TopOwners(f, p, ms)
    ensures Parents(p, [m] + ms) == [(m.id, p)] + Parents(m.id, m.kids) + Parents(p, ms)
  {
    assert ([m] + ms)[1..] == ms;
  }

  lemma NoOwners(f: MenuInfo, p: nat, i: nat)
    ensures TopOwners(f, p, []) == [] && Parents(i, []) == []
  {
  }

  lemma {:induction false} FlattenOwners(f: MenuInfo, p: nat, ms: seq<Menu>)
    ensures Parents(p, Flatten(f, ms)) == TopOwners(f, p, ms) == TopOwners(f, p, Flatten(f, ms))
    decreases |Preorder(ms)|, |ms|
  {
    if ms != [] {
      var m, rest := ms[0], ms[1..];
      assert ms == [m] + rest;
      TopOwnersCons(f, p, m, rest);
      FlattenFirst(f, ms);
      PreorderFirst(ms);
      assert m.kids == [] ==> TopOwners(f, p, m.kids) == [] == Parents(m.id, m.kids);
      hide Flatten, TopOwners, Parents, Preorder;
      if m.kids != [] && !f.prompted(m.id) {
        PreorderConcat(m.kids, rest);
        FlattenOwners(f, p, m.kids + rest);
        TopOwnersConcat(f, p, m.kids, rest);
        TopOwnersCons(f, p, Menu(m.id, []), Flatten(f, m.kids + rest));
        Associate([(m.id, p)], TopOwners(f, p, m.kids), TopOwners(f, p, rest));
        NoOwners(f, p, m.id);
      } else {
        FlattenOwners(f, p, rest);
        TopOwnersCons(f, p, m, Flatten(f, rest));
      }
    }
  }

  /** An entry with a prompt keeps exactly the submenu it has. */
  lemma {:induction false} FlattenKeepsPrompted(f: MenuInfo, ms: seq<Menu>, m: Menu)
    requires m in ms && f.prompted(m.id)
    ensures m in Flatten(f, ms)
    decreases |Preorder(ms)|
  {
    FlattenFirst(f, ms);
    PreorderFirst(ms);
    PreorderConcat(ms[0].kids, ms[1..]);
    hide Flatten;
    if m != ms[0] {
      FlattenKeepsPrompted(f, if Hidden(f, ms[0]) then ms[0].kids + ms[1..] else ms[1..], m);
    }
  }

  /** Splicing gives every entry to its nearest ancestor with a prompt. */
  lemma {:induction false} FlatOwners(f: MenuInfo, p: nat, ms: seq<Menu>)
    ensures TopOwners(f, p, FlatAll(f, ms)) == Owners(f, p, ms)
    ensures Parents(p, Flatten(f, FlatAll(f, ms))) == Owners(f, p, ms)
    decreases |Preorder(ms)|
  {
    FlattenOwners(f, p, FlatAll(f, ms));
    if ms != [] {
      var m, rest := ms[0], ms[1..];
      PreorderFirst(ms);
      FlatOwners(f, p, rest);
      FlatOwners(f, if f.prompted(m.id) then m.id else p, m.kids);
      FlattenOwners(f, p, FlatAll(f, m.kids));
      TopOwnersCons(f, p, Flat(f, m), FlatAll(f, rest));
      hide Flatten, Preorder;
    }
  }

  /** In the final menu the parent of an entry is its nearest ancestor with a
      prompt, or the top, in the tree before splicing. */
  lemma FinalParents(f: MenuInfo, ms: seq<Menu>)
    requires ms != []
    ensures var h := FinalizeHead(f, ms).0; Parents(h.id, h.kids) == Owners(f, h.id, NestHead(f, ms).0.kids)
  {
    FinalizeHeadIs(f, ms);
    FlatOwners(f, ms[0].id, NestHead(f, ms).0.kids);
  }
}
