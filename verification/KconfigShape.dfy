/**
 The new shape of the menu tree, as a function of the old one: which entries become the submenu of
 a symbol, and which children are pulled up, with what every such reshaping keeps.
 */
module KconfigShape {
  import opened Common

  const NONE := -1

  /** The tree the links stand for, first child and next sibling. */
  datatype Forest = Nil | Node(id: nat, kids: Forest, rest: Forest)

  /** What decides the new shape. `absorbs(p, m)`: entry m, found after the symbol entry p, is to
      become part of p's submenu. Dependencies are rewritten during the walk, but each pair is
      asked about at most once, so one answer a pair is enough. */
  datatype Rules = Rules(hasSym: nat -> bool, prompted: nat -> bool, absorbs: (nat, nat) -> bool)

  function Preorder(f: Forest): seq<nat> {
    match f
    case Nil => []
    case Node(id, kids, rest) => [id] + Preorder(kids) + Preorder(rest)
  }

  function Size(f: Forest): nat {
    if f.Nil? then 0 else 1 + Size(f.kids) + Size(f.rest)
  }

  function Join(a: Forest, b: Forest): (f: Forest)
    ensures Size(f) == Size(a) + Size(b)
  {
    match a
    case Nil => b
    case Node(id, kids, rest) => Node(id, kids, Join(rest, b))
  }

  lemma {:induction false} JoinOrder(a: Forest, b: Forest)
    ensures Preorder(Join(a, b)) == Preorder(a) + Preorder(b)
  {
    if a.Nil? {
      assert [] + Preorder(b) == Preorder(b);
    } else {
      JoinOrder(a.rest, b);
      var x, y := [a.id] + Preorder(a.kids), Preorder(a.rest);
      assert x + (y + Preorder(b)) == (x + y) + Preorder(b);
    }
  }

  ghost predicate Distinct(s: seq<nat>) {
    forall i, j :: 0 <= i < j < |s| ==> s[i] != s[j]
  }

  // ---------------------------------------------------------------- the new shape

  /** Pulls the children of entries without a prompt up into the list. */
  function Flatten(r: Rules, f: Forest): (g: Forest)
    decreases Size(f)
  {
    match f
    case Nil => Nil
    case Node(id, kids, rest) =>
      if kids.Node? && !r.prompted(id) then Node(id, Nil, Flatten(r, Join(kids, rest)))
      else Node(id, kids, Flatten(r, rest))
  }

  /** The tree after the first entry of a list is finalised: it may have taken following
      siblings as its children. */
  function Finalised(r: Rules, f: Forest): (g: Forest)
    requires f.Node?
    ensures g.Node? && g.id == f.id
    ensures Size(g.rest) <= Size(f.rest)
    decreases Size(f), 0
  {
    var (kids, rest) :=
      if f.kids.Node? then (FinalisedAll(r, f.kids), f.rest)
      else if r.hasSym(f.id) then Absorbed(r, f.id, f.rest)
      else (Nil, f.rest);
    Node(f.id, Flatten(r, kids), rest)
  }

  function FinalisedAll(r: Rules, f: Forest): (g: Forest)
    decreases Size(f), 1
  {
    if f.Nil? then Nil
    else
      var g := Finalised(r, f);
      Node(g.id, g.kids, FinalisedAll(r, g.rest))
  }

  /** Splits the siblings after symbol entry p into its new submenu and what stays. */
  function Absorbed(r: Rules, p: nat, f: Forest): (g: (Forest, Forest))
    ensures Size(g.1) <= Size(f)
    decreases Size(f), 1
  {
    if f.Nil? || !r.absorbs(p, f.id) then (Nil, f)
    else
      var g := Finalised(r, f);
      var (kids, rest) := Absorbed(r, p, g.rest);
      (Node(g.id, g.kids, kids), rest)
  }

  // ---------------------------------------------------------------- what the shape keeps

  lemma {:induction false} FlattenOrder(r: Rules, f: Forest)
    ensures Preorder(Flatten(r, f)) == Preorder(f)
    decreases Size(f)
  {
    if f.Node? {
      if f.kids.Node? && !r.prompted(f.id) {
        var all := Join(f.kids, f.rest);
        FlattenOrder(r, all);
        JoinOrder(f.kids, f.rest);
        var a, b, c := [f.id], Preorder(f.kids), Preorder(f.rest);
        assert Preorder(Node(f.id, Nil, Flatten(r, all))) == a + [] + Preorder(all);
        assert a + [] + (b + c) == a + b + c;
      } else {
        FlattenOrder(r, f.rest);
      }
    }
  }

  /** No entry is lost or doubled, and their order from top to bottom stays as it was. */
  lemma {:induction false} FinalisedOrder(r: Rules, f: Forest)
    requires f.Node?
    ensures Preorder(Finalised(r, f)) == Preorder(f)
    decreases Size(f), 0
  {
    var g := Finalised(r, f);
    if f.kids.Node? {
      FinalisedAllOrder(r, f.kids);
      FlattenOrder(r, FinalisedAll(r, f.kids));
    } else {
      var (kids, rest) := if r.hasSym(f.id) then Absorbed(r, f.id, f.rest) else (Nil, f.rest);
      AbsorbedOrder(r, f.id, f.rest);
      FlattenOrder(r, kids);
      assert Preorder(kids) + Preorder(rest) == Preorder(f.rest);
      assert [f.id] + Preorder(kids) + Preorder(rest) == [f.id] + [] + (Preorder(kids) + Preorder(rest));
    }
  }

  lemma {:induction false} FinalisedAllOrder(r: Rules, f: Forest)
    ensures Preorder(FinalisedAll(r, f)) == Preorder(f)
    decreases Size(f), 1
  {
    if f.Node? {
      FinalisedOrder(r, f);
      FinalisedAllOrder(r, Finalised(r, f).rest);
    }
  }

  lemma {:induction false} AbsorbedOrder(r: Rules, p: nat, f: Forest)
    ensures Preorder(Absorbed(r, p, f).0) + Preorder(Absorbed(r, p, f).1) == Preorder(f)
    decreases Size(f), 1
  {
    if f.Node? && r.absorbs(p, f.id) {
      var g := Finalised(r, f);
      FinalisedOrder(r, f);
      AbsorbedOrder(r, p, g.rest);
      var (k, s) := Absorbed(r, p, g.rest);
      var x := [g.id] + Preorder(g.kids);
      assert x + (Preorder(k) + Preorder(s)) == (x + Preorder(k)) + Preorder(s);
    }
  }

  /** No entry without a prompt has children. */
  predicate Flat(r: Rules, f: Forest) {
    match f
    case Nil => true
    case Node(id, kids, rest) => (kids.Node? ==> r.prompted(id)) && Flat(r, kids) && Flat(r, rest)
  }

  predicate FlatBelow(r: Rules, f: Forest) {
    match f
    case Nil => true
    case Node(_, kids, rest) => Flat(r, kids) && FlatBelow(r, rest)
  }

  lemma {:induction false} FlatJoin(r: Rules, a: Forest, b: Forest)
    requires Flat(r, a) && FlatBelow(r, b)
    ensures FlatBelow(r, Join(a, b))
  {
    if a.Node? {
      FlatJoin(r, a.rest, b);
    }
  }

  lemma {:induction false} FlattenIsFlat(r: Rules, f: Forest)
    requires FlatBelow(r, f)
    ensures Flat(r, Flatten(r, f))
    decreases Size(f)
  {
    if f.Node? {
      if f.kids.Node? && !r.prompted(f.id) {
        FlatJoin(r, f.kids, f.rest);
        FlattenIsFlat(r, Join(f.kids, f.rest));
      } else {
        FlattenIsFlat(r, f.rest);
      }
    }
  }

  /** Below a finalised entry only entries with a prompt have children. */
  lemma {:induction false} FinalisedIsFlat(r: Rules, f: Forest)
    requires f.Node?
    ensures Flat(r, Finalised(r, f).kids)
    decreases Size(f), 0
  {
    if f.kids.Node? {
      FinalisedAllIsFlat(r, f.kids);
      FlattenIsFlat(r, FinalisedAll(r, f.kids));
    } else if r.hasSym(f.id) {
      AbsorbedIsFlat(r, f.id, f.rest);
      FlattenIsFlat(r, Absorbed(r, f.id, f.rest).0);
    }
  }

  lemma {:induction false} FinalisedAllIsFlat(r: Rules, f: Forest)
    ensures FlatBelow(r, FinalisedAll(r, f))
    decreases Size(f), 1
  {
    if f.Node? {
      FinalisedIsFlat(r, f);
      FinalisedAllIsFlat(r, Finalised(r, f).rest);
    }
  }

  lemma {:induction false} AbsorbedIsFlat(r: Rules, p: nat, f: Forest)
    ensures FlatBelow(r, Absorbed(r, p, f).0)
    decreases Size(f), 1
  {
    if f.Node? && r.absorbs(p, f.id) {
      FinalisedIsFlat(r, f);
      AbsorbedIsFlat(r, p, Finalised(r, f).rest);
    }
  }

  /** Entry n is somewhere below entry a. */
  predicate Below(f: Forest, a: nat, n: nat) {
    f.Node? && ((f.id == a && n in Preorder(f.kids)) || Below(f.kids, a, n) || Below(f.rest, a, n))
  }

  lemma {:induction false} BelowJoin(f: Forest, g: Forest, a: nat, n: nat)
    ensures Below(Join(f, g), a, n) == (Below(f, a, n) || Below(g, a, n))
  {
    if f.Node? {
      BelowJoin(f.rest, g, a, n);
    }
  }

  lemma {:induction false} FlattenKeepsBelow(r: Rules, f: Forest, a: nat, n: nat)
    requires r.prompted(a) && Below(f, a, n)
    ensures Below(Flatten(r, f), a, n)
    decreases Size(f)
  {
    if f.kids.Node? && !r.prompted(f.id) {
      BelowJoin(f.kids, f.rest, a, n);
      FlattenKeepsBelow(r, Join(f.kids, f.rest), a, n);
    } else if Below(f.rest, a, n) {
      FlattenKeepsBelow(r, f.rest, a, n);
    }
  }

  /** What was below an entry with a prompt is below it still. */
  lemma {:induction false} FinalisedKeepsBelow(r: Rules, f: Forest, a: nat, n: nat)
    requires f.Node? && r.prompted(a) && Below(f, a, n)
    ensures Below(Finalised(r, f), a, n)
    decreases Size(f), 0
  {
    if f.kids.Node? {
      FinalisedAllOrder(r, f.kids);
      FlattenOrder(r, FinalisedAll(r, f.kids));
      if Below(f.kids, a, n) {
        FinalisedAllKeepsBelow(r, f.kids, a, n);
        FlattenKeepsBelow(r, FinalisedAll(r, f.kids), a, n);
      }
    } else if r.hasSym(f.id) {
      AbsorbedKeepsBelow(r, f.id, f.rest, a, n);
      if Below(Absorbed(r, f.id, f.rest).0, a, n) {
        FlattenKeepsBelow(r, Absorbed(r, f.id, f.rest).0, a, n);
      }
    }
  }

  lemma {:induction false} FinalisedAllKeepsBelow(r: Rules, f: Forest, a: nat, n: nat)
    requires r.prompted(a) && Below(f, a, n)
    ensures Below(FinalisedAll(r, f), a, n)
    decreases Size(f), 1
  {
    FinalisedKeepsBelow(r, f, a, n);
    var g := Finalised(r, f);
    if Below(g.rest, a, n) {
      FinalisedAllKeepsBelow(r, g.rest, a, n);
    }
  }

  lemma {:induction false} AbsorbedKeepsBelow(r: Rules, p: nat, f: Forest, a: nat, n: nat)
    requires r.prompted(a) && Below(f, a, n)
    ensures Below(Absorbed(r, p, f).0, a, n) || Below(Absorbed(r, p, f).1, a, n)
    decreases Size(f), 1
  {
    if r.absorbs(p, f.id) {
      FinalisedKeepsBelow(r, f, a, n);
      var g := Finalised(r, f);
      if Below(g.rest, a, n) {
        AbsorbedKeepsBelow(r, p, g.rest, a, n);
      }
    }
  }

  /** The siblings at the top of a list, in order. */
  function Tops(f: Forest): seq<nat> {
    if f.Nil? then [] else [f.id] + Tops(f.rest)
  }

  /** A submenu takes every entry up to the first one that does not depend on the symbol. */
  lemma {:induction false} AbsorbedIsMaximal(r: Rules, p: nat, f: Forest)
    ensures forall m :: m in Tops(Absorbed(r, p, f).0) ==> r.absorbs(p, m)
    ensures Absorbed(r, p, f).1.Node? ==> !r.absorbs(p, Absorbed(r, p, f).1.id)
    decreases Size(f)
  {
    if f.Node? && r.absorbs(p, f.id) {
      AbsorbedIsMaximal(r, p, Finalised(r, f).rest);
    }
  }

  lemma RootStaysAlone(r: Rules, f: Forest)
    requires f.Node? && f.rest.Nil?
    ensures Finalised(r, f).rest.Nil?
  {
  }

  // ---------------------------------------------------------------- who gets a submenu

  function Head(f: Forest): int {
    if f.Nil? then NONE else f.id
  }

  /** Entry a has `list` for its first child and `next` for its next sibling. */
  predicate Has(f: Forest, a: nat, list: int, next: int) {
    f.Node? && ((f.id == a && list == Head(f.kids) && next == Head(f.rest))
                || Has(f.kids, a, list, next) || Has(f.rest, a, list, next))
  }

  lemma {:induction false} HasIsThere(f: Forest, a: nat, list: int, next: int)
    requires Has(f, a, list, next)
    ensures a in Preorder(f)
  {
    if Has(f.kids, a, list, next) {
      HasIsThere(f.kids, a, list, next);
    } else if Has(f.rest, a, list, next) {
      HasIsThere(f.rest, a, list, next);
    }
  }

  predicate HasFirst(f: Forest, a: nat, list: int) {
    f.Node? && ((f.id == a && list == Head(f.kids)) || HasFirst(f.kids, a, list) || HasFirst(f.rest, a, list))
  }

  lemma {:induction false} HasFirstJoin(f: Forest, g: Forest, a: nat, list: int)
    ensures HasFirst(Join(f, g), a, list) == (HasFirst(f, a, list) || HasFirst(g, a, list))
  {
    if f.Node? {
      HasFirstJoin(f.rest, g, a, list);
    }
  }

  lemma {:induction false} FlattenKeepsFirst(r: Rules, f: Forest, a: nat, list: int)
    requires r.prompted(a) && HasFirst(f, a, list)
    ensures HasFirst(Flatten(r, f), a, list)
    decreases Size(f)
  {
    if f.kids.Node? && !r.prompted(f.id) {
      HasFirstJoin(f.kids, f.rest, a, list);
      FlattenKeepsFirst(r, Join(f.kids, f.rest), a, list);
    } else if HasFirst(f.rest, a, list) {
      FlattenKeepsFirst(r, f.rest, a, list);
    }
  }

  lemma FlattenHead(r: Rules, f: Forest)
    ensures Head(Flatten(r, f)) == Head(f)
  {
  }

  /** The first child entry a is to have: its own, or the next sibling if a is a symbol that takes
      it, or none. */
  function NewFirst(r: Rules, a: nat, list: int, next: int): int {
    if list != NONE then list
    else if next >= 0 && r.hasSym(a) && r.absorbs(a, next) then next
    else NONE
  }

  /** An entry is finalised with the siblings it had, or is still as it was. */
  lemma {:induction false} FinalisedFirst(r: Rules, f: Forest, a: nat, list: int, next: int)
    requires f.Node? && Has(f, a, list, next)
    requires r.prompted(a) || (!Has(f.kids, a, list, next) && !Has(f.rest, a, list, next))
    ensures
      var g := Finalised(r, f);
      HasFirst(Node(g.id, g.kids, Nil), a, NewFirst(r, a, list, next)) || Has(g.rest, a, list, next)
    decreases Size(f), 0
  {
    var c := NewFirst(r, a, list, next);
    if f.kids.Node? {
      var all := FinalisedAll(r, f.kids);
      FlattenHead(r, all);
      if Has(f.kids, a, list, next) {
        FinalisedAllFirst(r, f.kids, a, list, next);
        FlattenKeepsFirst(r, all, a, c);
      }
    } else if r.hasSym(f.id) {
      var (kids, rest) := Absorbed(r, f.id, f.rest);
      FlattenHead(r, kids);
      if Has(f.rest, a, list, next) {
        AbsorbedFirst(r, f.id, f.rest, a, list, next);
        if HasFirst(kids, a, c) {
          FlattenKeepsFirst(r, kids, a, c);
        }
      }
    }
  }

  lemma {:induction false} FinalisedAllFirst(r: Rules, f: Forest, a: nat, list: int, next: int)
    requires r.prompted(a) && Has(f, a, list, next)
    ensures HasFirst(FinalisedAll(r, f), a, NewFirst(r, a, list, next))
    decreases Size(f), 1
  {
    FinalisedFirst(r, f, a, list, next);
    var g := Finalised(r, f);
    if Has(g.rest, a, list, next) {
      FinalisedAllFirst(r, g.rest, a, list, next);
    }
  }

  lemma {:induction false} AbsorbedFirst(r: Rules, p: nat, f: Forest, a: nat, list: int, next: int)
    requires r.prompted(a) && Has(f, a, list, next)
    ensures HasFirst(Absorbed(r, p, f).0, a, NewFirst(r, a, list, next)) || Has(Absorbed(r, p, f).1, a, list, next)
    decreases Size(f), 1
  {
    if r.absorbs(p, f.id) {
      FinalisedFirst(r, f, a, list, next);
      var g := Finalised(r, f);
      if Has(g.rest, a, list, next) {
        AbsorbedFirst(r, p, g.rest, a, list, next);
      }
    }
  }

  /** Finalising the head of a list: an entry with children leaves its siblings alone, and so does
      one without a symbol, which stays without children; a symbol without children stops at the
      first sibling that does not depend on it, and takes the next one if that does. */
  lemma FinalisedTakes(r: Rules, f: Forest)
    requires f.Node?
    ensures
      var g := Finalised(r, f);
      && (f.kids.Node? ==> g.rest == f.rest && g.kids.Node? && g.kids.id == f.kids.id)
      && (f.kids.Nil? && !r.hasSym(f.id) ==> g.kids == Nil && g.rest == f.rest)
      && (f.kids.Nil? && r.hasSym(f.id) && f.rest.Node? && r.absorbs(f.id, f.rest.id) ==>
            g.kids.Node? && g.kids.id == f.rest.id)
      && (f.kids.Nil? && r.hasSym(f.id) && (f.rest.Nil? || !r.absorbs(f.id, f.rest.id)) ==>
            g.kids == Nil && g.rest == f.rest)
      && (f.kids.Nil? && r.hasSym(f.id) && g.rest.Node? ==> !r.absorbs(f.id, g.rest.id))
  {
    if f.kids.Node? {
      FlattenHead(r, FinalisedAll(r, f.kids));
    } else if r.hasSym(f.id) {
      FlattenHead(r, Absorbed(r, f.id, f.rest).0);
      AbsorbedIsMaximal(r, f.id, f.rest);
    }
  }

  /** What a symbol takes is justified: before children are pulled up, every entry of its submenu
      depends on it. */
  lemma SubmenuDepends(r: Rules, f: Forest) returns (kids: Forest)
    requires f.Node? && f.kids.Nil?
    ensures Finalised(r, f).kids == Flatten(r, kids)
    ensures forall m :: m in Tops(kids) ==> r.hasSym(f.id) && r.absorbs(f.id, m)
    ensures Preorder(kids) + Preorder(Finalised(r, f).rest) == Preorder(f.rest)
  {
    if r.hasSym(f.id) {
      kids := Absorbed(r, f.id, f.rest).0;
      AbsorbedIsMaximal(r, f.id, f.rest);
      AbsorbedOrder(r, f.id, f.rest);
    } else {
      kids := Nil;
      assert [] + Preorder(f.rest) == Preorder(f.rest);
    }
  }
}
