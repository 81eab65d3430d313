/**
 The reshaping of the menu tree in place: entries that depend on the symbol just before them become
 its submenu, and the children of entries without a prompt are pulled up to their parent's level,
 all while the tree is being walked along the very links that change.
 */
module KconfigMenu {
  import opened Common
  import opened KconfigShape

  /** A menu entry's three links; the entries are numbered. */
  datatype Menu = Menu(next: int, list: int, parent: int)

  // ---------------------------------------------------------------- the links

  /** The sibling list from `first` up to but not including `last` is f, each entry of it has
      parent `up`, and each child list belongs to its entry. */
  ghost predicate Linked(h: seq<Menu>, f: Forest, first: int, last: int, up: int) {
    match f
    case Nil => first == last
    case Node(id, kids, rest) =>
      && first == id < |h|
      && h[id].parent == up
      && Linked(h, kids, h[id].list, NONE, id)
      && Linked(h, rest, h[id].next, last, up)
  }

  ghost predicate SameOn(h: seq<Menu>, h': seq<Menu>, s: seq<nat>) {
    |h| == |h'| && forall i :: i in s && i < |h| ==> h'[i] == h[i]
  }

  ghost predicate SameOff(h: seq<Menu>, h': seq<Menu>, s: seq<nat>) {
    |h| == |h'| && forall i :: 0 <= i < |h| && i !in s ==> h'[i] == h[i]
  }

  lemma DistinctParts(a: seq<nat>, b: seq<nat>)
    requires Distinct(a + b)
    ensures Distinct(a) && Distinct(b)
    ensures forall x :: x in a ==> x !in b
  {
    var s := a + b;
    forall i, j | 0 <= i < j < |a| ensures a[i] != a[j] {
      assert s[i] == a[i] && s[j] == a[j];
    }
    forall i, j | 0 <= i < j < |b| ensures b[i] != b[j] {
      assert s[|a| + i] == b[i] && s[|a| + j] == b[j];
    }
    forall i, j | 0 <= i < |a| && 0 <= j < |b| ensures a[i] != b[j] {
      assert s[i] == a[i] && s[|a| + j] == b[j];
    }
  }

  lemma NodeParts(f: Forest)
    requires f.Node? && Distinct(Preorder(f))
    ensures Distinct(Preorder(f.kids)) && Distinct(Preorder(f.rest))
    ensures f.id !in Preorder(f.kids) && f.id !in Preorder(f.rest)
    ensures forall x :: x in Preorder(f.kids) ==> x !in Preorder(f.rest)
  {
    var k, r := Preorder(f.kids), Preorder(f.rest);
    assert Preorder(f) == [f.id] + (k + r);
    DistinctParts([f.id], k + r);
    DistinctParts(k, r);
    assert f.id in [f.id];
  }

  lemma {:induction false} LinkedFrame(h: seq<Menu>, h': seq<Menu>, f: Forest,
                                       first: int, last: int, up: int)
    requires Linked(h, f, first, last, up) && SameOn(h, h', Preorder(f))
    ensures Linked(h', f, first, last, up)
  {
    if f.Node? {
      assert f.id in Preorder(f);
      LinkedFrame(h, h', f.kids, h[f.id].list, NONE, f.id);
      LinkedFrame(h, h', f.rest, h[f.id].next, last, up);
    }
  }

  lemma {:induction false} LinkedJoin(h: seq<Menu>, a: Forest, b: Forest,
                                      first: int, middle: int, last: int, up: int)
    requires Linked(h, a, first, middle, up) && Linked(h, b, middle, last, up)
    ensures Linked(h, Join(a, b), first, last, up)
  {
    if a.Node? {
      LinkedJoin(h, a.rest, b, h[a.id].next, middle, last, up);
    }
  }

  lemma {:induction false} JoinNodes(a: Forest, id: nat, kids: Forest, rest: Forest)
    ensures Join(a, Node(id, kids, rest)) == Join(Join(a, Node(id, kids, Nil)), rest)
  {
    if a.Node? {
      JoinNodes(a.rest, id, kids, rest);
    }
  }

  lemma {:induction false} JoinNil(a: Forest)
    ensures Join(a, Nil) == a
  {
    if a.Node? {
      JoinNil(a.rest);
    }
  }

  function LastOf(f: Forest): nat
    requires f.Node?
  {
    if f.rest.Nil? then f.id else LastOf(f.rest)
  }

  /** Giving the last entry of a list another successor moves the list's end. */
  lemma {:induction false} LinkedEnd(h: seq<Menu>, f: Forest, first: int, last: int, up: int,
                                     last': int)
    requires f.Node? && Linked(h, f, first, last, up) && Distinct(Preorder(f))
    ensures LastOf(f) < |h| && h[LastOf(f)].next == last
    ensures LastOf(f) in Preorder(f)
    ensures Linked(h[LastOf(f) := h[LastOf(f)].(next := last')], f, first, last', up)
  {
    NodeParts(f);
    var z := LastOf(f);
    if f.rest.Node? {
      LinkedEnd(h, f.rest, h[f.id].next, last, up, last');
    }
    var h' := h[z := h[z].(next := last')];
    LinkedFrame(h, h', f.kids, h[f.id].list, NONE, f.id);
  }

  lemma {:induction false} LastOfJoin(a: Forest, id: nat, kids: Forest)
    ensures LastOf(Join(a, Node(id, kids, Nil))) == id
  {
    if a.Node? {
      LastOfJoin(a.rest, id, kids);
    }
  }

  /** A whole list is empty just when its first link is null. */
  lemma LinkedHead(h: seq<Menu>, f: Forest, first: int, up: int)
    requires Linked(h, f, first, NONE, up)
    ensures f.Node? <==> first != NONE
    ensures f.Node? ==> first == f.id < |h| && f.id in Preorder(f)
    ensures f.Node? ==> Linked(h, f.kids, h[f.id].list, NONE, f.id)
    ensures f.Node? ==> Linked(h, f.rest, h[f.id].next, NONE, up)
  {
  }

  lemma SameOffLength(h: seq<Menu>, h': seq<Menu>, s: seq<nat>)
    requires SameOff(h, h', s)
    ensures |h| == |h'|
  {
  }

  lemma SameOffStep(h0: seq<Menu>, h: seq<Menu>, i: nat, m: Menu, s: seq<nat>)
    requires SameOff(h0, h, s) && i < |h| && i in s
    ensures SameOff(h0, h[i := m], s)
  {
  }

  lemma SameOffMore(h0: seq<Menu>, h: seq<Menu>, h': seq<Menu>, s: seq<nat>, t: seq<nat>)
    requires SameOff(h0, h, s) && SameOff(h, h', t)
    requires forall x :: x in t ==> x in s
    ensures SameOff(h0, h', s)
  {
  }

  /** A list split in two stays linked when only its second half is touched. */
  lemma FrontFrame(h: seq<Menu>, h': seq<Menu>, done: Forest, rem: seq<nat>,
                   first: int, m: int, up: int)
    requires Linked(h, done, first, m, up) && SameOff(h, h', rem)
    requires Distinct(Preorder(done) + rem)
    ensures Linked(h', done, first, m, up)
  {
    DistinctParts(Preorder(done), rem);
    LinkedFrame(h, h', done, first, m, up);
  }

  lemma AdvanceOrder(done: Forest, rem: Forest)
    requires rem.Node?
    ensures
      var done' := Join(done, Node(rem.id, rem.kids, Nil));
      && Preorder(done') == Preorder(done) + [rem.id] + Preorder(rem.kids)
      && Preorder(done') + Preorder(rem.rest) == Preorder(done) + Preorder(rem)
  {
    var one := Node(rem.id, rem.kids, Nil);
    JoinOrder(done, one);
    hide Join;
    var a, b, c := Preorder(done), Preorder(rem.kids), Preorder(rem.rest);
    assert Preorder(Join(done, one)) == a + Preorder(one);
    assert Preorder(one) == [rem.id] + b;
    hide Preorder;
    Assoc(a, [rem.id], b);
    Assoc(a, [rem.id] + b, c);
  }

  /** Moves the head of the remaining list to the end of the finished one. */
  lemma Advance(h: seq<Menu>, done: Forest, rem: Forest, first: int, up: int)
    requires rem.Node? && Linked(h, done, first, rem.id, up) && Linked(h, rem, rem.id, NONE, up)
    ensures rem.id < |h|
    ensures Linked(h, Join(done, Node(rem.id, rem.kids, Nil)), first, h[rem.id].next, up)
    ensures Linked(h, rem.rest, h[rem.id].next, NONE, up)
  {
    hide Preorder, Join;
    var one := Node(rem.id, rem.kids, Nil);
    assert Linked(h, Nil, h[rem.id].next, h[rem.id].next, up);
    assert Linked(h, one, rem.id, h[rem.id].next, up);
    LinkedJoin(h, done, one, first, rem.id, h[rem.id].next, up);
  }

  /** As `Advance`, and the moved entry gets a new parent. */
  lemma AdvanceTo(h: seq<Menu>, done: Forest, rem: Forest, first: int, p: int, m: int)
    requires rem.Node? && Linked(h, done, first, rem.id, p) && Linked(h, rem, rem.id, NONE, m)
    requires Distinct(Preorder(done) + Preorder(rem))
    ensures rem.id < |h|
    ensures
      var h' := h[rem.id := h[rem.id].(parent := p)];
      && Linked(h', Join(done, Node(rem.id, rem.kids, Nil)), first, h[rem.id].next, p)
      && Linked(h', rem.rest, h[rem.id].next, NONE, m)
  {
    DistinctParts(Preorder(done), Preorder(rem));
    NodeParts(rem);
    var last := rem.id;
    var h' := h[last := h[last].(parent := p)];
    assert last in Preorder(rem);
    LinkedFrame(h, h', done, first, last, p);
    LinkedFrame(h, h', rem.kids, h[last].list, NONE, last);
    LinkedFrame(h, h', rem.rest, h[last].next, NONE, m);
    var one := Node(rem.id, rem.kids, Nil);
    assert Linked(h', Nil, h[last].next, h[last].next, p);
    assert Linked(h', one, last, h[last].next, p);
    LinkedJoin(h', done, one, first, last, h[last].next, p);
  }

  function Linking(h: seq<Menu>, i: nat, next: int): seq<Menu>
    requires i < |h|
  {
    h[i := h[i].(next := next)]
  }

  function Emptied(h: seq<Menu>, m: nat): seq<Menu>
    requires m < |h|
  {
    h[m := Menu(h[m].list, NONE, h[m].parent)]
  }

  /** Puts the adopted children of entry m between m and its next sibling. */
  lemma Splice(h: seq<Menu>, h1: seq<Menu>, rem: Forest, p: int)
    requires rem.Node? && rem.kids.Node? && Distinct(Preorder(rem))
    requires Linked(h, rem, rem.id, NONE, p) && SameOff(h, h1, Preorder(rem.kids))
    requires rem.id < |h1| && h1[rem.id] == h[rem.id]
    requires Linked(h1, rem.kids, h1[rem.id].list, NONE, p)
    ensures LastOf(rem.kids) < |h1|
    ensures
      var h2 := Emptied(Linking(h1, LastOf(rem.kids), h1[rem.id].next), rem.id);
      && Linked(h2, Node(rem.id, Nil, Join(rem.kids, rem.rest)), rem.id, NONE, p)
      && SameOff(h, h2, Preorder(rem))
  {
    var m, kids, rest := rem.id, rem.kids, rem.rest;
    var last, k, r := LastOf(kids), Preorder(kids), Preorder(rest);
    NodeParts(rem);
    assert Linked(h, rest, h[m].next, NONE, p);
    assert forall x :: x in k ==> x in Preorder(rem);
    assert m in Preorder(rem);
    hide Distinct, LastOf, Preorder;
    LinkedEnd(h1, kids, h1[m].list, NONE, p, h1[m].next);
    hide Linked;
    var ha := Linking(h1, last, h1[m].next);
    LinkedFrame(h, ha, rest, h[m].next, NONE, p);
    LinkedJoin(ha, kids, rest, h[m].list, h[m].next, NONE, p);
    SpliceEnd(h, ha, m, kids, rest, p);
  }

  lemma SpliceEnd(h: seq<Menu>, ha: seq<Menu>, m: nat, kids: Forest, rest: Forest, p: int)
    requires m < |ha| && m !in Preorder(kids) && m !in Preorder(rest)
    requires ha[m].parent == p
    requires Linked(ha, Join(kids, rest), ha[m].list, NONE, p)
    ensures Linked(Emptied(ha, m), Node(m, Nil, Join(kids, rest)), m, NONE, p)
  {
    var f := Join(kids, rest);
    JoinOrder(kids, rest);
    LinkedFrame(ha, Emptied(ha, m), f, ha[m].list, NONE, p);
  }

  lemma FlattenSteps(r: Rules, rem: Forest)
    requires rem.Node?
    ensures rem.kids.Nil? || r.prompted(rem.id) ==>
              Flatten(r, rem) == Node(rem.id, rem.kids, Flatten(r, rem.rest))
    ensures rem.kids.Node? && !r.prompted(rem.id) ==>
              Flatten(r, rem) == Flatten(r, Node(rem.id, Nil, Join(rem.kids, rem.rest)))
    ensures rem.kids.Node? && !r.prompted(rem.id) ==>
              Preorder(Node(rem.id, Nil, Join(rem.kids, rem.rest))) == Preorder(rem)
  {
    SpliceOrder(rem);
    hide Preorder;
  }

  lemma SpliceOrder(rem: Forest)
    requires rem.Node?
    ensures Preorder(Node(rem.id, Nil, Join(rem.kids, rem.rest))) == Preorder(rem)
  {
    JoinOrder(rem.kids, rem.rest);
    var a, b, c := [rem.id], Preorder(rem.kids), Preorder(rem.rest);
    hide Join;
    assert a + [] == a;
    Assoc(a, b, c);
  }

  /** Part of a list's entries, and none of p's. */
  lemma BackFrame(h0: seq<Menu>, h: seq<Menu>, h': seq<Menu>, done: seq<nat>, rem: seq<nat>, p: nat)
    requires SameOff(h0, h, done + rem) && SameOff(h, h', rem)
    requires p < |h| && p !in done + rem
    ensures SameOff(h0, h', done + rem) && h'[p] == h[p]
  {
  }

  lemma AbsorbedEnd(r: Rules, p: nat, done: Forest, rem: Forest)
    requires rem.Node? ==> !r.absorbs(p, rem.id)
    ensures Join(done, Absorbed(r, p, rem).0) == done && Absorbed(r, p, rem).1 == rem
  {
    JoinNil(done);
  }

  lemma FinalisedSteps(r: Rules, done: Forest, rem: Forest)
    requires rem.Node?
    ensures
      var g := Finalised(r, rem);
      && Size(g.rest) < Size(rem)
      && Join(done, FinalisedAll(r, rem)) == Join(Join(done, Node(g.id, g.kids, Nil)), FinalisedAll(r, g.rest))
  {
    var g := Finalised(r, rem);
    JoinNodes(done, g.id, g.kids, FinalisedAll(r, g.rest));
  }

  lemma AbsorbedSteps(r: Rules, p: nat, done: Forest, rem: Forest)
    requires rem.Node? && r.absorbs(p, rem.id)
    ensures
      var g := Finalised(r, rem);
      && Join(done, Absorbed(r, p, rem).0) == Join(Join(done, Node(g.id, g.kids, Nil)), Absorbed(r, p, g.rest).0)
      && Absorbed(r, p, rem).1 == Absorbed(r, p, g.rest).1
  {
    var g := Finalised(r, rem);
    JoinNodes(done, g.id, g.kids, Absorbed(r, p, g.rest).0);
  }

  /** The finished and the remaining list keep the order between them. */
  lemma StepOrder(r: Rules, done: Forest, rem: Forest)
    requires rem.Node?
    ensures
      var g := Finalised(r, rem);
      var done' := Join(done, Node(g.id, g.kids, Nil));
      && Preorder(done') == Preorder(done) + ([rem.id] + Preorder(g.kids))
      && Preorder(done') + Preorder(g.rest) == Preorder(done) + Preorder(rem)
      && done'.Node? && LastOf(done') == rem.id
  {
    var g := Finalised(r, rem);
    assert Join(done, Node(g.id, g.kids, Nil)).Node?;
    hide Finalised, Join, Preorder, LastOf;
    FinalisedOrder(r, rem);
    AdvanceOrder(done, g);
    LastOfJoin(done, g.id, g.kids);
    assert Preorder(done) + [rem.id] + Preorder(g.kids) == Preorder(done) + ([rem.id] + Preorder(g.kids));
  }

  /** One round of the loop over the children: what the recursive call may have changed. */
  lemma ChildStep(r: Rules, h0: seq<Menu>, h: seq<Menu>, h': seq<Menu>,
                  done: Forest, rem: Forest, first: int, p: nat)
    requires rem.Node? && p < |h|
    requires Distinct(Preorder(done) + Preorder(rem)) && p !in Preorder(done) + Preorder(rem)
    requires SameOff(h0, h, Preorder(done) + Preorder(rem)) && SameOff(h, h', Preorder(rem))
    requires Linked(h, done, first, rem.id, p)
    requires Linked(h', Finalised(r, rem), rem.id, NONE, p)
    ensures rem.id < |h'| == |h|
    ensures SameOff(h0, h', Preorder(done) + Preorder(rem)) && h'[p] == h[p]
    ensures
      var g := Finalised(r, rem);
      var done' := Join(done, Node(g.id, g.kids, Nil));
      && Linked(h', done', first, h'[rem.id].next, p)
      && Linked(h', g.rest, h'[rem.id].next, NONE, p)
      && Preorder(done') == Preorder(done) + ([rem.id] + Preorder(g.kids))
      && Preorder(done') + Preorder(g.rest) == Preorder(done) + Preorder(rem)
  {
    hide Finalised, Join, Linked, SameOff, Distinct, Preorder;
    var g := Finalised(r, rem);
    SameOffLength(h, h', Preorder(rem));
    FinalisedOrder(r, rem);
    FrontFrame(h, h', done, Preorder(rem), first, rem.id, p);
    BackFrame(h0, h, h', Preorder(done), Preorder(rem), p);
    Advance(h', done, g, first, p);
    StepOrder(r, done, rem);
  }

  /** One round of the loop over the siblings to absorb. */
  lemma SiblingStep(r: Rules, h0: seq<Menu>, h: seq<Menu>, h1: seq<Menu>,
                    done: Forest, rem: Forest, first: int, p: nat, up: int)
    requires rem.Node? && p < |h|
    requires Distinct(Preorder(done) + Preorder(rem)) && p !in Preorder(done) + Preorder(rem)
    requires SameOff(h0, h, Preorder(done) + Preorder(rem)) && SameOff(h, h1, Preorder(rem))
    requires Linked(h, done, first, rem.id, p)
    requires Linked(h1, Finalised(r, rem), rem.id, NONE, up)
    ensures rem.id < |h1| == |h| && rem.id != p
    ensures
      var g := Finalised(r, rem);
      var done' := Join(done, Node(g.id, g.kids, Nil));
      var h' := h1[rem.id := h1[rem.id].(parent := p)];
      && Linked(h', done', first, h1[rem.id].next, p)
      && Linked(h', g.rest, h1[rem.id].next, NONE, up)
      && SameOff(h0, h', Preorder(done) + Preorder(rem)) && h'[p] == h[p]
      && Preorder(done') == Preorder(done) + ([rem.id] + Preorder(g.kids))
      && Preorder(done') + Preorder(g.rest) == Preorder(done) + Preorder(rem)
      && done'.Node? && LastOf(done') == rem.id
  {
    hide Finalised, Linked, SameOff, Distinct, Preorder, LastOf, Join;
    LinkedHead(h1, Finalised(r, rem), rem.id, up);
    var g := Finalised(r, rem);
    SameOffLength(h, h1, Preorder(rem));
    FinalisedOrder(r, rem);
    FrontFrame(h, h1, done, Preorder(rem), first, rem.id, p);
    BackFrame(h0, h, h1, Preorder(done), Preorder(rem), p);
    AdvanceTo(h1, done, g, first, p, up);
    StepOrder(r, done, rem);
    assert rem.id in Preorder(done) + Preorder(rem);
    SameOffStep(h0, h1, rem.id, h1[rem.id].(parent := p), Preorder(done) + Preorder(rem));
  }

  function TakenOver(h: seq<Menu>, p: nat, last: nat): seq<Menu>
    requires p < |h| && last < |h|
  {
    h[p := Menu(h[last].next, h[p].next, h[p].parent)]
  }

  /** Hangs the absorbed siblings below p. */
  lemma Hang(h: seq<Menu>, done: Forest, rem: Forest, m: int, p: nat, up: int)
    requires done.Node? && p < |h|
    requires Distinct(Preorder(done) + Preorder(rem)) && p !in Preorder(done) + Preorder(rem)
    requires Linked(h, done, h[p].next, m, p) && Linked(h, rem, m, NONE, up)
    ensures LastOf(done) < |h| && LastOf(done) != p && h[LastOf(done)].next == m
    ensures
      var h' := Linking(TakenOver(h, p, LastOf(done)), LastOf(done), NONE);
      && Linked(h', done, h[p].next, NONE, p) && Linked(h', rem, m, NONE, up)
      && SameOff(h, h', [p] + (Preorder(done) + Preorder(rem)))
  {
    hide Linked, LastOf, Preorder, Distinct;
    DistinctParts(Preorder(done), Preorder(rem));
    var last := LastOf(done);
    LinkedEnd(h, done, h[p].next, m, p, NONE);
    assert last in Preorder(done) + Preorder(rem);
    var h1 := TakenOver(h, p, last);
    LinkedFrame(h, h1, done, h[p].next, m, p);
    LinkedFrame(h, h1, rem, m, NONE, up);
    var h2 := Linking(h1, last, NONE);
    LinkedFrame(h1, h2, rem, m, NONE, up);
    LinkedFrame(Linking(h, last, NONE), h2, done, h[p].next, NONE, p);
  }

  /** p's entries split into its submenu and what follows it. */
  lemma Regrouped(f: Forest, kids: Forest, rest: Forest)
    requires f.Node? && Distinct(Preorder(f))
    requires Preorder(kids) + Preorder(rest) == Preorder(f.kids) + Preorder(f.rest)
    ensures Distinct(Preorder(kids)) && f.id !in Preorder(kids) && f.id !in Preorder(rest)
    ensures forall x :: x in Preorder(rest) ==> x !in Preorder(kids)
    ensures f.id in Preorder(f) && forall x :: x in Preorder(kids) ==> x in Preorder(f)
    ensures forall x :: x in Preorder(f.kids) || x in Preorder(f.rest) ==> x in Preorder(f)
  {
    assert Preorder(f) == [f.id] + (Preorder(kids) + Preorder(rest));
    DistinctParts([f.id], Preorder(kids) + Preorder(rest));
    DistinctParts(Preorder(kids), Preorder(rest));
    assert f.id in [f.id];
  }

  /** After the children are finalised, before the list is flattened. */
  lemma ChildrenDone(h0: seq<Menu>, h1: seq<Menu>, f: Forest, up: int)
    requires f.Node? && Distinct(Preorder(f)) && Linked(h0, f, f.id, NONE, up)
    requires SameOff(h0, h1, Preorder(f.kids))
    ensures f.id < |h1| == |h0| && h1[f.id] == h0[f.id]
    ensures Linked(h1, f.rest, h1[f.id].next, NONE, up)
    ensures SameOff(h0, h1, Preorder(f))
  {
    NodeParts(f);
    LinkedFrame(h0, h1, f.rest, h0[f.id].next, NONE, up);
  }

  lemma SiblingsDone(h0: seq<Menu>, h1: seq<Menu>, f: Forest)
    requires f.Node? && f.kids.Nil? && SameOff(h0, h1, [f.id] + Preorder(f.rest))
    ensures SameOff(h0, h1, Preorder(f)) && Preorder(f.kids) + Preorder(f.rest) == Preorder(f.rest)
  {
    assert [f.id] + [] + Preorder(f.rest) == [f.id] + Preorder(f.rest);
  }

  lemma SameOffSelf(h: seq<Menu>, f: Forest)
    ensures SameOff(h, h, Preorder(f))
    ensures f.Node? && f.kids.Nil? ==> Preorder(f.kids) == []
  {
  }

  lemma SizeOfNode(f: Forest)
    requires f.Node?
    ensures Size(f.kids) < Size(f) && Size(f.rest) < Size(f)
  {
  }

  lemma Assembled(h0: seq<Menu>, h1: seq<Menu>, h2: seq<Menu>, f: Forest,
                  kids: Forest, flat: Forest, rest: Forest, up: int)
    requires f.Node? && f.id < |h1| && h1[f.id].parent == up
    requires SameOff(h0, h1, Preorder(f)) && SameOff(h1, h2, Preorder(kids))
    requires f.id !in Preorder(kids)
    requires forall x :: x in Preorder(kids) ==> x in Preorder(f)
    requires forall x :: x in Preorder(rest) ==> x !in Preorder(kids)
    requires Linked(h1, rest, h1[f.id].next, NONE, up)
    requires f.id < |h2| ==> Linked(h2, flat, h2[f.id].list, NONE, f.id)
    ensures Linked(h2, Node(f.id, flat, rest), f.id, NONE, up)
    ensures SameOff(h0, h2, Preorder(f))
  {
    LinkedFrame(h1, h2, rest, h1[f.id].next, NONE, up);
    SameOffMore(h0, h1, h2, Preorder(f), Preorder(kids));
  }

  // ---------------------------------------------------------------- what the links say afterwards

  lemma {:induction false} LinksHave(h: seq<Menu>, f: Forest, first: int, up: int, p: nat)
    requires Linked(h, f, first, NONE, up) && p in Preorder(f)
    ensures p < |h| && Has(f, p, h[p].list, h[p].next)
  {
    LinkedHead(h, f, first, up);
    LinkedHead(h, f.kids, h[f.id].list, f.id);
    LinkedHead(h, f.rest, h[f.id].next, up);
    if p != f.id {
      if p in Preorder(f.kids) {
        LinksHave(h, f.kids, h[f.id].list, f.id, p);
      } else {
        LinksHave(h, f.rest, h[f.id].next, up, p);
      }
    }
  }

  lemma {:induction false} FirstIsLinked(h: seq<Menu>, f: Forest, first: int, up: int, p: nat, list: int)
    requires Linked(h, f, first, NONE, up) && HasFirst(f, p, list)
    ensures p < |h| && h[p].list == list
  {
    LinkedHead(h, f, first, up);
    if HasFirst(f.kids, p, list) {
      FirstIsLinked(h, f.kids, h[f.id].list, f.id, p, list);
    } else if HasFirst(f.rest, p, list) {
      FirstIsLinked(h, f.rest, h[f.id].next, up, p, list);
    } else {
      LinkedHead(h, f.kids, h[f.id].list, f.id);
    }
  }

  lemma {:induction false} NoPromptNoList(h: seq<Menu>, r: Rules, f: Forest, first: int, up: int, p: nat)
    requires Linked(h, f, first, NONE, up) && Flat(r, f) && p in Preorder(f) && !r.prompted(p)
    ensures p < |h| && h[p].list == NONE
  {
    LinkedHead(h, f, first, up);
    if p in Preorder(f.kids) {
      NoPromptNoList(h, r, f.kids, h[f.id].list, f.id, p);
    } else if p in Preorder(f.rest) {
      NoPromptNoList(h, r, f.rest, h[f.id].next, up, p);
    } else {
      LinkedHead(h, f.kids, h[f.id].list, f.id);
    }
  }

  /** The links of an entry just finalised: with children it keeps its first child and its
      successor, and without a symbol it stays alone; a symbol without children takes the next
      sibling if that depends on it, and is followed by one that does not. */
  lemma HeadLinks(h: seq<Menu>, h': seq<Menu>, r: Rules, f: Forest, p: nat, up: int)
    requires f.Node? && f.id == p && Linked(h, f, p, NONE, up) && Linked(h', Finalised(r, f), p, NONE, up)
    ensures p < |h| && p < |h'|
    ensures h[p].list != NONE ==> h'[p].list == h[p].list && h'[p].next == h[p].next
    ensures h[p].list == NONE && !r.hasSym(p) ==> h'[p].list == NONE && h'[p].next == h[p].next
    ensures h[p].list == NONE && r.hasSym(p) ==> h'[p].next == NONE || (h'[p].next >= 0 && !r.absorbs(p, h'[p].next))
    ensures h[p].list == NONE && r.hasSym(p) && h[p].next >= 0 && r.absorbs(p, h[p].next) ==>
      h'[p].list == h[p].next
  {
    FinalisedTakes(r, f);
    var g := Finalised(r, f);
    LinkedHead(h, f, p, up);
    LinkedHead(h, f.kids, h[p].list, p);
    LinkedHead(h, f.rest, h[p].next, up);
    LinkedHead(h', g, p, up);
    LinkedHead(h', g.kids, h'[p].list, p);
    LinkedHead(h', g.rest, h'[p].next, up);
  }

  /** The first child of every entry of the finished tree. */
  lemma FirstChild(h: seq<Menu>, h': seq<Menu>, r: Rules, f: Forest, p: nat)
    requires f.Node? && f.rest.Nil? && p in Preorder(f) && Distinct(Preorder(f))
    requires Linked(h, f, f.id, NONE, NONE) && Linked(h', Finalised(r, f), f.id, NONE, NONE)
    ensures p < |h| && p < |h'|
    ensures h'[p].list == if p != f.id && !r.prompted(p) then NONE
                          else if h[p].list != NONE then h[p].list
                          else if h[p].next >= 0 && r.hasSym(p) && r.absorbs(p, h[p].next) then h[p].next
                          else NONE
  {
    var g := Finalised(r, f);
    RootStaysAlone(r, f);
    LinksHave(h, f, f.id, NONE, p);
    NodeParts(f);
    if p != f.id && !r.prompted(p) {
      FinalisedOrder(r, f);
      FinalisedIsFlat(r, f);
      LinkedHead(h', g, f.id, NONE);
      NoPromptNoList(h', r, g.kids, h'[f.id].list, f.id, p);
    } else {
      if p == f.id && Has(f.kids, p, h[p].list, h[p].next) {
        HasIsThere(f.kids, p, h[p].list, h[p].next);
      }
      FinalisedFirst(r, f, p, h[p].list, h[p].next);
      FirstIsLinked(h', g, f.id, NONE, p, NewFirst(r, p, h[p].list, h[p].next));
    }
  }

  lemma RootAlone(r: Rules, f: Forest)
    requires f.Node? && f.rest.Nil?
    ensures Preorder(Finalised(r, f)) == [f.id] + Preorder(Finalised(r, f).kids)
  {
    RootStaysAlone(r, f);
  }

  // ---------------------------------------------------------------- the walk

  class Tree {
    var node: seq<Menu>
    const rules: Rules

    /** The entries whose finalisation has begun, in that order. */
    ghost var entered: seq<nat>

    constructor (node: seq<Menu>, rules: Rules)
      ensures this.node == node && this.rules == rules && entered == []
    {
      this.node, this.rules, this.entered := node, rules, [];
    }

    /** Gives every child of m the parent p, and finds the last one. */
    method Adopt(m: nat, p: nat, ghost k: Forest) returns (last: nat)
      requires k.Node? && m < |node| && m !in Preorder(k)
      requires Linked(node, k, node[m].list, NONE, m) && Distinct(Preorder(k))
      modifies this`node
      ensures SameOff(old(node), node, Preorder(k)) && node[m] == old(node[m])
      ensures Linked(node, k, node[m].list, NONE, p)
      ensures last == LastOf(k)
    {
      ghost var h0, first := node, node[m].list;
      ghost var done, rem := Nil, k;
      LinkedHead(node, k, first, m);
      last := node[m].list;
      hide Linked, Distinct, SameOff, Preorder, Join, LastOf;
      while true
        invariant rem.Node? && last == rem.id < |node| && last in Preorder(k)
        invariant k == Join(done, rem) && Preorder(k) == Preorder(done) + Preorder(rem)
        invariant |node| == |h0| && SameOff(h0, node, Preorder(k)) && node[m] == h0[m]
        invariant Linked(node, done, first, last, p)
        invariant Linked(node, rem, last, NONE, m)
        decreases rem
      {
        AdvanceTo(node, done, rem, first, p, m);
        SameOffStep(h0, node, last, node[last].(parent := p), Preorder(k));
        JoinNodes(done, rem.id, rem.kids, rem.rest);
        node := node[last := node[last].(parent := p)];
        LastOfJoin(done, rem.id, rem.kids);
        AdvanceOrder(done, rem);
        done, rem := Join(done, Node(rem.id, rem.kids, Nil)), rem.rest;
        LinkedHead(node, rem, node[last].next, m);
        if node[last].next == NONE {
          JoinNil(done);
          break;
        }
        last := node[last].next;
        assert last in Preorder(done) + Preorder(rem);
      }
    }

    /** Puts the children of m, an entry of p's list, behind m in that list. */
    method Dissolve(p: nat, m: nat, ghost rem: Forest)
      requires rem.Node? && rem.kids.Node? && rem.id == m < |node|
      requires Linked(node, rem, m, NONE, p) && Distinct(Preorder(rem))
      modifies this`node
      ensures Linked(node, Node(m, Nil, Join(rem.kids, rem.rest)), m, NONE, p)
      ensures SameOff(old(node), node, Preorder(rem))
    {
      ghost var h := node;
      NodeParts(rem);
      DistinctParts([rem.id] + Preorder(rem.kids), Preorder(rem.rest));
      hide Distinct, SameOff, Preorder, Join, LastOf;
      var last := Adopt(m, p, rem.kids);
      Splice(h, node, rem, p);
      hide Linked;
      node := node[last := node[last].(next := node[m].next)];
      node := node[m := Menu(node[m].list, NONE, node[m].parent)];
    }

    /** Pulls the children of entries without a prompt up into p's own list. */
    method PullUp(p: nat, ghost k: Forest)
      requires p < |node| && p !in Preorder(k)
      requires Linked(node, k, node[p].list, NONE, p) && Distinct(Preorder(k))
      modifies this`node
      ensures SameOff(old(node), node, Preorder(k))
      ensures Linked(node, Flatten(rules, k), node[p].list, NONE, p)
    {
      ghost var h0, first := node, node[p].list;
      ghost var done, rem := Nil, k;
      var m := node[p].list;
      hide Linked, Distinct, SameOff, Preorder, Join, LastOf, Flatten;
      while m != NONE
        invariant Preorder(done) + Preorder(rem) == Preorder(k)
        invariant Flatten(rules, k) == Join(done, Flatten(rules, rem))
        invariant |node| == |h0| && SameOff(h0, node, Preorder(k)) && node[p] == h0[p]
        invariant Linked(node, done, first, m, p)
        invariant Linked(node, rem, m, NONE, p)
        decreases Size(rem)
      {
        LinkedHead(node, rem, m, p);
        FlattenSteps(rules, rem);
        if node[m].list != NONE && !rules.prompted(m) {
          ghost var h := node;
          LinkedHead(node, rem.kids, node[m].list, m);
          DistinctParts(Preorder(done), Preorder(rem));
          Dissolve(p, m, rem);
          FrontFrame(h, node, done, Preorder(rem), first, m, p);
          BackFrame(h0, h, node, Preorder(done), Preorder(rem), p);
          rem := Node(m, Nil, Join(rem.kids, rem.rest));
          FlattenSteps(rules, rem);
        } else {
          LinkedHead(node, rem.kids, node[m].list, m);
        }
        Advance(node, done, rem, first, p);
        AdvanceOrder(done, rem);
        JoinNodes(done, rem.id, rem.kids, Flatten(rules, rem.rest));
        done, rem := Join(done, Node(rem.id, rem.kids, Nil)), rem.rest;
        m := node[m].next;
      }
      LinkedHead(node, rem, m, p);
      JoinNil(done);
    }

    /** Finalises the children of p, which may regroup while the loop follows their links. */
    method FinalizeChildren(p: nat, ghost k: Forest)
      requires p < |node| && p !in Preorder(k)
      requires Linked(node, k, node[p].list, NONE, p) && Distinct(Preorder(k))
      modifies this
      ensures SameOff(old(node), node, Preorder(k))
      ensures Linked(node, FinalisedAll(rules, k), node[p].list, NONE, p)
      ensures entered == old(entered) + Preorder(k)
      decreases Size(k), 1
    {
      ghost var h0, e0, first := node, entered, node[p].list;
      ghost var done, rem := Nil, k;
      var m := node[p].list;
      hide Linked, Distinct, SameOff, Preorder, Join, Finalised, FinalisedAll, Size;
      while m != NONE
        invariant Size(rem) <= Size(k)
        invariant Preorder(done) + Preorder(rem) == Preorder(k)
        invariant FinalisedAll(rules, k) == Join(done, FinalisedAll(rules, rem))
        invariant |node| == |h0| && SameOff(h0, node, Preorder(k)) && node[p] == h0[p]
        invariant Linked(node, done, first, m, p)
        invariant Linked(node, rem, m, NONE, p)
        invariant entered == e0 + Preorder(done)
        decreases Size(rem)
      {
        ghost var h := node;
        LinkedHead(node, rem, m, p);
        DistinctParts(Preorder(done), Preorder(rem));
        Finalize(m, rem, p);
        ChildStep(rules, h0, h, node, done, rem, first, p);
        FinalisedSteps(rules, done, rem);
        ghost var g := Finalised(rules, rem);
        Assoc(e0 + Preorder(done), [m], Preorder(g.kids));
        Assoc(e0, Preorder(done), [m] + Preorder(g.kids));
        done, rem := Join(done, Node(g.id, g.kids, Nil)), g.rest;
        m := node[m].next;
      }
      LinkedHead(node, rem, m, p);
      JoinNil(done);
    }

    /** Makes the siblings after p that depend on it p's submenu, finalising each on the way. */
    method AbsorbSiblings(p: nat, ghost r: Forest, ghost up: int)
      requires p < |node| && node[p].list == NONE && p !in Preorder(r)
      requires Linked(node, r, node[p].next, NONE, up) && Distinct(Preorder(r))
      modifies this
      ensures SameOff(old(node), node, [p] + Preorder(r)) && node[p].parent == old(node[p].parent)
      ensures Linked(node, Absorbed(rules, p, r).0, node[p].list, NONE, p)
      ensures Linked(node, Absorbed(rules, p, r).1, node[p].next, NONE, up)
      ensures entered == old(entered) + Preorder(Absorbed(rules, p, r).0)
      decreases Size(r), 1
    {
      ghost var h0, e0, first := node, entered, node[p].next;
      ghost var done, rem := Nil, r;
      var m, last := node[p].next, NONE;
      hide Linked, Distinct, SameOff, Preorder, Join, Finalised, Absorbed, Size, LastOf;
      while m != NONE && rules.absorbs(p, m)
        invariant Size(rem) <= Size(r)
        invariant Preorder(done) + Preorder(rem) == Preorder(r)
        invariant Absorbed(rules, p, r).0 == Join(done, Absorbed(rules, p, rem).0)
        invariant Absorbed(rules, p, r).1 == Absorbed(rules, p, rem).1
        invariant |node| == |h0| && SameOff(h0, node, Preorder(r)) && node[p] == h0[p]
        invariant Linked(node, done, first, m, p)
        invariant Linked(node, rem, m, NONE, up)
        invariant if done.Nil? then last == NONE else last == LastOf(done)
        invariant entered == e0 + Preorder(done)
        decreases Size(rem)
      {
        ghost var h := node;
        LinkedHead(node, rem, m, up);
        DistinctParts(Preorder(done), Preorder(rem));
        Finalize(m, rem, up);
        SiblingStep(rules, h0, h, node, done, rem, first, p, up);
        AbsorbedSteps(rules, p, done, rem);
        FinalisedSteps(rules, done, rem);
        ghost var g := Finalised(rules, rem);
        Assoc(e0 + Preorder(done), [m], Preorder(g.kids));
        Assoc(e0, Preorder(done), [m] + Preorder(g.kids));
        node := node[m := node[m].(parent := p)];
        last := m;
        done, rem := Join(done, Node(g.id, g.kids, Nil)), g.rest;
        m := node[m].next;
      }
      AbsorbedEnd(rules, p, done, rem);
      LinkedHead(node, rem, m, up);
      if last != NONE {
        Hang(node, done, rem, m, p, up);
        node := node[p := Menu(node[last].next, node[p].next, node[p].parent)];
        node := node[last := node[last].(next := NONE)];
      }
    }

    /** Finalises entry p, the head of list f. */
    method Finalize(p: nat, ghost f: Forest, ghost up: int)
      requires f.Node? && f.id == p
      requires Linked(node, f, p, NONE, up) && Distinct(Preorder(f))
      modifies this
      ensures SameOff(old(node), node, Preorder(f))
      ensures Linked(node, Finalised(rules, f), p, NONE, up)
      ensures entered == old(entered) + [p] + Preorder(Finalised(rules, f).kids)
      decreases Size(f), 0
    {
      ghost var h0 := node;
      ghost var kids, rest := f.kids, f.rest;
      NodeParts(f);
      LinkedHead(node, f, p, up);
      LinkedHead(node, f.kids, node[p].list, p);
      hide Linked, SameOff, Distinct, Preorder, Flatten, FinalisedAll, Absorbed, Size;
      SizeOfNode(f);
      SameOffSelf(h0, f);
      entered := entered + [p];
      if node[p].list != NONE {
        FinalizeChildren(p, f.kids);
        ChildrenDone(h0, node, f, up);
        FinalisedAllOrder(rules, f.kids);
        kids := FinalisedAll(rules, f.kids);
      } else if rules.hasSym(p) {
        AbsorbSiblings(p, f.rest, up);
        kids, rest := Absorbed(rules, p, f.rest).0, Absorbed(rules, p, f.rest).1;
        AbsorbedOrder(rules, p, f.rest);
        SiblingsDone(h0, node, f);
      }
      Regrouped(f, kids, rest);
      ghost var h1 := node;
      PullUp(p, kids);
      Assembled(h0, h1, node, f, kids, Flatten(rules, kids), rest, up);
      FlattenOrder(rules, kids);
    }

    /** The whole menu tree, from the root on: every entry is finalised exactly once, in the
        order of the tree; none is lost; and every entry's parent link names the entry whose
        child list it is on. */
    method FinalizeRoot(root: nat, ghost f: Forest)
      requires f.Node? && f.id == root && f.rest.Nil?
      requires Linked(node, f, root, NONE, NONE) && Distinct(Preorder(f))
      modifies this
      ensures entered == old(entered) + Preorder(f)
      ensures Linked(node, Finalised(rules, f), root, NONE, NONE)
      ensures Preorder(Finalised(rules, f)) == Preorder(f)
      ensures Flat(rules, Finalised(rules, f).kids)
      ensures |node| == |old(node)| && forall p: nat :: p in Preorder(f) ==> p < |node|
      ensures forall p: nat :: p in Preorder(f) ==>
        var list, next := old(node)[p].list, old(node)[p].next;
        node[p].list == if p != root && !rules.prompted(p) then NONE
                        else if list != NONE then list
                        else if next >= 0 && rules.hasSym(p) && rules.absorbs(p, next) then next
                        else NONE
    {
      forall p: nat | p in Preorder(f) ensures p < |node| {
        LinksHave(node, f, root, NONE, p);
      }
      Finalize(root, f, NONE);
      hide Linked, Distinct, SameOff, Finalised, Preorder, Flat;
      forall p: nat | p in Preorder(f)
        ensures node[p].list == if p != root && !rules.prompted(p) then NONE
                                else if old(node)[p].list != NONE then old(node)[p].list
                                else if old(node)[p].next >= 0 && rules.hasSym(p)
                                        && rules.absorbs(p, old(node)[p].next) then old(node)[p].next
                                else NONE
      {
        FirstChild(old(node), node, rules, f, p);
      }
      FinalisedOrder(rules, f);
      FinalisedIsFlat(rules, f);
      ghost var g := Finalised(rules, f);
      RootAlone(rules, f);
      Assoc(old(entered), [root], Preorder(g.kids));
    }
  }
}
