/**
 The walk over the finished menu tree that writes the configuration: it keeps no stack, and finds
 its way back up by the parent links alone.
 */
module KconfigWalk {
  import opened Common
  import opened KconfigMenu
  import opened KconfigShape

  /** What is still to be visited above the list being walked: for each enclosing entry its later
      siblings. */
  datatype Frames = Top | Frame(id: nat, rest: Forest, above: Frames)

  function Todo(fr: Frames): seq<nat> {
    if fr.Top? then [] else Preorder(fr.rest) + Todo(fr.above)
  }

  /** The parent links from `up` on lead through the frames. */
  ghost predicate Above(h: seq<Menu>, fr: Frames, up: int) {
    match fr
    case Top => up == NONE
    case Frame(id, rest, above) =>
      && up == id < |h|
      && Linked(h, rest, h[id].next, NONE, h[id].parent)
      && Above(h, above, h[id].parent)
  }

  /** Where the walk stands: the list rem at m with parent `up` is next, or nothing at all. */
  ghost predicate At(h: seq<Menu>, m: int, rem: Forest, fr: Frames, todo: seq<nat>) {
    if m == NONE then todo == []
    else
      && rem.Node? && rem.id == m < |h|
      && Linked(h, rem, m, NONE, h[m].parent) && Above(h, fr, h[m].parent)
      && todo == Preorder(rem) + Todo(fr)
  }

  /** Up from a list that is finished, to the next entry that has a later sibling. */
  method Climb(h: seq<Menu>, up0: int, ghost fr0: Frames) returns (m: int, ghost rem: Forest, ghost fr: Frames)
    requires Above(h, fr0, up0)
    ensures At(h, m, rem, fr, Todo(fr0))
  {
    m, rem, fr := up0, Nil, fr0;
    while m != NONE
      invariant Above(h, fr, m) && Todo(fr) == Todo(fr0)
      decreases fr
    {
      LinkedHead(h, fr.rest, h[m].next, h[m].parent);
      if h[m].next != NONE {
        m, rem, fr := h[m].next, fr.rest, fr.above;
        return;
      }
      assert [] + Todo(fr.above) == Todo(fr.above);
      m, fr := h[m].parent, fr.above;
    }
  }

  /** Where the walk may stand after entry m: at its first child, at its next sibling, or on the
      way up. */
  lemma After(h: seq<Menu>, m: int, rem: Forest, fr: Frames, todo: seq<nat>)
    requires At(h, m, rem, fr, todo) && m != NONE
    ensures 0 <= m < |h| && rem.Node?
    ensures
      var todo' := Preorder(rem.kids) + (Preorder(rem.rest) + Todo(fr));
      && todo == [m] + todo'
      && (h[m].list != NONE ==> At(h, h[m].list, rem.kids, Frame(m, rem.rest, fr), todo'))
      && (h[m].list == NONE && h[m].next != NONE ==> At(h, h[m].next, rem.rest, fr, todo'))
      && (h[m].list == NONE && h[m].next == NONE ==> Above(h, fr, h[m].parent) && todo' == Todo(fr))
  {
    Assoc([m] + Preorder(rem.kids), Preorder(rem.rest), Todo(fr));
    Assoc([m], Preorder(rem.kids), Preorder(rem.rest) + Todo(fr));
    LinkedHead(h, rem.kids, h[m].list, m);
    LinkedHead(h, rem.rest, h[m].next, h[m].parent);
  }

  lemma Begin(h: seq<Menu>, root: nat, f: Forest)
    requires f.Node? && f.id == root && f.rest.Nil? && Linked(h, f, root, NONE, NONE)
    ensures root < |h| && At(h, h[root].list, f.kids, Frame(root, Nil, Top), Preorder(f.kids))
  {
    var fr := Frame(root, Nil, Top);
    LinkedHead(h, f.kids, h[root].list, root);
    assert Todo(fr) == [] && Preorder(f.kids) + [] == Preorder(f.kids);
    assert Linked(h, Nil, h[root].next, NONE, h[root].parent);
    assert Above(h, Top, h[root].parent);
    assert Above(h, fr, root);
    if f.kids.Node? {
      assert Linked(h, f.kids, h[root].list, NONE, root);
      assert h[f.kids.id].parent == root;
    }
  }

  /** The entries below the root are visited once each, in the order of the tree. */
  method Walk(h: seq<Menu>, root: nat, ghost f: Forest) returns (visited: seq<nat>)
    requires f.Node? && f.id == root && f.rest.Nil? && Linked(h, f, root, NONE, NONE)
    ensures visited == Preorder(f.kids)
  {
    visited := [];
    var m := h[root].list;
    ghost var rem, fr := f.kids, Frame(root, Nil, Top);
    ghost var todo := Preorder(f.kids);
    Begin(h, root, f);
    hide At, Above, Todo, Preorder, Linked;
    while m != NONE
      invariant At(h, m, rem, fr, todo)
      invariant visited + todo == Preorder(f.kids)
      decreases |todo|
    {
      After(h, m, rem, fr, todo);
      todo := Preorder(rem.kids) + (Preorder(rem.rest) + Todo(fr));
      Assoc(visited, [m], todo);
      visited := visited + [m];
      if h[m].list != NONE {
        fr := Frame(m, rem.rest, fr);
        m, rem := h[m].list, rem.kids;
      } else if h[m].next != NONE {
        m, rem := h[m].next, rem.rest;
      } else {
        m, rem, fr := Climb(h, h[m].parent, fr);
      }
    }
    Arrived(h, m, rem, fr, todo);
  }

  lemma Arrived(h: seq<Menu>, m: int, rem: Forest, fr: Frames, todo: seq<nat>)
    requires At(h, m, rem, fr, todo) && m == NONE
    ensures todo == []
  {
  }
}
