/**
 Dependencies over the whole menu tree: before the tree is reshaped every entry takes over the
 condition of the block it stands in, from the root downwards.
 */
module KconfigInherit {
  import opened Common
  import opened KconfigExpr
  import opened KconfigDups
  import opened KconfigPropagate

  /** What an entry hands down: a choice its own symbol, a menu the condition of its prompt, and
      everything else its dependency. */
  datatype Kind = Choice(sym: Sym) | Menu(cond: Option<Expr>) | Plain

  datatype Item = Item(kind: Kind, dep: Option<Expr>, kids: seq<Item>)

  predicate Proper(e: Option<Expr>) {
    e.Some? ==> WellFormed(e.value)
  }

  predicate ProperAt(it: Item) {
    Proper(it.dep) && (it.kind.Menu? ==> Proper(it.kind.cond))
  }

  predicate AllProper(it: Item) {
    ProperAt(it) && forall k :: 0 <= k < |it.kids| ==> AllProper(it.kids[k])
  }

  function HandedDown(it: Item): Option<Expr> {
    match it.kind
    case Choice(s) => Some(Symbol(s))
    case Menu(c) => c
    case Plain => it.dep
  }

  // ---------------------------------------------------------------- one level

  /** `after` is worth the smaller of the inherited condition and the rewritten own one. */
  ghost predicate Lowered(inherited: Option<Expr>, own: Option<Expr>, after: Option<Expr>, modules: Sym) {
    && Proper(after)
    && forall env: Env :: Good(env) ==>
         ValueOf(env, after) == Combine(And, ValueOf(env, inherited), ValueOf(env, Rewritten(own, modules)))
  }

  function Rewritten(e: Option<Expr>, modules: Sym): Option<Expr> {
    if e.None? then None else Some(RewriteM(e.value, modules))
  }

  ghost predicate Inherits(parent: Item, own: Item, after: Item, modules: Sym) {
    && Lowered(HandedDown(parent), own.dep, after.dep, modules)
    && match own.kind
       case Choice(s) => after.kind == own.kind
       case Plain => after.kind == own.kind
       case Menu(c) => after.kind.Menu? && Lowered(after.dep, c, after.kind.cond, modules)
  }

  /** Every entry below has inherited from the one above it. */
  ghost predicate Passed(own: Item, after: Item, modules: Sym) {
    && |after.kids| == |own.kids|
    && forall k :: 0 <= k < |own.kids| ==>
         Inherits(after, own.kids[k], after.kids[k], modules) && Passed(own.kids[k], after.kids[k], modules)
  }

  method Lower(inherited: Option<Expr>, own: Option<Expr>, modules: Sym) returns (after: Option<Expr>)
    requires Proper(inherited) && Proper(own)
    ensures Lowered(inherited, own, after, modules)
  {
    hide Value, WellFormed;
    after := Propagate(inherited, own, modules);
    if own.Some? {
      forall env: Env | Good(env)
        ensures ValueOf(MeaningM(env, Combine(And, 1, env.tri(modules))), own)
             == ValueOf(env, Rewritten(own, modules))
      {
        RewriteMValue(env, own.value, modules);
      }
    }
  }

  method Inherit(parent: Item, own: Item, modules: Sym) returns (after: Item)
    requires Proper(HandedDown(parent)) && ProperAt(own)
    ensures Inherits(parent, own, after, modules) && ProperAt(after) && after.kids == own.kids
  {
    hide Proper;
    var dep := Lower(HandedDown(parent), own.dep, modules);
    after := own.(dep := dep);
    if own.kind.Menu? {
      var cond := Lower(dep, own.kind.cond, modules);
      after := after.(kind := Menu(cond));
    }
  }

  /** What an entry hands down does not depend on its children. */
  lemma SameHeir(parent: Item, parent': Item, own: Item, after: Item, after': Item, modules: Sym)
    requires Inherits(parent, own, after, modules)
    requires parent' == parent.(kids := parent'.kids) && after' == after.(kids := after'.kids)
    ensures Inherits(parent', own, after', modules)
  {
  }

  /** The dependency part of menu_finalize: first all children of an entry, then each of them in
      the same fashion. */
  method Descend(it: Item, modules: Sym) returns (r: Item)
    requires Proper(HandedDown(it)) && forall k :: 0 <= k < |it.kids| ==> AllProper(it.kids[k])
    ensures r == it.(kids := r.kids) && Passed(it, r, modules)
    decreases it.kids
  {
    hide Inherits, Proper, ProperAt, HandedDown;
    var kids := it.kids;
    var k := 0;
    while k < |it.kids|
      invariant 0 <= k <= |kids| == |it.kids|
      invariant forall j :: 0 <= j < k ==> Inherits(it, it.kids[j], kids[j], modules)
      invariant forall j :: 0 <= j < k ==> ProperAt(kids[j]) && kids[j].kids == it.kids[j].kids
      invariant forall j :: k <= j < |kids| ==> kids[j] == it.kids[j]
    {
      var after := Inherit(it, it.kids[k], modules);
      kids := kids[k := after];
      k := k + 1;
    }
    ghost var level := kids;
    k := 0;
    while k < |it.kids|
      invariant 0 <= k <= |kids| == |level|
      invariant forall j :: 0 <= j < k ==> kids[j] == level[j].(kids := kids[j].kids)
      invariant forall j :: 0 <= j < k ==> Passed(it.kids[j], kids[j], modules)
      invariant forall j :: k <= j < |kids| ==> kids[j] == level[j]
    {
      HandsProper(kids[k]);
      var below := Descend(kids[k], modules);
      SameKids(it.kids[k], kids[k], below, modules);
      kids := kids[k := below];
      k := k + 1;
    }
    r := it.(kids := kids);
    forall j | 0 <= j < |kids| ensures Inherits(r, it.kids[j], kids[j], modules) {
      SameHeir(it, r, it.kids[j], level[j], kids[j], modules);
    }
  }

  lemma HandsProper(it: Item)
    requires ProperAt(it)
    ensures Proper(HandedDown(it))
  {
  }

  lemma SameKids(own: Item, level: Item, after: Item, modules: Sym)
    requires level.kids == own.kids && Passed(level, after, modules)
    ensures Passed(own, after, modules)
  {
  }

  /** One level, said outright: a member of a choice ends up with the smaller of the choice's value and
      its own rewritten condition, an entry of a menu with that of the menu's prompt condition as it
      is then, and an entry of any other block with that of the block's dependency as it is then. */
  lemma ChildDependsOn(own: Item, after: Item, modules: Sym, k: nat, env: Env)
    requires after.kind == own.kind || (after.kind.Menu? && own.kind.Menu?)
    requires Passed(own, after, modules) && k < |own.kids| && Good(env)
    ensures
      var dep := own.kids[k].dep;
      var mine := if dep.None? then 2 else Value(env, RewriteM(dep.value, modules));
      var above := if after.kind.Choice? then env.tri(after.kind.sym)
                   else ValueOf(env, if after.kind.Menu? then after.kind.cond else after.dep);
      && |after.kids| == |own.kids|
      && ValueOf(env, after.kids[k].dep) == if above < mine then above else mine
  {
    hide RewriteM;
    assert Inherits(after, own.kids[k], after.kids[k], modules);
  }

  // ---------------------------------------------------------------- along a path

  /** A way down the tree: which child to take at each entry. */
  predicate IsPath(it: Item, path: seq<nat>) {
    path == [] || (path[0] < |it.kids| && IsPath(it.kids[path[0]], path[1..]))
  }

  function At(it: Item, path: seq<nat>): Item
    requires IsPath(it, path)
  {
    if path == [] then it else At(it.kids[path[0]], path[1..])
  }

  function Listed(e: Option<Expr>): seq<Expr> {
    if e.None? then [] else [e.value]
  }

  /** The rewritten conditions on the way from `it` to the entry at the path, those of the entry's
      own dependency included. A choice stands for everything above it. */
  function Along(it: Item, from: seq<Expr>, path: seq<nat>, modules: Sym): seq<Expr>
    requires IsPath(it, path)
  {
    if path == [] then from
    else
      var kid := it.kids[path[0]];
      var conds := from + Listed(Rewritten(kid.dep, modules));
      if |path| == 1 then conds
      else Along(kid, Below(kid, conds, modules), path[1..], modules)
  }

  /** What an entry's children find above them. */
  function Below(kid: Item, conds: seq<Expr>, modules: Sym): seq<Expr> {
    match kid.kind
    case Choice(s) => [Symbol(s)]
    case Menu(c) => conds + Listed(Rewritten(c, modules))
    case Plain => conds
  }

  function Least(env: Env, es: seq<Expr>): Tri {
    if es == [] then 2 else Combine(And, Value(env, es[0]), Least(env, es[1..]))
  }

  /** The least value is a lower bound, and one of the values, or y when there is nothing. */
  lemma {:induction false} LeastIsMinimum(env: Env, es: seq<Expr>)
    ensures forall k :: 0 <= k < |es| ==> Least(env, es) <= Value(env, es[k])
    ensures Least(env, es) < 2 ==> exists k :: 0 <= k < |es| && Value(env, es[k]) == Least(env, es)
  {
    if es != [] {
      LeastIsMinimum(env, es[1..]);
      assert forall k :: 1 <= k < |es| ==> es[k] == es[1..][k - 1];
    }
  }

  lemma {:induction false} LeastOfBoth(env: Env, es: seq<Expr>, fs: seq<Expr>)
    ensures Least(env, es + fs) == Combine(And, Least(env, es), Least(env, fs))
  {
    if es == [] {
      assert es + fs == fs;
    } else {
      LeastOfBoth(env, es[1..], fs);
      assert (es + fs)[1..] == es[1..] + fs;
    }
  }

  lemma LeastListed(env: Env, e: Option<Expr>)
    ensures Least(env, Listed(e)) == ValueOf(env, e)
  {
    if e.Some? {
      assert [e.value][1..] == [];
    }
  }

  lemma LoweredIsLeast(env: Env, inherited: Option<Expr>, own: Option<Expr>, after: Option<Expr>,
                       from: seq<Expr>, modules: Sym)
    requires Good(env) && Lowered(inherited, own, after, modules)
    requires ValueOf(env, inherited) == Least(env, from)
    ensures ValueOf(env, after) == Least(env, from + Listed(Rewritten(own, modules)))
  {
    hide Least, Value, Listed, Rewritten, Proper;
    LeastOfBoth(env, from, Listed(Rewritten(own, modules)));
    LeastListed(env, Rewritten(own, modules));
  }

  /** What an entry hands down is worth what its children find above them. */
  lemma HandsLeast(env: Env, own: Item, after: Item, conds: seq<Expr>, modules: Sym)
    requires Good(env) && ValueOf(env, after.dep) == Least(env, conds)
    requires own.kind.Menu? ==>
      after.kind.Menu? && Lowered(after.dep, own.kind.cond, after.kind.cond, modules)
    requires !own.kind.Menu? ==> after.kind == own.kind
    ensures ValueOf(env, HandedDown(after)) == Least(env, Below(own, conds, modules))
  {
    hide Least, Value, Rewritten, Proper, Lowered;
    match own.kind
    case Menu(c) => LoweredIsLeast(env, after.dep, c, after.kind.cond, conds, modules);
    case Choice(s) => LeastListed(env, Some(Symbol(s)));
    case Plain =>
  }

  /** An entry's dependency ends up worth the least of the rewritten conditions around it,
      whatever values the symbols take. */
  lemma {:induction false} DependsOnAllAbove(env: Env, own: Item, after: Item, from: seq<Expr>,
                                             path: seq<nat>, modules: Sym)
    requires Good(env) && Passed(own, after, modules) && IsPath(own, path) && path != []
    requires ValueOf(env, HandedDown(after)) == Least(env, from)
    ensures IsPath(after, path)
    ensures ValueOf(env, At(after, path).dep) == Least(env, Along(own, from, path, modules))
    decreases |path|
  {
    hide Least, Value, ValueOf, Listed, Rewritten, Proper, Lowered, HandedDown, Below;
    var kid, kid' := own.kids[path[0]], after.kids[path[0]];
    var conds := from + Listed(Rewritten(kid.dep, modules));
    assert Inherits(after, kid, kid', modules);
    LoweredIsLeast(env, HandedDown(after), kid.dep, kid'.dep, from, modules);
    if |path| > 1 {
      HandsLeast(env, kid, kid', conds, modules);
      DependsOnAllAbove(env, kid, kid', Below(kid, conds, modules), path[1..], modules);
    }
  }

  /** The same from the root, whose own condition is taken as it is. */
  lemma FinalDependency(env: Env, root: Item, after: Item, path: seq<nat>, modules: Sym)
    requires Good(env) && after == root.(kids := after.kids) && Passed(root, after, modules)
    requires IsPath(root, path) && path != []
    ensures IsPath(after, path)
    ensures ValueOf(env, At(after, path).dep)
         == Least(env, Along(root, Listed(HandedDown(root)), path, modules))
  {
    LeastListed(env, HandedDown(root));
    DependsOnAllAbove(env, root, after, Listed(HandedDown(root)), path, modules);
  }
}
