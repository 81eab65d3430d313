/**
 The check for recursive dependencies: a depth-first walk over everything a symbol's value is
 computed from, with one mark for the symbols on the current path and one for the symbols ever
 entered. The symbols are not choices and not members of choices.
 */
module KconfigDeps {
  import opened Common
  import opened KconfigExpr

  datatype PropKind = ChoiceKind | SelectKind | DefaultKind | OtherKind

  datatype Prop = Prop(kind: PropKind, visible: Option<Expr>, expr: Option<Expr>)

  datatype Entry = Entry(revDep: Option<Expr>, props: seq<Prop>)

  type Graph = map<Sym, Entry>

  // ---------------------------------------------------------------- paths

  predicate OccursIn(t: Sym, e: Option<Expr>) {
    e.Some? && Occurs(t, e.value)
  }

  /** Choices and selects are passed over; of the others the condition counts, and of a default its
      value too. */
  predicate Concerns(p: Prop, t: Sym) {
    && !p.kind.ChoiceKind? && !p.kind.SelectKind?
    && (OccursIn(t, p.visible) || (p.kind.DefaultKind? && OccursIn(t, p.expr)))
  }

  /** s depends on t: t stands in its reverse dependency or in one of its properties. */
  ghost predicate Edge(g: Graph, s: Sym, t: Sym) {
    && s in g
    && (OccursIn(t, g[s].revDep) || exists i :: 0 <= i < |g[s].props| && Concerns(g[s].props[i], t))
  }

  ghost predicate Closed(g: Graph) {
    forall s, t :: Edge(g, s, t) ==> t in g
  }

  /** A way along at least one edge. */
  ghost predicate IsWay(g: Graph, p: seq<Sym>) {
    |p| >= 2 && forall i, j :: 0 <= i < j < |p| && j == i + 1 ==> Edge(g, p[i], p[j])
  }

  ghost predicate Path(g: Graph, s: Sym, t: Sym) {
    exists p: seq<Sym> :: IsWay(g, p) && p[0] == s && p[|p| - 1] == t
  }

  ghost predicate HasCycle(g: Graph) {
    exists s :: Path(g, s, s)
  }

  lemma OneEdge(g: Graph, s: Sym, t: Sym)
    requires Edge(g, s, t)
    ensures Path(g, s, t)
  {
    assert IsWay(g, [s, t]) && [s, t][0] == s && [s, t][1] == t;
  }

  lemma LongerPath(g: Graph, s: Sym, t: Sym, u: Sym)
    requires Path(g, s, t) && Edge(g, t, u)
    ensures Path(g, s, u)
  {
    var p :| IsWay(g, p) && p[0] == s && p[|p| - 1] == t;
    hide Edge;
    var q := p + [u];
    assert IsWay(g, q) && q[0] == s && q[|q| - 1] == u;
  }

  /** Every symbol of the list only leads to symbols before it. */
  ghost predicate Topological(g: Graph, order: seq<Sym>) {
    forall i, t :: 0 <= i < |order| && Edge(g, order[i], t) ==> t in order[..i]
  }

  lemma StepBack(g: Graph, order: seq<Sym>, i: nat, t: Sym) returns (j: nat)
    requires Topological(g, order) && i < |order| && Edge(g, order[i], t)
    ensures j < i && order[j] == t
  {
    assert t in order[..i];
    j :| j < i && order[j] == t;
  }

  lemma RestOfWay(g: Graph, p: seq<Sym>)
    requires IsWay(g, p)
    ensures Edge(g, p[0], p[1])
    ensures |p| > 2 ==> IsWay(g, p[1..])
  {
    hide Edge;
  }

  lemma {:induction false} WayGoesBack(g: Graph, order: seq<Sym>, p: seq<Sym>, i: nat)
    requires Topological(g, order) && IsWay(g, p)
    requires i < |order| && p[0] == order[i]
    ensures p[|p| - 1] in order[..i]
    decreases |p|
  {
    RestOfWay(g, p);
    var j := StepBack(g, order, i, p[1]);
    hide Edge, Topological;
    assert order[..i][j] == order[j];
    if |p| > 2 {
      WayGoesBack(g, order, p[1..], j);
    }
  }

  ghost predicate NoRepeats(s: seq<Sym>) {
    forall i, j :: 0 <= i < j < |s| ==> s[i] != s[j]
  }

  lemma NoRepeatsSnoc(s: seq<Sym>, x: Sym)
    requires NoRepeats(s) && x !in s
    ensures NoRepeats(s + [x])
  {
  }

  lemma TopologicalSnoc(g: Graph, order: seq<Sym>, s: Sym)
    requires Topological(g, order) && s in g && forall t :: Edge(g, s, t) ==> t in order
    ensures Topological(g, order + [s])
  {
    var next := order + [s];
    forall i, t | 0 <= i < |next| && Edge(g, next[i], t) ensures t in next[..i] {
      assert next[..i] == order[..i];
    }
  }

  /** A graph whose symbols with edges can be put in such an order has no cycle. */
  lemma OrderedIsAcyclic(g: Graph, order: seq<Sym>)
    requires Topological(g, order) && NoRepeats(order)
    requires forall s, t :: Edge(g, s, t) ==> s in order
    ensures !HasCycle(g)
  {
    forall p: seq<Sym> | IsWay(g, p) ensures p[|p| - 1] != p[0] {
      assert Edge(g, p[0], p[1]);
      var i :| 0 <= i < |order| && order[i] == p[0];
      WayGoesBack(g, order, p, i);
    }
  }

  // ---------------------------------------------------------------- the walk

  /** The marks during the walk. `expanded` are the symbols whose dependencies were followed, and
      `order` those that were left, as long as nothing was reported. */
  ghost predicate Consistent(g: Graph, check: set<Sym>, checked: set<Sym>, reports: seq<Sym>,
                             expanded: seq<Sym>, order: seq<Sym>)
  {
    && Closed(g)
    && check <= checked <= g.Keys
    && NoRepeats(expanded) && (forall s :: s in expanded <==> s in checked)
    && (forall s :: s in reports ==> Path(g, s, s))
    && (reports == [] ==> Topological(g, order) && NoRepeats(order)
                          && forall s :: s in order <==> s in checked && s !in check)
  }

  lemma ConsistentFacts(g: Graph, check: set<Sym>, checked: set<Sym>, reports: seq<Sym>,
                        expanded: seq<Sym>, order: seq<Sym>)
    requires Consistent(g, check, checked, reports, expanded, order)
    ensures Closed(g) && check <= checked <= g.Keys
  {
  }

  lemma Reported(g: Graph, check: set<Sym>, checked: set<Sym>, reports: seq<Sym>,
                 expanded: seq<Sym>, order: seq<Sym>, s: Sym)
    requires Consistent(g, check, checked, reports, expanded, order) && Path(g, s, s) && s in check
    ensures Consistent(g, check, checked, reports + [s], expanded, order) && s in checked
  {
  }

  lemma Entered(g: Graph, check: set<Sym>, checked: set<Sym>, reports: seq<Sym>,
                expanded: seq<Sym>, order: seq<Sym>, s: Sym)
    requires Consistent(g, check, checked, reports, expanded, order) && s in g && s !in checked
    ensures Consistent(g, check + {s}, checked + {s}, reports, expanded + [s], order) && s !in check
  {
    NoRepeatsSnoc(expanded, s);
  }

  lemma Exited(g: Graph, check: set<Sym>, checked: set<Sym>, reports: seq<Sym>,
               expanded: seq<Sym>, order: seq<Sym>, s: Sym)
    requires Consistent(g, check, checked, reports, expanded, order) && s in check
    requires s in g && (reports == [] ==> forall t :: Edge(g, s, t) ==> t in checked && t !in check)
    ensures Consistent(g, check - {s}, checked, reports, expanded, if reports == [] then order + [s] else order)
    ensures s in checked
  {
    if reports == [] {
      TopologicalSnoc(g, order, s);
      NoRepeatsSnoc(order, s);
    }
  }

  class DepChecker {
    const g: Graph
    var check: set<Sym>    // SYMBOL_CHECK: on the current path
    var checked: set<Sym>  // SYMBOL_CHECKED: entered at some time
    var reports: seq<Sym>  // the recursive dependencies reported
    ghost var expanded: seq<Sym>  // the symbols whose dependencies were followed
    ghost var order: seq<Sym>     // the symbols left, while nothing was reported

    constructor (g: Graph)
      requires Closed(g)
      ensures Valid() && this.g == g && check == checked == {} && reports == expanded == order == []
    {
      this.g := g;
      check, checked, reports, expanded, order := {}, {}, [], [], [];
    }

    ghost predicate Valid()
      reads this
    {
      Consistent(g, check, checked, reports, expanded, order)
    }

    /** A symbol that was left for good, if nothing was reported. */
    ghost predicate Left(s: Sym)
      reads this
    {
      s in checked && s !in check
    }

    /** sym_check_deps: entering a symbol of the current path is reported. */
    method CheckDeps(s: Sym) returns (r: Option<Sym>)
      requires Valid() && s in g && forall c :: c in check ==> Path(g, c, s)
      modifies this
      ensures Valid() && check == old(check) && old(checked) <= checked && s in checked
      ensures old(reports) != [] ==> reports != []
      ensures r.Some? ==> r.value in check && reports != []
      ensures reports == [] ==> Left(s)
      decreases |g.Keys - checked|, 1, 0
    {
      hide Consistent, Path, Edge, Closed, Size;
      if s in check {
        Reported(g, check, checked, reports, expanded, order, s);
        reports := reports + [s];
        return Some(s);
      }
      if s in checked {
        return None;
      }
      r := Follow(s);
      if r == Some(s) {
        r := None;
      }
    }

    /** Both marks are set, the dependencies followed, and the symbol leaves the path. */
    method Follow(s: Sym) returns (r: Option<Sym>)
      requires Valid() && s in g && s !in checked && forall c :: c in check ==> Path(g, c, s)
      modifies this
      ensures Valid() && check == old(check) && old(checked) <= checked && s in checked
      ensures old(reports) != [] ==> reports != []
      ensures r.Some? ==> (r.value == s || r.value in check) && reports != []
      ensures reports == [] ==> Left(s)
      decreases |g.Keys - checked|, 0, 0
    {
      hide Consistent, Path, Edge, Closed;
      Entered(g, check, checked, reports, expanded, order, s);
      SmallerSet(g.Keys, checked, s);
      ghost var path := check;
      check := check + {s};
      checked := checked + {s};
      expanded := expanded + [s];
      r := CheckSymDeps(s);
      AddedAndRemoved(path, s);
      Exited(g, check, checked, reports, expanded, order, s);
      check := check - {s};
      order := if reports == [] then order + [s] else order;
    }

    /** sym_check_sym_deps: the reverse dependencies, then the properties in turn. */
    method CheckSymDeps(s: Sym) returns (r: Option<Sym>)
      requires Valid() && s in check && forall c :: c in check ==> c == s || Path(g, c, s)
      modifies this
      ensures Valid() && check == old(check) && old(checked) <= checked
      ensures old(reports) != [] ==> reports != []
      ensures r.Some? ==> r.value in check && reports != []
      ensures reports == [] ==> forall t :: Edge(g, s, t) ==> Left(t)
      decreases |g.Keys - checked|, 5, 0
    {
      hide Consistent, Path, Occurs, OccursIn, Concerns;
      ConsistentFacts(g, check, checked, reports, expanded, order);
      r := CheckExprDeps(g[s].revDep, s);
      if r.Some? {
        return;
      }
      var ps := g[s].props;
      var i := 0;
      while i < |ps|
        invariant 0 <= i <= |ps| && r.None?
        invariant Valid() && check == old(check) && old(checked) <= checked && (old(reports) != [] ==> reports != [])
        invariant reports == [] ==> forall t {:trigger OccursIn(t, g[s].revDep)} ::
          OccursIn(t, g[s].revDep) ==> Left(t)
        invariant reports == [] ==> forall j, t {:trigger Concerns(ps[j], t)} ::
          0 <= j < i && Concerns(ps[j], t) ==> Left(t)
      {
        SubsetSize(g.Keys - checked, g.Keys - old(checked));
        r := CheckProp(s, i);
        if r.Some? {
          return;
        }
        i := i + 1;
      }
    }

    /** One property: its condition, and a default's value. */
    method CheckProp(s: Sym, i: nat) returns (r: Option<Sym>)
      requires Valid() && s in check && forall c :: c in check ==> c == s || Path(g, c, s)
      requires s in g && i < |g[s].props|
      modifies this
      ensures Valid() && check == old(check) && old(checked) <= checked
      ensures old(reports) != [] ==> reports != []
      ensures r.Some? ==> r.value in check && reports != []
      ensures reports == [] ==> forall t :: Concerns(g[s].props[i], t) ==> Left(t)
      decreases |g.Keys - checked|, 4, 0
    {
      var p := g[s].props[i];
      ConcernsIsEdge(g, s, i);
      hide Consistent, Path, Occurs, OccursIn, Edge;
      if p.kind.ChoiceKind? || p.kind.SelectKind? {
        return None;
      }
      r := CheckExprDeps(p.visible, s);
      if r.Some? {
        return;
      }
      SubsetSize(g.Keys - checked, g.Keys - old(checked));
      if p.kind.DefaultKind? {
        r := CheckExprDeps(p.expr, s);
      }
    }

    /** sym_check_expr_deps, for an expression among the dependencies of `s`. */
    method CheckExprDeps(o: Option<Expr>, ghost s: Sym) returns (r: Option<Sym>)
      requires Valid() && s in check && forall c :: c in check ==> c == s || Path(g, c, s)
      requires forall t :: OccursIn(t, o) ==> Edge(g, s, t)
      modifies this
      ensures Valid() && check == old(check) && old(checked) <= checked
      ensures old(reports) != [] ==> reports != []
      ensures r.Some? ==> r.value in check && reports != []
      ensures reports == [] ==> forall t :: OccursIn(t, o) ==> Left(t)
      decreases |g.Keys - checked|, 3, if o.None? then 0 else Size(o.value)
    {
      Standing(o);
      hide Consistent, Path, Edge, Occurs, OccursIn;
      if o.None? {
        return None;
      }
      match o.value
      case Bin(_, left, right) =>
        r := CheckExprDeps(Some(left), s);
        if r.Some? {
          return;
        }
        SubsetSize(g.Keys - checked, g.Keys - old(checked));
        r := CheckExprDeps(Some(right), s);
      case Not(a) =>
        r := CheckExprDeps(Some(a), s);
      case Comp(_, left, right) =>
        r := CheckTarget(left, s);
        if r.Some? {
          return;
        }
        SubsetSize(g.Keys - checked, g.Keys - old(checked));
        r := CheckTarget(right, s);
      case Symbol(t) =>
        r := CheckTarget(t, s);
    }

    method CheckTarget(t: Sym, ghost s: Sym) returns (r: Option<Sym>)
      requires Valid() && s in check && forall c :: c in check ==> c == s || Path(g, c, s)
      requires Edge(g, s, t)
      modifies this
      ensures Valid() && check == old(check) && old(checked) <= checked
      ensures old(reports) != [] ==> reports != []
      ensures r.Some? ==> r.value in check && reports != []
      ensures reports == [] ==> Left(t)
      decreases |g.Keys - checked|, 2, 0
    {
      forall c | c in check ensures Path(g, c, t) {
        if c == s { OneEdge(g, s, t); } else { LongerPath(g, c, s, t); }
      }
      r := CheckDeps(t);
    }
  }

  lemma SmallerSet<T>(a: set<T>, b: set<T>, x: T)
    requires x in a && x !in b
    ensures |a - (b + {x})| < |a - b|
  {
    assert a - (b + {x}) == (a - b) - {x};
  }

  lemma AddedAndRemoved<T>(a: set<T>, x: T)
    requires x !in a
    ensures (a + {x}) - {x} == a
  {
  }

  /** What stands in an expression stands in one of its parts. */
  lemma Standing(o: Option<Expr>)
    ensures o.None? ==> forall t :: !OccursIn(t, o)
    ensures o.Some? && o.value.Bin? ==>
      forall t :: OccursIn(t, o) <==> OccursIn(t, Some(o.value.left)) || OccursIn(t, Some(o.value.right))
    ensures o.Some? && o.value.Not? ==> forall t :: OccursIn(t, o) <==> OccursIn(t, Some(o.value.arg))
    ensures o.Some? && o.value.Comp? ==> forall t :: OccursIn(t, o) <==> t == o.value.lhs || t == o.value.rhs
    ensures o.Some? && o.value.Symbol? ==> forall t :: OccursIn(t, o) <==> t == o.value.sym
  {
  }

  lemma ConcernsIsEdge(g: Graph, s: Sym, i: nat)
    requires s in g && i < |g[s].props|
    ensures forall t :: Concerns(g[s].props[i], t) ==> Edge(g, s, t)
    ensures
      var p := g[s].props[i];
      forall t :: Concerns(p, t) <==>
        !p.kind.ChoiceKind? && !p.kind.SelectKind?
        && (OccursIn(t, p.visible) || (p.kind.DefaultKind? && OccursIn(t, p.expr)))
  {
  }

  /** The caller's loop over all symbols, in any order: a recursive dependency is reported if and
      only if there is one, every symbol's dependencies are followed exactly once, and, perhaps
      unexpectedly, no call returns a symbol, so that the caller counts no error. */
  method CheckAll(g: Graph, syms: seq<Sym>)
      returns (reports: seq<Sym>, errors: int, ghost expanded: seq<Sym>, ghost order: seq<Sym>)
    requires Closed(g) && (forall s :: s in syms ==> s in g)
    requires forall s, t :: Edge(g, s, t) ==> s in syms
    ensures reports != [] <==> HasCycle(g)
    ensures forall s :: s in reports ==> Path(g, s, s)
    ensures errors == 0
    ensures NoRepeats(expanded) && forall s :: s in syms ==> s in expanded
    ensures reports == [] ==> Topological(g, order) && forall s :: s in syms ==> s in order
  {
    hide Path, Edge, Topological, NoRepeats, Closed, HasCycle;
    var c := new DepChecker(g);
    errors := 0;
    for i := 0 to |syms|
      invariant fresh(c) && c.g == g && c.Valid() && c.check == {} && errors == 0
      invariant forall j :: 0 <= j < i ==> syms[j] in c.checked
    {
      var r := c.CheckDeps(syms[i]);
      if r.Some? {
        errors := errors + 1;
      }
    }
    reports, expanded, order := c.reports, c.expanded, c.order;
    if reports == [] {
      OrderedIsAcyclic(g, c.order);
    } else {
      CycleAt(g, reports[0]);
    }
  }

  lemma CycleAt(g: Graph, s: Sym)
    requires Path(g, s, s)
    ensures HasCycle(g)
  {
  }

  // ---------------------------------------------------------------- a cycle that is not counted

  /** Two symbols: the first is selected by the second, whose default is the first. */
  function Ring(a: Sym, b: Sym): Graph {
    map[a := Entry(Some(Symbol(b)), []), b := Entry(None, [Prop(DefaultKind, None, Some(Symbol(a)))])]
  }

  lemma RingHasCycle(a: Sym, b: Sym)
    requires a != b
    ensures Closed(Ring(a, b)) && HasCycle(Ring(a, b))
  {
    var g := Ring(a, b);
    assert Concerns(g[b].props[0], a);
    assert Edge(g, a, b) && Edge(g, b, a);
    hide Edge, Path;
    OneEdge(g, a, b);
    LongerPath(g, a, b, a);
    CycleAt(g, a);
  }

  /** Such a cycle is reported, and yet the caller counts no error. */
  method RingIsNotCounted(a: Sym, b: Sym) returns (reports: seq<Sym>, errors: int)
    requires a != b
    ensures HasCycle(Ring(a, b)) && reports != [] && errors == 0
  {
    hide Closed, HasCycle, Path;
    RingHasCycle(a, b);
    ghost var expanded, order: seq<Sym>;
    reports, errors, expanded, order := CheckAll(Ring(a, b), [a, b]);
  }
}
