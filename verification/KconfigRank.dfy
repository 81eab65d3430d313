/**
 What the search for recursive dependencies is for: when it reports nothing, the order in which it
 leaves the symbols ranks them so that the evaluator can compute them one after the other. What it
 does not follow, implied values and direct dependencies, has to be ranked besides.
 */
module KconfigRank {
  import opened Common
  import opened KconfigExpr
  import Deps = KconfigDeps
  import Values = KconfigValues

  /** The search sees a symbol's reverse dependency, its prompts, and its defaults. */
  ghost predicate Shows(g: Deps.Graph, t: Values.Table) {
    && g.Keys == t.g.Keys
    && forall s :: s in t.g ==> ShowsEntry(g[s], t.g[s])
  }

  ghost predicate ShowsEntry(d: Deps.Entry, e: Values.Entry) {
    && d.revDep == e.revDep
    && (forall i :: 0 <= i < |e.prompts| ==> Deps.Prop(Deps.OtherKind, e.prompts[i], None) in d.props)
    && (forall i :: 0 <= i < |e.defaults| ==>
          Deps.Prop(Deps.DefaultKind, e.defaults[i].visible, e.defaults[i].expr) in d.props)
  }

  function Place(order: seq<Sym>, s: Sym): (k: nat)
    ensures k <= |order| && (k < |order| ==> order[k] == s) && (s in order ==> k < |order|)
    ensures forall i :: 0 <= i < k ==> order[i] != s
  {
    if order == [] || order[0] == s then 0 else 1 + Place(order[1..], s)
  }

  function Ranked(t: Values.Table, order: seq<Sym>): Values.Table {
    t.(rank := map s | s in t.g :: Place(order, s))
  }

  /** Being ranked below n, said of the symbols that stand in an expression. */
  lemma {:induction false} BelowMeans(t: Values.Table, e: Expr, n: nat)
    ensures Values.Below(t, e, n) <==>
      forall s :: Occurs(s, e) && s in t.g ==> s in t.rank && t.rank[s] < n
  {
    match e
    case Not(a) => BelowMeans(t, a, n);
    case Bin(_, l, r) =>
      BelowMeans(t, l, n);
      BelowMeans(t, r, n);
    case Comp(_, _, _) =>
    case Symbol(_) =>
  }

  /** Everything the search followed without a report leads to symbols of lower rank. */
  lemma FollowedIsBelow(g: Deps.Graph, t: Values.Table, order: seq<Sym>, s: Sym, e: Option<Expr>)
    requires g.Keys == t.g.Keys && Deps.Topological(g, order) && s in t.g
    requires forall u :: u in g ==> u in order
    requires forall u :: Deps.OccursIn(u, e) ==> Deps.Edge(g, s, u)
    ensures Values.BelowOpt(Ranked(t, order), e, Ranked(t, order).rank[s])
  {
    hide Deps.Edge, Occurs;
    var t' := Ranked(t, order);
    var k := Place(order, s);
    if e.Some? {
      forall u | Occurs(u, e.value) && u in t.g ensures u in t'.rank && t'.rank[u] < t'.rank[s] {
        assert Deps.OccursIn(u, e);
        assert Deps.Edge(g, order[k], u);
        assert u in order[..k];
        var i :| 0 <= i < k && order[..k][i] == u;
        assert order[i] == u;
        assert Place(order, u) <= i;
      }
      BelowMeans(t', e.value, t'.rank[s]);
    }
  }

  lemma FollowedEntry(g: Deps.Graph, t: Values.Table, order: seq<Sym>, s: Sym)
    requires Shows(g, t) && Deps.Topological(g, order) && s in t.g && forall u :: u in g ==> u in order
    ensures
      var t', d := Ranked(t, order), t.g[s];
      var n := t'.rank[s];
      && Values.BelowOpt(t', d.revDep, n)
      && (forall i :: 0 <= i < |d.prompts| ==> Values.BelowOpt(t', d.prompts[i], n))
      && (forall i :: 0 <= i < |d.defaults| ==>
            Values.BelowOpt(t', d.defaults[i].visible, n) && Values.BelowOpt(t', d.defaults[i].expr, n))
  {
    hide Values.BelowOpt, Deps.Topological, Deps.OccursIn, Place;
    var d, ps := t.g[s], g[s].props;
    assert ShowsEntry(g[s], d);
    FollowedIsBelow(g, t, order, s, d.revDep);
    forall i | 0 <= i < |d.prompts| ensures Values.BelowOpt(Ranked(t, order), d.prompts[i], Ranked(t, order).rank[s]) {
      var p := Deps.Prop(Deps.OtherKind, d.prompts[i], None);
      var j :| 0 <= j < |ps| && ps[j] == p;
      Deps.ConcernsIsEdge(g, s, j);
      FollowedIsBelow(g, t, order, s, d.prompts[i]);
    }
    forall i | 0 <= i < |d.defaults|
      ensures Values.BelowOpt(Ranked(t, order), d.defaults[i].visible, Ranked(t, order).rank[s])
      ensures Values.BelowOpt(Ranked(t, order), d.defaults[i].expr, Ranked(t, order).rank[s])
    {
      var p := Deps.Prop(Deps.DefaultKind, d.defaults[i].visible, d.defaults[i].expr);
      var j :| 0 <= j < |ps| && ps[j] == p;
      Deps.ConcernsIsEdge(g, s, j);
      FollowedIsBelow(g, t, order, s, d.defaults[i].visible);
      FollowedIsBelow(g, t, order, s, d.defaults[i].expr);
    }
  }

  /** After a search without a report the symbols can be computed in the order the search left them,
      exactly if that order also ranks direct dependencies and implied values. */
  lemma NothingReported(g: Deps.Graph, t: Values.Table, order: seq<Sym>)
    requires Shows(g, t) && Deps.Topological(g, order) && forall u :: u in g ==> u in order
    requires forall s :: s in t.g ==> s.IsBoolOrTri()
    ensures
      var t' := Ranked(t, order);
      Values.Acyclic(t') <==>
        forall s :: s in t.g ==>
          Values.BelowOpt(t', t.g[s].dirDep, t'.rank[s]) && Values.BelowOpt(t', t.g[s].implied, t'.rank[s])
  {
    hide Values.BelowOpt, Shows, Deps.Topological;
    var t' := Ranked(t, order);
    forall s | s in t.g
      ensures Values.EntryBelow(t', t.g[s], t'.rank[s]) <==>
        Values.BelowOpt(t', t.g[s].dirDep, t'.rank[s]) && Values.BelowOpt(t', t.g[s].implied, t'.rank[s])
    {
      FollowedEntry(g, t, order, s);
    }
  }

  /** Two symbols that imply each other. */
  function Implying(a: Sym, b: Sym, rank: map<Sym, nat>, str: Sym -> string, num: Sym -> Number): Values.Table {
    Values.Table(map[a := Values.Entry([], None, None, Some(Symbol(b)), []),
                     b := Values.Entry([], None, None, Some(Symbol(a)), [])],
                 rank, true, str, num)
  }

  /** The search does not see that recursion, and there is no order to compute them in. */
  lemma ImplyIsNotSeen(a: Sym, b: Sym, str: Sym -> string, num: Sym -> Number)
    requires a != b
    ensures
      var g: Deps.Graph := map[a := Deps.Entry(None, []), b := Deps.Entry(None, [])];
      Shows(g, Implying(a, b, map[], str, num)) && !Deps.HasCycle(g)
    ensures forall rank: map<Sym, nat> :: !Values.Acyclic(Implying(a, b, rank, str, num))
  {
    var g: Deps.Graph := map[a := Deps.Entry(None, []), b := Deps.Entry(None, [])];
    assert forall s, t :: !Deps.Edge(g, s, t);
    if Deps.HasCycle(g) {
      CycleHasEdge(g);
    }
    forall rank: map<Sym, nat> ensures !Values.Acyclic(Implying(a, b, rank, str, num)) {
      var t := Implying(a, b, rank, str, num);
      if Values.Acyclic(t) {
        ImpliedIsLower(t, a, b);
        ImpliedIsLower(t, b, a);
      }
    }
  }

  lemma CycleHasEdge(g: Deps.Graph)
    requires Deps.HasCycle(g)
    ensures exists s, t :: Deps.Edge(g, s, t)
  {
    var s :| Deps.Path(g, s, s);
    var p :| Deps.IsWay(g, p) && p[0] == s && p[|p| - 1] == s;
    assert Deps.Edge(g, p[0], p[1]);
  }

  lemma ImpliedIsLower(t: Values.Table, a: Sym, b: Sym)
    requires Values.Acyclic(t) && a in t.g && b in t.g && t.g[a].implied == Some(Symbol(b))
    ensures a in t.rank && b in t.rank && t.rank[b] < t.rank[a]
  {
    Values.DependenciesBelow(t, a);
  }
}
