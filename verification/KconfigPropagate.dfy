/**
 How a menu entry inherits what it depends on: its own condition is rewritten and simplified and
 joined with its parent's, without changing what it means.
 */
module KconfigPropagate {
  import opened Common
  import opened KconfigExpr
  import opened KconfigTransform
  import opened KconfigDups

  /** `m` becomes `m && MODULES`. */
  function RewriteM(e: Expr, modules: Sym): Expr {
    match e
    case Not(a) => Not(RewriteM(a, modules))
    case Bin(op, l, r) => Bin(op, RewriteM(l, modules), RewriteM(r, modules))
    case Symbol(s) => if s == Mod then Bin(And, e, Symbol(modules)) else e
    case Comp(_, _, _) => e
  }

  /** The assignment in which the constant m is worth `v`. */
  function MeaningM(env: Env, v: Tri): Env {
    Env(s => TriM(env, v, s), env.str, env.num)
  }

  function TriM(env: Env, v: Tri, s: Sym): Tri {
    if s == Mod then v else env.tri(s)
  }

  lemma ComparisonsIgnoreM(env: Env, v: Tri, l: Sym, r: Sym)
    ensures Compare(MeaningM(env, v), l, r) == Compare(env, l, r)
  {
    hide StrCmp;
    assert forall s: Sym :: Text(MeaningM(env, v), s) == Text(env, s) && Parsed(MeaningM(env, v), s) == Parsed(env, s);
  }

  /** After the rewriting, m means n wherever modules are off, and is m still where they are on. */
  lemma {:induction false} RewriteMValue(env: Env, e: Expr, modules: Sym)
    requires Good(env)
    ensures Value(env, RewriteM(e, modules)) == Value(MeaningM(env, Combine(And, 1, env.tri(modules))), e)
    ensures WellFormed(RewriteM(e, modules)) == WellFormed(e)
  {
    match e
    case Not(a) => RewriteMValue(env, a, modules);
    case Bin(_, l, r) =>
      RewriteMValue(env, l, modules);
      RewriteMValue(env, r, modules);
    case Comp(_, l, r) => ComparisonsIgnoreM(env, Combine(And, 1, env.tri(modules)), l, r);
    case Symbol(_) =>
  }

  /** expr_alloc_and: an absent operand is left out. */
  function AllocAnd(a: Option<Expr>, b: Option<Expr>): Option<Expr> {
    if a.None? then b else if b.None? then a else Some(Bin(And, a.value, b.value))
  }

  /** The dependency an entry ends up with is the weaker of its parent's and its own, whatever
      values the symbols take; nothing in it can be joined any further. */
  method Propagate(parent: Option<Expr>, own: Option<Expr>, modules: Sym) returns (dep: Option<Expr>)
    requires (parent.Some? ==> WellFormed(parent.value)) && (own.Some? ==> WellFormed(own.value))
    ensures dep.None? <==> parent.None? && own.None?
    ensures forall env: Env :: Good(env) ==>
      ValueOf(env, dep) == Combine(And, ValueOf(env, parent),
                                   ValueOf(MeaningM(env, Combine(And, 1, env.tri(modules))), own))
    ensures dep.Some? ==> WellFormed(dep.value) && Settled(dep.value)
  {
    hide WellFormed, Settled;
    var mine: Option<Expr> := None;
    if own.Some? {
      mine := Some(Transform(RewriteM(own.value, modules)));
      RewrittenIsWellFormed(own.value, modules);
      forall env: Env | Good(env)
        ensures Value(env, mine.value) == Value(MeaningM(env, Combine(And, 1, env.tri(modules))), own.value)
      {
        RewriteMValue(env, own.value, modules);
        TransformKeepsValue(env, RewriteM(own.value, modules));
      }
    }
    var both := AllocAnd(parent, mine);
    BothWellFormed(parent, mine);
    dep := EliminateDups(both);
  }

  lemma BothWellFormed(a: Option<Expr>, b: Option<Expr>)
    requires (a.Some? ==> WellFormed(a.value)) && (b.Some? ==> WellFormed(b.value))
    ensures AllocAnd(a, b).Some? ==> WellFormed(AllocAnd(a, b).value)
  {
  }

  /** Some assignment is good, so well-formedness is kept whatever the assignment. */
  lemma RewrittenIsWellFormed(e: Expr, modules: Sym)
    requires WellFormed(e)
    ensures WellFormed(Transform(RewriteM(e, modules)))
  {
    var env := Env(AnyTri, s => "", s => NotANumber);
    RewriteMValue(env, e, modules);
    TransformKeepsValue(env, RewriteM(e, modules));
  }

  function AnyTri(s: Sym): Tri {
    if s == Yes then 2 else if s == Mod then 1 else 0
  }
}
