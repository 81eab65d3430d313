/**
 expr_transform: comparisons of boolean symbols become plain symbols, and negations are
 pushed down to the symbols.
 */
module KconfigTransform {
  import opened KconfigExpr

  function Negated(rel: Rel): Rel {
    match rel
    case Eq => Ne
    case Ne => Eq
    case Le => Gt
    case Ge => Lt
    case Lt => Ge
    case Gt => Le
  }

  /** A test of a boolean symbol against y, m or n. */
  function TransformTest(rel: Rel, l: Sym, r: Sym): Expr
    requires rel.Eq? || rel.Ne?
  {
    if !l.Type().Boolean? then Comp(rel, l, r)
    else match r
      case No => if rel.Eq? then Not(Symbol(l)) else Symbol(l)
      case Mod => Symbol(if rel.Eq? then No else Yes)
      case Yes => if rel.Eq? then Symbol(l) else Not(Symbol(l))
      case _ => Comp(rel, l, r)
  }

  /** Grows with the number of operators under each negation, so that it shrinks when a
      negation moves inwards. */
  function Weight(e: Expr): (n: nat)
    ensures n >= 1
  {
    match e
    case Symbol(_) => 1
    case Comp(_, _, _) => 2
    case Bin(_, l, r) => 1 + Weight(l) + Weight(r)
    case Not(a) => 2 * Weight(a)
  }

  lemma DeMorganWeight(op: Op, x: Expr, y: Expr)
    ensures Weight(Bin(Dual(op), Not(x), Not(y))) < 2 * Weight(Bin(op, x, y))
  {
    assert Weight(Not(x)) == 2 * Weight(x) && Weight(Not(y)) == 2 * Weight(y);
  }

  /** The operands come first; after De Morgan's law the whole function runs once more on the
      tree it has just built. */
  function Transform(e: Expr): (r: Expr)
    ensures Weight(r) <= Weight(e)
    decreases Weight(e)
  {
    match e
    case Symbol(_) => e
    case Comp(rel, l, r) => if rel.Eq? || rel.Ne? then TransformTest(rel, l, r) else e
    case Bin(op, a, b) => Bin(op, Transform(a), Transform(b))
    case Not(a) =>
      match Transform(a)
      case Not(b) => Transform(b)
      case Comp(rel, l, r) => Comp(Negated(rel), l, r)
      case Bin(op, x, y) =>
        DeMorganWeight(op, x, y);
        Transform(Bin(Dual(op), Not(x), Not(y)))
      case Symbol(s) =>
        match s
        case Yes => Symbol(No)
        case Mod => Symbol(Mod)
        case No => Symbol(Yes)
        case _ => Not(Symbol(s))
  }

  /** Transformation keeps the value under every assignment. */
  lemma {:induction false} TransformKeepsValue(env: Env, e: Expr)
    requires Good(env) && WellFormed(e)
    ensures WellFormed(Transform(e))
    ensures Value(env, Transform(e)) == Value(env, e)
    decreases Weight(e)
  {
    match e
    case Symbol(_) =>
    case Comp(rel, l, r) =>
      if l.Type().Boolean? && r.IsTriConst() {
        TestAgainstConstant(env, l, r);
      }
    case Bin(op, a, b) =>
      TransformKeepsValue(env, a);
      TransformKeepsValue(env, b);
    case Not(a) =>
      TransformKeepsValue(env, a);
      match Transform(a) {
        case Not(b) => TransformKeepsValue(env, b);
        case Bin(op, x, y) =>
          DeMorganWeight(op, x, y);
          TransformKeepsValue(env, Bin(Dual(op), Not(x), Not(y)));
        case Comp(rel, l, r) => NegatedKeepsValue(env, rel, l, r);
        case _ =>
      }
  }

  /** Turning a negated comparison into the opposite comparison is right exactly when the
      comparison is not an inequality between operands that cannot be ordered; expressions of
      orderable types have none of those. */
  lemma NegatedKeepsValue(env: Env, rel: Rel, l: Sym, r: Sym)
    ensures Value(env, Comp(Negated(rel), l, r)) == 2 - Value(env, Comp(rel, l, r))
            <==> rel.Eq? || rel.Ne? || !Compare(env, l, r).Unordered?
    ensures WellFormed(Comp(rel, l, r)) ==> WellFormed(Comp(Negated(rel), l, r))
    ensures !l.Type().Other? && !r.Type().Other? ==> !Compare(env, l, r).Unordered?
  {
  }

  /** Every negation sits directly on a symbol other than y, m and n, and no boolean symbol is
      tested against those. */
  predicate Normal(e: Expr) {
    match e
    case Symbol(_) => true
    case Comp(rel, l, r) => rel.Eq? || rel.Ne? ==> !(l.Type().Boolean? && r.IsTriConst())
    case Bin(_, l, r) => Normal(l) && Normal(r)
    case Not(a) => a.Symbol? && !a.sym.IsTriConst()
  }

  predicate IsPart(f: Expr, e: Expr) {
    f == e || (e.Not? && IsPart(f, e.arg)) || (e.Bin? && (IsPart(f, e.left) || IsPart(f, e.right)))
  }

  lemma {:induction false} PartsAreNormal(e: Expr, f: Expr)
    requires Normal(e) && IsPart(f, e)
    ensures Normal(f)
  {
    if f != e {
      if e.Bin? {
        PartsAreNormal(if IsPart(f, e.left) then e.left else e.right, f);
      } else {
        PartsAreNormal(e.arg, f);
      }
    }
  }

  /** In the result only symbols are negated, and none of y, m and n; and no boolean symbol is
      tested for being one of those. (A symbol of boolean type is a configuration symbol, never
      one of the constants.) */
  lemma TransformNormalizes(e: Expr)
    ensures Normal(Transform(e))
    ensures forall a: Expr :: IsPart(Not(a), Transform(e)) ==> a.Symbol? && !a.sym.IsTriConst()
    ensures forall l: Sym, r: Sym :: l.Type().Boolean? && r.IsTriConst() ==>
      !IsPart(Comp(Eq, l, r), Transform(e)) && !IsPart(Comp(Ne, l, r), Transform(e))
  {
    TransformedIsNormal(e);
    var t := Transform(e);
    forall f: Expr | IsPart(f, t) ensures Normal(f) {
      PartsAreNormal(t, f);
    }
    hide Transform, IsPart;
    forall l: Sym, r: Sym | l.Type().Boolean? && r.IsTriConst()
      ensures !IsPart(Comp(Eq, l, r), t) && !IsPart(Comp(Ne, l, r), t)
    {
      assert !Normal(Comp(Eq, l, r)) && !Normal(Comp(Ne, l, r));
    }
  }

  lemma {:induction false} TransformedIsNormal(e: Expr)
    ensures Normal(Transform(e))
    decreases Weight(e)
  {
    match e
    case Bin(_, a, b) =>
      TransformedIsNormal(a);
      TransformedIsNormal(b);
    case Not(a) =>
      TransformedIsNormal(a);
      match Transform(a) {
        case Not(b) => TransformedIsNormal(b);
        case Bin(op, x, y) =>
          DeMorganWeight(op, x, y);
          TransformedIsNormal(Bin(Dual(op), Not(x), Not(y)));
        case _ =>
      }
    case _ =>
  }

  /** A normal expression is left alone, and only those are: the transformation is idempotent
      and its results are exactly the normal expressions. */
  lemma {:induction false} TransformFixpoint(e: Expr)
    ensures Transform(e) == e <==> Normal(e)
    ensures Transform(Transform(e)) == Transform(e)
  {
    TransformedIsNormal(e);
    NormalIsFixed(Transform(e));
    if Normal(e) {
      NormalIsFixed(e);
    }
  }

  lemma {:induction false} NormalIsFixed(e: Expr)
    requires Normal(e)
    ensures Transform(e) == e
  {
    if e.Bin? {
      NormalIsFixed(e.left);
      NormalIsFixed(e.right);
    }
  }

  /** The reason for excluding unorderable operands from inequalities: the source reports such a
      comparison as n, and reports its rewritten negation as n as well. */
  lemma TransformNeedsOrder(env: Env, a: string, b: string)
    ensures var e := Not(Comp(Lt, Config(a, Other), Config(b, Other)));
            !WellFormed(e) && Value(env, e) == 2 && Value(env, Transform(e)) == 0
  {
    var e := Comp(Lt, Config(a, Other), Config(b, Other));
    assert Transform(e) == e;
  }
}
