/**
 The last test that puts an item into a symbol's submenu: the item's condition and the symbol's
 are turned into tests for "not n" and compared. What the rewriting means, and where it goes wrong.
 */
module KconfigSuperset {
  import opened Common
  import opened KconfigExpr
  import opened KconfigSimplify
  import opened KconfigDups
  import opened KconfigTransform

  /** expr_trans_compare against n. */
  function AgainstN(e: Expr, rel: Rel): Expr
    requires rel.Eq? || rel.Ne?
  {
    match e
    case Bin(op, l, r) =>
      var both := Bin(Dual(op), AgainstN(l, Eq), AgainstN(r, Eq));
      if rel.Ne? then Not(both) else both
    case Not(a) => AgainstN(a, if rel.Eq? then Ne else Eq)
    case Comp(_, _, _) => if rel.Eq? then Not(e) else e
    case Symbol(s) => Comp(rel, s, No)
  }

  function NotN(e: Option<Expr>): Expr {
    if e.None? then Not(Symbol(No)) else AgainstN(e.value, Ne)
  }

  /** Never m, whatever the assignment. */
  predicate Crisp(e: Expr) {
    match e
    case Symbol(s) => s.Type().Boolean? || s.Yes? || s.No?
    case Not(a) => Crisp(a)
    case Bin(_, l, r) => Crisp(l) && Crisp(r)
    case Comp(_, _, _) => true
  }

  /** Only boolean and tristate symbols stand for conditions, and nothing that can be m is negated. */
  predicate Testable(e: Expr) {
    match e
    case Symbol(s) => s.IsBoolOrTri() || s.IsTriConst()
    case Not(a) => Testable(a) && Crisp(a)
    case Bin(_, l, r) => Testable(l) && Testable(r)
    case Comp(_, _, _) => true
  }

  lemma {:induction false} CrispIsNotM(env: Env, e: Expr)
    requires Good(env) && Crisp(e)
    ensures Value(env, e) != 1
  {
    match e
    case Symbol(_) =>
    case Not(a) => CrispIsNotM(env, a);
    case Bin(_, l, r) =>
      CrispIsNotM(env, l);
      CrispIsNotM(env, r);
    case Comp(_, _, _) =>
  }

  lemma SymbolAgainstN(env: Env, s: Sym)
    requires Good(env) && (s.IsBoolOrTri() || s.IsTriConst())
    ensures Value(env, Comp(Eq, s, No)) == Truth(env.tri(s) == 0)
    ensures Value(env, Comp(Ne, s, No)) == Truth(env.tri(s) != 0)
  {
    StrCmpZero(Text(env, s), Text(env, No));
    assert TriName(0)[0] == 'n' && TriName(1)[0] == 'm' && TriName(2)[0] == 'y';
  }

  /** The rewritten condition is y or n, and y exactly when the original is not n. */
  lemma {:induction false} AgainstNIsTest(env: Env, e: Expr, rel: Rel)
    requires Good(env) && Testable(e) && (rel.Eq? || rel.Ne?)
    ensures Value(env, AgainstN(e, rel)) == Truth((Value(env, e) == 0) == rel.Eq?)
  {
    match e
    case Symbol(s) => SymbolAgainstN(env, s);
    case Not(a) =>
      AgainstNIsTest(env, a, if rel.Eq? then Ne else Eq);
      CrispIsNotM(env, a);
    case Bin(_, l, r) =>
      AgainstNIsTest(env, l, Eq);
      AgainstNIsTest(env, r, Eq);
    case Comp(_, _, _) =>
  }

  /** A negation is rewritten to the test for n of what is negated, which is right exactly when
      that is not m: `!A` is m when A is, and yet the rewritten condition is n. */
  lemma NegationAgainstN(env: Env, a: Expr)
    requires Good(env) && Testable(a)
    ensures Value(env, AgainstN(Not(a), Ne)) == Truth(Value(env, Not(a)) != 0) <==> Value(env, a) != 1
    ensures Value(env, a) == 1 ==> Value(env, AgainstN(Not(a), Ne)) == 0 && Value(env, Not(a)) == 1
  {
    AgainstNIsTest(env, a, Eq);
  }

  /** So there is a symbol and an assignment for which it is wrong exactly when the negated symbol
      is a tristate. */
  lemma NegatedTristate(s: Sym)
    requires s.IsBoolOrTri()
    ensures (forall env: Env :: Good(env) ==>
               Value(env, AgainstN(Not(Symbol(s)), Ne)) == Truth(Value(env, Not(Symbol(s))) != 0))
            <==> s.Type().Boolean?
  {
    if s.Type().Boolean? {
      forall env: Env | Good(env)
        ensures Value(env, AgainstN(Not(Symbol(s)), Ne)) == Truth(Value(env, Not(Symbol(s))) != 0)
      {
        NegationAgainstN(env, Symbol(s));
      }
    } else {
      var env := Env(x => OnlyA(s, 1, x), x => "", x => NotANumber);
      assert Good(env);
      NegationAgainstN(env, Symbol(s));
    }
  }

  lemma {:induction false} AgainstNWellFormed(e: Expr, rel: Rel)
    requires WellFormed(e) && (rel.Eq? || rel.Ne?)
    ensures WellFormed(AgainstN(e, rel))
  {
    match e
    case Not(a) => AgainstNWellFormed(a, if rel.Eq? then Ne else Eq);
    case Bin(_, l, r) =>
      AgainstNWellFormed(l, Eq);
      AgainstNWellFormed(r, Eq);
    case _ =>
  }

  /** One of the two conditions, made ready for the comparison. */
  method Prepare(e: Option<Expr>) returns (r: Expr)
    requires e.Some? ==> WellFormed(e.value)
    ensures forall env: Env :: Good(env) ==> Value(env, r) == Value(env, NotN(e))
  {
    hide Settled;
    var t := NotN(e);
    if e.Some? {
      AgainstNWellFormed(e.value, Ne);
    }
    forall env: Env | Good(env) ensures Value(env, Transform(t)) == Value(env, t) && WellFormed(Transform(t)) {
      TransformKeepsValue(env, t);
    }
    SomeGood();
    var o := EliminateDups(Some(Transform(t)));
    r := o.value;
    forall env: Env | Good(env) ensures Value(env, r) == Value(env, t) {
      assert ValueOf(env, o) == ValueOf(env, Some(Transform(t)));
    }
  }

  lemma SomeGood()
    ensures exists env: Env :: Good(env)
  {
    var env := Env(x => OnlyA(Yes, 2, x), x => "", x => NotANumber);
    assert Good(env);
  }

  /** Whether an item goes below the symbol: if so, wherever the item's condition is above n, so is
      the symbol's, as far as the two conditions can be tested at all. */
  method IsSuperset(dep: Option<Expr>, base: Option<Expr>) returns (yes: bool)
    requires (dep.Some? ==> WellFormed(dep.value)) && (base.Some? ==> WellFormed(base.value))
    ensures yes ==> forall env: Env :: Good(env) ==> Value(env, NotN(dep)) <= Value(env, NotN(base))
    ensures yes && (dep.Some? ==> Testable(dep.value)) && (base.Some? ==> Testable(base.value)) ==>
      forall env: Env :: Good(env) && ValueOf(env, base) == 0 ==> ValueOf(env, dep) == 0
  {
    hide Value, AgainstN, EliminateEq;
    var b := Prepare(base);
    var d := Prepare(dep);
    var rest := EliminateEq(d, b);
    yes := rest.1 == Symbol(Yes);
    if yes {
      forall env: Env | Good(env) ensures Value(env, NotN(dep)) <= Value(env, NotN(base)) {
        SupersetTest(env, d, b);
      }
      if (dep.Some? ==> Testable(dep.value)) && (base.Some? ==> Testable(base.value)) {
        forall env: Env | Good(env) && ValueOf(env, base) == 0 ensures ValueOf(env, dep) == 0 {
          NotNIsTest(env, dep);
          NotNIsTest(env, base);
        }
      }
    }
  }

  lemma NotNIsTest(env: Env, e: Option<Expr>)
    requires Good(env) && (e.Some? ==> Testable(e.value))
    ensures Value(env, NotN(e)) == Truth(ValueOf(env, e) != 0)
  {
    if e.Some? {
      AgainstNIsTest(env, e.value, Ne);
    }
  }
}
