/**
 Duplicate elimination: pairs of operands of one level are joined, in place, by a walk that
 holds two pointers into the same tree. A pointer is a path from the top of the level.
 */
module KconfigDups {
  import opened Common
  import opened KconfigExpr
  import opened KconfigSimplify

  // ---------------------------------------------------------------- joining two operands

  predicate IsTest(e: Expr) {
    e.Comp? && (e.rel.Eq? || e.rel.Ne?)
  }

  /** The symbol an operand talks about, when it is of a kind that can be joined. The second
      operand may be negated only when it is a plain symbol. */
  function Subject(e: Expr, first: bool): Option<Sym> {
    if IsTest(e) then Some(e.lhs)
    else if e.Symbol? then Some(e.sym)
    else if e.Not? && e.arg.Symbol? then Some(e.arg.sym)
    else if e.Not? && first && IsTest(e.arg) then Some(e.arg.lhs)
    else None
  }

  /** One operand is a `rel`-test against `c`, the other against `d`. */
  predicate TestsOf(e1: Expr, e2: Expr, rel: Rel, c: Sym, d: Sym) {
    && e1.Comp? && e1.rel == rel && e2.Comp? && e2.rel == rel
    && ((e1.rhs == c && e2.rhs == d) || (e1.rhs == d && e2.rhs == c))
  }

  /** One operand is a plain symbol, the other a `rel`-test against `c`. */
  predicate SymbolAndTest(e1: Expr, e2: Expr, rel: Rel, c: Sym) {
    || (e1.Symbol? && e2.Comp? && e2.rel == rel && e2.rhs == c)
    || (e2.Symbol? && e1.Comp? && e1.rel == rel && e1.rhs == c)
  }

  predicate SymbolAndNegation(e1: Expr, e2: Expr) {
    || (e1.Not? && e1.arg.Symbol? && e2.Symbol?)
    || (e2.Not? && e2.arg.Symbol? && e1.Symbol?)
  }

  function Join(op: Op, e1: Expr, e2: Expr): Option<Expr> {
    if ExprEq(e1, e2) then Some(e1)
    else
      var s1, s2 := Subject(e1, true), Subject(e2, false);
      if s1.None? || s1 != s2 || !s1.value.IsBoolOrTri() then None
      else if op.Or? then JoinOr(e1, e2, s1.value)
      else JoinAnd(e1, e2, s1.value)
  }

  /** The rules of expr_join_or. */
  function JoinOr(e1: Expr, e2: Expr, s: Sym): Option<Expr> {
    if s.Type().Tristate? && TestsOf(e1, e2, Eq, Yes, Mod) then Some(Comp(Ne, s, No))
    else if s.Type().Tristate? && TestsOf(e1, e2, Eq, Yes, No) then Some(Comp(Ne, s, Mod))
    else if s.Type().Tristate? && TestsOf(e1, e2, Eq, Mod, No) then Some(Comp(Ne, s, Yes))
    else if s.Type().Boolean? && SymbolAndNegation(e1, e2) then Some(Symbol(Yes))
    else None
  }

  /** The rules of expr_join_and. */
  function JoinAnd(e1: Expr, e2: Expr, s: Sym): Option<Expr> {
    if SymbolAndTest(e1, e2, Eq, Yes) then Some(Comp(Eq, s, Yes))
    else if SymbolAndTest(e1, e2, Ne, No) then Some(Symbol(s))
    else if SymbolAndTest(e1, e2, Ne, Mod) then Some(Comp(Eq, s, Yes))
    else if !s.Type().Tristate? then None
    else if e1.Comp? && e1.rel.Eq? && e2.Comp? && e2.rel.Ne? && e2.rhs.IsConst() && e1.rhs.IsConst() then
      Some(if e1.rhs != e2.rhs then Comp(Eq, s, e1.rhs) else Symbol(No))
    else if e1.Comp? && e1.rel.Ne? && e2.Comp? && e2.rel.Eq? && e1.rhs.IsConst() && e2.rhs.IsConst() then
      Some(if e2.rhs != e1.rhs then Comp(Eq, s, e2.rhs) else Symbol(No))
    else if TestsOf(e1, e2, Ne, Yes, No) then Some(Comp(Eq, s, Mod))
    else if TestsOf(e1, e2, Ne, Yes, Mod) then Some(Comp(Eq, s, No))
    else if TestsOf(e1, e2, Ne, Mod, No) then Some(Comp(Eq, s, Yes))
    else None
  }

  lemma TestValue(env: Env, e: Expr, s: Sym)
    requires Good(env) && s.IsBoolOrTri()
    requires IsTest(e) && e.lhs == s && e.rhs.IsTriConst()
    ensures Value(env, e) == Truth((env.tri(s) == env.tri(e.rhs)) == e.rel.Eq?)
  {
    TestAgainstConstant(env, s, e.rhs);
  }

  lemma JoinOrKeepsValue(env: Env, e1: Expr, e2: Expr, s: Sym)
    requires Good(env) && s.IsBoolOrTri()
    requires Subject(e1, true) == Some(s) == Subject(e2, false)
    requires JoinOr(e1, e2, s).Some?
    ensures Value(env, JoinOr(e1, e2, s).value) == Combine(Or, Value(env, e1), Value(env, e2))
  {
    if JoinOr(e1, e2, s).value.Comp? {
      TestValue(env, JoinOr(e1, e2, s).value, s);
      TestValue(env, e1, s);
      TestValue(env, e2, s);
    }
  }

  lemma JoinAndKeepsValue(env: Env, e1: Expr, e2: Expr, s: Sym)
    requires Good(env) && s.IsBoolOrTri() && WellFormed(e1) && WellFormed(e2)
    requires Subject(e1, true) == Some(s) == Subject(e2, false)
    requires JoinAnd(e1, e2, s).Some?
    ensures Value(env, JoinAnd(e1, e2, s).value) == Combine(And, Value(env, e1), Value(env, e2))
  {
    if JoinAnd(e1, e2, s).value.Comp? {
      TestValue(env, JoinAnd(e1, e2, s).value, s);
    }
    if e1.Comp? { TestValue(env, e1, s); }
    if e2.Comp? { TestValue(env, e2, s); }
    hide Compare;
  }

  /** A join has the value of the two operands together. */
  lemma JoinKeepsValue(env: Env, op: Op, e1: Expr, e2: Expr)
    requires Good(env) && WellFormed(e1) && WellFormed(e2)
    requires Join(op, e1, e2).Some?
    ensures Value(env, Join(op, e1, e2).value) == Combine(op, Value(env, e1), Value(env, e2))
  {
    if ExprEq(e1, e2) {
      ExprEqSound(env, e1, e2);
    } else if op.Or? {
      JoinOrKeepsValue(env, e1, e2, Subject(e1, true).value);
    } else {
      JoinAndKeepsValue(env, e1, e2, Subject(e1, true).value);
    }
  }

  /** A join is well-formed, is not an expression of the level it happens at, and is no larger
      than what it replaces, even with the unit that takes the first operand's place. */
  lemma JoinShape(op: Op, e1: Expr, e2: Expr)
    requires !e1.IsBin(op) && !e2.IsBin(op)
    requires Join(op, e1, e2).Some?
    ensures var j := Join(op, e1, e2).value;
            && (WellFormed(e1) && WellFormed(e2) ==> WellFormed(j))
            && !j.IsBin(op)
            && 1 + Size(j) <= Size(e1) + Size(e2)
  {
  }

  /** The tristate a constant stands for when it is compared with a tristate symbol: that of y, m
      and n, the number it is read as, or the one its text names; most constants stand for none.
      `str` and `num` are the texts and numbers of all constants. */
  function Denoted(str: Sym -> string, num: Sym -> Number, c: Sym): Option<Tri>
    requires c.IsConst()
  {
    match c
    case Yes => Some(2)
    case Mod => Some(1)
    case No => Some(0)
    case Quoted(_) =>
      match num(c)
      case Signed(n) => if 0 <= n <= 2 then Some(n) else None
      case Unsigned(n) => if n <= 2 then Some(n) else None
      case _ =>
        if str(c) == "y" then Some(2)
        else if str(c) == "m" then Some(1)
        else if str(c) == "n" then Some(0)
        else None
  }

  /** A tristate symbol equals a constant exactly when it has the value the constant stands for. */
  lemma EqualsDenoted(env: Env, a: Sym, c: Sym)
    requires a.Type().Tristate? && c.IsConst()
    ensures Value(env, Comp(Eq, a, c)) == Truth(Denoted(env.str, env.num, c) == Some(env.tri(a)))
    ensures Value(env, Comp(Ne, a, c)) == Truth(Denoted(env.str, env.num, c) != Some(env.tri(a)))
  {
    StrCmpZero(Text(env, a), Text(env, c));
    assert TriName(0)[0] == 'n' && TriName(1)[0] == 'm' && TriName(2)[0] == 'y';
  }

  /** The join of `a = b` and `a != c` for two different constants, in either order, is worth the
      two together under every assignment exactly when no tristate value is denoted by both. For
      y, m and n that is so; it is not for `"1"` and `"0x1"`, nor for y and `"2"`. */
  lemma JoinOfDifferentConstants(str: Sym -> string, num: Sym -> Number, a: Sym, b: Sym, c: Sym)
    requires a.Type().Tristate? && b.IsConst() && c.IsConst() && b != c
    ensures var e1, e2 := Comp(Eq, a, b), Comp(Ne, a, c);
            && Join(And, e1, e2) == Join(And, e2, e1) == Some(e1)
            && ((forall env: Env :: Good(env) && env.str == str && env.num == num ==>
                   Value(env, e1) == Combine(And, Value(env, e1), Value(env, e2)))
                <==> Denoted(str, num, b).None? || Denoted(str, num, b) != Denoted(str, num, c))
    ensures b.IsTriConst() && c.IsTriConst() ==> Denoted(str, num, b) != Denoted(str, num, c)
  {
    var e1, e2 := Comp(Eq, a, b), Comp(Ne, a, c);
    var d := Denoted(str, num, b);
    if d.Some? && d == Denoted(str, num, c) {
      var env := Env(x => OnlyA(a, d.value, x), str, num);
      assert Good(env);
      EqualsDenoted(env, a, b);
      EqualsDenoted(env, a, c);
    } else {
      forall env: Env | Good(env) && env.str == str && env.num == num
        ensures Value(env, e1) == Combine(And, Value(env, e1), Value(env, e2))
      {
        EqualsDenoted(env, a, b);
        EqualsDenoted(env, a, c);
      }
    }
  }

  /** An assignment that gives one symbol a value and all others n. */
  function OnlyA(a: Sym, v: Tri, s: Sym): Tri {
    if s == a then v else if s == Yes then 2 else if s == Mod then 1 else 0
  }

  /** Inputs on which the join changes the value: two constants read as the number 1, and y beside
      a constant read as the number 2. */
  lemma JoinAndNeedsTriConstants(env: Env, name: string)
    requires Good(env)
    requires env.num(Quoted("1")) == Signed(1) && env.num(Quoted("0x1")) == Signed(1)
    requires env.num(Quoted("2")) == Signed(2)
    ensures var a := Config(name, Tristate);
            var e1, e2 := Comp(Eq, a, Quoted("1")), Comp(Ne, a, Quoted("0x1"));
            !WellFormed(e1) && Join(And, e1, e2).Some? && (env.tri(a) == 1 ==>
              Value(env, Join(And, e1, e2).value) != Combine(And, Value(env, e1), Value(env, e2)))
    ensures var a := Config(name, Tristate);
            var e1, e2 := Comp(Eq, a, Yes), Comp(Ne, a, Quoted("2"));
            !WellFormed(e2) && Join(And, e1, e2).Some? && (env.tri(a) == 2 ==>
              Value(env, Join(And, e1, e2).value) != Combine(And, Value(env, e1), Value(env, e2)))
  {
    assert "1"[0] != "0x1"[0];
    var a := Config(name, Tristate);
    EqualsDenoted(env, a, Quoted("1"));
    EqualsDenoted(env, a, Quoted("0x1"));
    EqualsDenoted(env, a, Yes);
    EqualsDenoted(env, a, Quoted("2"));
  }

  // ---------------------------------------------------------------- pointers into a tree

  /** The way down from the top of a level: false is left, true is right. */
  type Path = seq<bool>

  function Child(e: Expr, right: bool): Expr
    requires e.Bin?
  {
    if right then e.right else e.left
  }

  /** `p` leads through expressions of the level's kind only. */
  predicate OnLevel(op: Op, e: Expr, p: Path) {
    p == [] || (e.IsBin(op) && OnLevel(op, Child(e, p[0]), p[1..]))
  }

  function At(op: Op, e: Expr, p: Path): Expr
    requires OnLevel(op, e, p)
  {
    if p == [] then e else At(op, Child(e, p[0]), p[1..])
  }

  /** The tree after writing `x` through the pointer `p`. */
  function Put(op: Op, e: Expr, p: Path, x: Expr): Expr
    requires OnLevel(op, e, p)
  {
    if p == [] then x
    else if p[0] then Bin(op, e.left, Put(op, e.right, p[1..], x))
    else Bin(op, Put(op, e.left, p[1..], x), e.right)
  }

  /** The level's own nodes, without the operands hanging off them. */
  datatype Skeleton = Operand | Fork(left: Skeleton, right: Skeleton)

  function SkeletonOf(op: Op, e: Expr): Skeleton {
    if e.IsBin(op) then Fork(SkeletonOf(op, e.left), SkeletonOf(op, e.right)) else Operand
  }

  function Forks(s: Skeleton): nat {
    match s case Operand => 0 case Fork(l, r) => 1 + Forks(l) + Forks(r)
  }

  predicate IsOperand(op: Op, e: Expr, p: Path) {
    OnLevel(op, e, p) && !At(op, e, p).IsBin(op)
  }

  /** Trees with the same skeleton have the same pointers, leading to subtrees with the same
      skeleton. */
  lemma {:induction false} SameSkeleton(op: Op, e: Expr, f: Expr, p: Path)
    requires SkeletonOf(op, e) == SkeletonOf(op, f)
    requires OnLevel(op, e, p)
    ensures OnLevel(op, f, p)
    ensures SkeletonOf(op, At(op, e, p)) == SkeletonOf(op, At(op, f, p))
  {
    if p != [] {
      SameSkeleton(op, Child(e, p[0]), Child(f, p[0]), p[1..]);
    }
  }

  lemma {:induction false} ExtendPath(op: Op, e: Expr, p: Path, right: bool)
    requires OnLevel(op, e, p) && At(op, e, p).IsBin(op)
    ensures OnLevel(op, e, p + [right])
    ensures At(op, e, p + [right]) == Child(At(op, e, p), right)
  {
    if p == [] {
      assert ([] + [right])[1..] == [];
    } else {
      ExtendPath(op, Child(e, p[0]), p[1..], right);
      assert (p + [right])[1..] == p[1..] + [right];
    }
  }

  /** Replacing one operand: what changes and what does not. */
  lemma {:induction false} PutOperand(op: Op, e: Expr, p: Path, x: Expr)
    requires IsOperand(op, e, p) && !x.IsBin(op)
    ensures SkeletonOf(op, Put(op, e, p, x)) == SkeletonOf(op, e)
    ensures OnLevel(op, Put(op, e, p, x), p) && At(op, Put(op, e, p, x), p) == x
    ensures Size(Put(op, e, p, x)) == Size(e) - Size(At(op, e, p)) + Size(x)
    ensures WellFormed(e) ==> WellFormed(At(op, e, p))
    ensures WellFormed(e) && WellFormed(x) ==> WellFormed(Put(op, e, p, x))
  {
    if p != [] {
      PutOperand(op, Child(e, p[0]), p[1..], x);
    }
  }

  lemma {:induction false} PutElsewhere(op: Op, e: Expr, p: Path, q: Path, x: Expr)
    requires IsOperand(op, e, p) && IsOperand(op, e, q) && p != q && !x.IsBin(op)
    ensures OnLevel(op, Put(op, e, p, x), q)
    ensures At(op, Put(op, e, p, x), q) == At(op, e, q)
  {
    if p == [] || q == [] {
    } else if p[0] == q[0] {
      assert p == [p[0]] + p[1..] && q == [q[0]] + q[1..];
      PutElsewhere(op, Child(e, p[0]), p[1..], q[1..], x);
    }
  }

  /** Writing back what is already there. */
  lemma {:induction false} PutSame(op: Op, e: Expr, p: Path)
    requires OnLevel(op, e, p)
    ensures Put(op, e, p, At(op, e, p)) == e
  {
    if p != [] {
      PutSame(op, Child(e, p[0]), p[1..]);
    }
  }

  /** The value of a level is the value of one operand combined with that of the others. */
  lemma {:induction false} ValueAround(env: Env, op: Op, e: Expr, p: Path, x: Expr) returns (rest: Tri)
    requires Good(env) && IsOperand(op, e, p)
    ensures Value(env, e) == Combine(op, Value(env, At(op, e, p)), rest)
    ensures Value(env, Put(op, e, p, x)) == Combine(op, Value(env, x), rest)
  {
    if p == [] {
      rest := env.tri(Unit(op));
    } else {
      var r := ValueAround(env, op, Child(e, p[0]), p[1..], x);
      var other := Value(env, Child(e, !p[0]));
      rest := Combine(op, r, other);
      CombineAround(op, Value(env, At(op, e, p)), r, other);
      CombineAround(op, Value(env, x), r, other);
      hide Combine;
    }
  }

  lemma CombineAround(op: Op, a: Tri, r: Tri, b: Tri)
    ensures Combine(op, Combine(op, a, r), b) == Combine(op, a, Combine(op, r, b))
    ensures Combine(op, b, Combine(op, a, r)) == Combine(op, a, Combine(op, r, b))
  {
  }

  /** Replacing two operands by two others that are worth the same together. */
  lemma {:induction false} PutTwoKeepsValue(env: Env, op: Op, e: Expr, p: Path, q: Path, x: Expr, y: Expr)
    requires Good(env)
    requires IsOperand(op, e, p) && IsOperand(op, e, q) && p != q && !x.IsBin(op) && !y.IsBin(op)
    requires Combine(op, Value(env, x), Value(env, y))
             == Combine(op, Value(env, At(op, e, p)), Value(env, At(op, e, q)))
    requires OnLevel(op, Put(op, e, p, x), q)
    ensures Value(env, Put(op, Put(op, e, p, x), q, y)) == Value(env, e)
  {
    if p == [] || q == [] {
    } else if p[0] == q[0] {
      assert p == [p[0]] + p[1..] && q == [q[0]] + q[1..];
      PutTwoKeepsValue(env, op, Child(e, p[0]), p[1..], q[1..], x, y);
    } else {
      var r := ValueAround(env, op, Child(e, p[0]), p[1..], x);
      var s := ValueAround(env, op, Child(e, q[0]), q[1..], y);
      CombineAcross(op, Value(env, At(op, e, p)), Value(env, At(op, e, q)), Value(env, x), Value(env, y), r, s);
    }
  }

  lemma CombineAcross(op: Op, a: Tri, b: Tri, x: Tri, y: Tri, r: Tri, s: Tri)
    requires Combine(op, x, y) == Combine(op, a, b)
    ensures Combine(op, Combine(op, x, r), Combine(op, y, s))
            == Combine(op, Combine(op, a, r), Combine(op, b, s))
    ensures Combine(op, Combine(op, y, s), Combine(op, x, r))
            == Combine(op, Combine(op, b, s), Combine(op, a, r))
  {
  }

  lemma {:induction false} ReducibleInside(op: Op, e: Expr, p: Path)
    requires OnLevel(op, e, p)
    requires Reducible(At(op, e, p)) || (p != [] && IsYn(At(op, e, p)))
    ensures Reducible(e)
  {
    if p != [] {
      if p[1..] != [] || Reducible(At(op, e, p)) {
        ReducibleInside(op, Child(e, p[0]), p[1..]);
      }
    }
  }

  // ---------------------------------------------------------------- the walk

  lemma {:induction false} OperandSmaller(op: Op, e: Expr, p: Path)
    requires OnLevel(op, e, p)
    ensures p != [] ==> Size(At(op, e, p)) < Size(e)
  {
    if p != [] {
      OperandSmaller(op, Child(e, p[0]), p[1..]);
    }
  }

  /** expr_eliminate_dups1(op, ep1, ep2): the tree afterwards and the number of joins made.
      The two pointers lead into the same tree, so what is written through one of them is seen
      by the walk of the other. */
  function Walk(op: Op, e: Expr, p1: Path, p2: Path): (r: (Expr, nat))
    requires OnLevel(op, e, p1) && OnLevel(op, e, p2)
    ensures SkeletonOf(op, r.0) == SkeletonOf(op, e)
    ensures Size(r.0) <= Size(e)
    decreases Size(e), Forks(SkeletonOf(op, At(op, e, p1))), Forks(SkeletonOf(op, At(op, e, p2)))
  {
    if At(op, e, p1).IsBin(op) then
      ExtendPath(op, e, p1, false);
      ExtendPath(op, e, p1, true);
      var (f, m) := Walk(op, e, p1 + [false], p2);
      SameSkeleton(op, e, f, p1 + [true]);
      SameSkeleton(op, e, f, p2);
      var (g, n) := Walk(op, f, p1 + [true], p2);
      (g, m + n)
    else if At(op, e, p2).IsBin(op) then
      ExtendPath(op, e, p2, false);
      ExtendPath(op, e, p2, true);
      var (f, m) := Walk(op, e, p1, p2 + [false]);
      SameSkeleton(op, e, f, p1);
      SameSkeleton(op, e, f, p2 + [true]);
      var (g, n) := Walk(op, f, p1, p2 + [true]);
      (g, m + n)
    else if p1 == p2 then (e, 0)
    else
      OperandSmaller(op, e, p1);
      var e1 := At(op, e, p1);
      var (x, m) := if e1.Bin? then Walk(e1.op, e1, [], []) else (e1, 0);
      PutOperand(op, e, p1, x);
      PutElsewhere(op, e, p1, p2, x);
      var f := Put(op, e, p1, x);
      var j := Join(op, x, At(op, e, p2));
      if j.None? then (f, m)
      else (JoinedAt(op, f, p1, p2, j.value), m + 1)
  }

  /** The unit of the level takes the first operand's place, the join takes the second's. */
  function JoinedAt(op: Op, e: Expr, p1: Path, p2: Path, j: Expr): (r: Expr)
    requires IsOperand(op, e, p1) && IsOperand(op, e, p2) && p1 != p2
    requires Join(op, At(op, e, p1), At(op, e, p2)) == Some(j)
    ensures SkeletonOf(op, r) == SkeletonOf(op, e)
    ensures Size(r) <= Size(e)
    ensures OnLevel(op, Put(op, e, p1, Symbol(Unit(op))), p2)
    ensures Reducible(r)
  {
    var unit := Symbol(Unit(op));
    PutOperand(op, e, p1, unit);
    PutElsewhere(op, e, p1, p2, unit);
    JoinShape(op, At(op, e, p1), At(op, e, p2));
    var f := Put(op, e, p1, unit);
    PutOperand(op, f, p2, j);
    PutElsewhere(op, f, p2, p1, j);
    var r := Put(op, f, p2, j);
    assert p1 != [];
    ReducibleInside(op, r, p1);
    r
  }

  lemma JoinedAtCorrect(env: Env, op: Op, e: Expr, p1: Path, p2: Path, j: Expr)
    requires Good(env) && WellFormed(e)
    requires IsOperand(op, e, p1) && IsOperand(op, e, p2) && p1 != p2
    requires Join(op, At(op, e, p1), At(op, e, p2)) == Some(j)
    ensures Value(env, JoinedAt(op, e, p1, p2, j)) == Value(env, e)
    ensures WellFormed(JoinedAt(op, e, p1, p2, j))
  {
    var unit := Symbol(Unit(op));
    PutOperand(op, e, p1, unit);
    PutOperand(op, e, p2, j);
    PutElsewhere(op, e, p1, p2, unit);
    PutOperand(op, Put(op, e, p1, unit), p2, j);
    JoinShape(op, At(op, e, p1), At(op, e, p2));
    JoinKeepsValue(env, op, At(op, e, p1), At(op, e, p2));
    PutTwoKeepsValue(env, op, e, p1, p2, unit, j);
  }

  /** The walk keeps the value of the tree under every assignment. */
  lemma {:induction false} WalkKeepsValue(env: Env, op: Op, e: Expr, p1: Path, p2: Path)
    requires Good(env) && WellFormed(e)
    requires OnLevel(op, e, p1) && OnLevel(op, e, p2)
    ensures Value(env, Walk(op, e, p1, p2).0) == Value(env, e)
    ensures WellFormed(Walk(op, e, p1, p2).0)
    decreases Size(e), Forks(SkeletonOf(op, At(op, e, p1))), Forks(SkeletonOf(op, At(op, e, p2)))
  {
    hide Value, WellFormed, Join, Combine;
    if At(op, e, p1).IsBin(op) {
      ExtendPath(op, e, p1, false);
      ExtendPath(op, e, p1, true);
      WalkKeepsValue(env, op, e, p1 + [false], p2);
      var f := Walk(op, e, p1 + [false], p2).0;
      SameSkeleton(op, e, f, p1 + [true]);
      SameSkeleton(op, e, f, p2);
      WalkKeepsValue(env, op, f, p1 + [true], p2);
    } else if At(op, e, p2).IsBin(op) {
      ExtendPath(op, e, p2, false);
      ExtendPath(op, e, p2, true);
      WalkKeepsValue(env, op, e, p1, p2 + [false]);
      var f := Walk(op, e, p1, p2 + [false]).0;
      SameSkeleton(op, e, f, p1);
      SameSkeleton(op, e, f, p2 + [true]);
      WalkKeepsValue(env, op, f, p1, p2 + [true]);
    } else if p1 != p2 {
      OperandSmaller(op, e, p1);
      var e1 := At(op, e, p1);
      PutOperand(op, e, p1, e1);
      if e1.Bin? {
        WalkKeepsValue(env, e1.op, e1, [], []);
      }
      var x := if e1.Bin? then Walk(e1.op, e1, [], []).0 else e1;
      PutOperand(op, e, p1, x);
      PutElsewhere(op, e, p1, p2, x);
      var rest := ValueAround(env, op, e, p1, x);
      var f := Put(op, e, p1, x);
      var j := Join(op, x, At(op, e, p2));
      if j.Some? {
        JoinedAtCorrect(env, op, f, p1, p2, j.value);
      }
    }
  }

  lemma OperandProgress(op: Op, e: Expr, p: Path, x: Expr, n: nat)
    requires IsOperand(op, e, p) && !x.IsBin(op)
    requires if n > 0 then Reducible(x) else x == At(op, e, p)
    ensures if n > 0 then Reducible(Put(op, e, p, x)) else Put(op, e, p, x) == e
  {
    hide Reducible, Put, At;
    PutSame(op, e, p);
    PutOperand(op, e, p, x);
    if n > 0 {
      ReducibleInside(op, Put(op, e, p, x), p);
    }
  }

  /** A walk that joined something leaves a constant to eliminate, so that the tree shrinks
      before the next walk; a walk that joined nothing changed nothing. */
  lemma {:induction false} WalkProgress(op: Op, e: Expr, p1: Path, p2: Path)
    requires OnLevel(op, e, p1) && OnLevel(op, e, p2)
    ensures var (f, n) := Walk(op, e, p1, p2); if n > 0 then Reducible(f) else f == e
    decreases Size(e), Forks(SkeletonOf(op, At(op, e, p1))), Forks(SkeletonOf(op, At(op, e, p2)))
  {
    hide Join, Reducible, Put, JoinedAt;
    if At(op, e, p1).IsBin(op) {
      ExtendPath(op, e, p1, false);
      ExtendPath(op, e, p1, true);
      WalkProgress(op, e, p1 + [false], p2);
      var f := Walk(op, e, p1 + [false], p2).0;
      SameSkeleton(op, e, f, p1 + [true]);
      SameSkeleton(op, e, f, p2);
      WalkProgress(op, f, p1 + [true], p2);
    } else if At(op, e, p2).IsBin(op) {
      ExtendPath(op, e, p2, false);
      ExtendPath(op, e, p2, true);
      WalkProgress(op, e, p1, p2 + [false]);
      var f := Walk(op, e, p1, p2 + [false]).0;
      SameSkeleton(op, e, f, p1);
      SameSkeleton(op, e, f, p2 + [true]);
      WalkProgress(op, f, p1, p2 + [true]);
    } else if p1 != p2 {
      OperandSmaller(op, e, p1);
      var e1 := At(op, e, p1);
      if e1.Bin? {
        WalkProgress(e1.op, e1, [], []);
      }
      var (x, m) := if e1.Bin? then Walk(e1.op, e1, [], []) else (e1, 0);
      OperandProgress(op, e, p1, x, m);
    }
  }

  // ---------------------------------------------------------------- what a fixed point is

  /** No two different operands of the level can be joined. */
  ghost predicate NoJoin(op: Op, e: Expr) {
    forall p: Path, q: Path :: IsOperand(op, e, p) && IsOperand(op, e, q) && p != q
      ==> Join(op, At(op, e, p), At(op, e, q)).None?
  }

  /** Nothing can be joined at this level or at any level below it. */
  ghost predicate Settled(e: Expr)
    decreases e, 1
  {
    e.Bin? ==> NoJoin(e.op, e) && OperandsSettled(e.op, e.left) && OperandsSettled(e.op, e.right)
  }

  ghost predicate OperandsSettled(op: Op, e: Expr)
    decreases e, if e.IsBin(op) then 0 else 2
  {
    if e.IsBin(op) then OperandsSettled(op, e.left) && OperandsSettled(op, e.right)
    else Settled(e)
  }

  ghost predicate PairSettled(op: Op, e: Expr, p: Path, q: Path)
    requires IsOperand(op, e, p) && IsOperand(op, e, q)
  {
    Join(op, At(op, e, p), At(op, e, q)).None? && Settled(At(op, e, p))
  }

  ghost predicate PairsSettled(op: Op, e: Expr, p1: Path, p2: Path) {
    forall q1: Path, q2: Path ::
      p1 <= q1 && p2 <= q2 && q1 != q2 && IsOperand(op, e, q1) && IsOperand(op, e, q2)
      ==> PairSettled(op, e, q1, q2)
  }

  lemma {:induction false} WalkFixpoint(op: Op, e: Expr, p1: Path, p2: Path)
    requires OnLevel(op, e, p1) && OnLevel(op, e, p2)
    requires Walk(op, e, p1, p2).1 == 0
    ensures PairsSettled(op, e, p1, p2)
    decreases Size(e), Forks(SkeletonOf(op, At(op, e, p1))), Forks(SkeletonOf(op, At(op, e, p2)))
  {
    hide Join, Reducible;
    WalkProgress(op, e, p1, p2);
    if At(op, e, p1).IsBin(op) {
      ExtendPath(op, e, p1, false);
      ExtendPath(op, e, p1, true);
      WalkProgress(op, e, p1 + [false], p2);
      WalkFixpoint(op, e, p1 + [false], p2);
      WalkFixpoint(op, e, p1 + [true], p2);
      forall q1: Path, q2: Path | p1 <= q1 && p2 <= q2 && q1 != q2 && IsOperand(op, e, q1) && IsOperand(op, e, q2)
        ensures PairSettled(op, e, q1, q2)
      {
        assert q1 != p1;
        assert if q1[|p1|] then p1 + [true] <= q1 else p1 + [false] <= q1;
      }
    } else if At(op, e, p2).IsBin(op) {
      ExtendPath(op, e, p2, false);
      ExtendPath(op, e, p2, true);
      WalkProgress(op, e, p1, p2 + [false]);
      WalkFixpoint(op, e, p1, p2 + [false]);
      WalkFixpoint(op, e, p1, p2 + [true]);
      forall q1: Path, q2: Path | p1 <= q1 && p2 <= q2 && q1 != q2 && IsOperand(op, e, q1) && IsOperand(op, e, q2)
        ensures PairSettled(op, e, q1, q2)
      {
        assert q2 != p2;
        assert if q2[|p2|] then p2 + [true] <= q2 else p2 + [false] <= q2;
      }
    } else {
      forall q1: Path, q2: Path | p1 <= q1 && p2 <= q2 && q1 != q2 && IsOperand(op, e, q1) && IsOperand(op, e, q2)
        ensures PairSettled(op, e, q1, q2)
      {
        OperandIsEnd(op, e, p1, q1);
        OperandIsEnd(op, e, p2, q2);
        OperandSmaller(op, e, p1);
        var e1 := At(op, e, p1);
        if e1.Bin? {
          WalkSettles(e1);
          WalkProgress(e1.op, e1, [], []);
        }
      }
    }
  }

  lemma {:induction false} OperandIsEnd(op: Op, e: Expr, p: Path, q: Path)
    requires IsOperand(op, e, p) && OnLevel(op, e, q) && p <= q
    ensures p == q
  {
    if p == [] {
    } else {
      OperandIsEnd(op, Child(e, p[0]), p[1..], q[1..]);
      assert p == [p[0]] + p[1..] && q == [q[0]] + q[1..];
    }
  }

  /** Below `p`, and with another operand somewhere else, every operand is settled. */
  lemma {:induction false} CollectSettled(op: Op, e: Expr, p: Path, other: Path)
    requires OnLevel(op, e, p) && PairsSettled(op, e, [], [])
    requires IsOperand(op, e, other) && !(p <= other)
    ensures OperandsSettled(op, At(op, e, p))
    decreases Size(At(op, e, p))
  {
    if At(op, e, p).IsBin(op) {
      ExtendPath(op, e, p, false);
      ExtendPath(op, e, p, true);
      CollectSettled(op, e, p + [false], other);
      CollectSettled(op, e, p + [true], other);
    } else {
      assert PairSettled(op, e, p, other);
    }
  }

  lemma {:induction false} SomeOperand(op: Op, e: Expr, p: Path) returns (q: Path)
    requires OnLevel(op, e, p)
    ensures p <= q && IsOperand(op, e, q)
    decreases Size(At(op, e, p))
  {
    q := p;
    if At(op, e, p).IsBin(op) {
      ExtendPath(op, e, p, false);
      q := SomeOperand(op, e, p + [false]);
    }
  }

  lemma {:induction false} WalkSettles(e: Expr)
    requires e.Bin? && Walk(e.op, e, [], []).1 == 0
    ensures Settled(e)
    decreases Size(e), Forks(SkeletonOf(e.op, e)) + 1
  {
    WalkFixpoint(e.op, e, [], []);
    ExtendPath(e.op, e, [], false);
    ExtendPath(e.op, e, [], true);
    assert [] + [false] == [false] && [] + [true] == [true];
    var l := SomeOperand(e.op, e, [false]);
    var r := SomeOperand(e.op, e, [true]);
    CollectSettled(e.op, e, [false], r);
    CollectSettled(e.op, e, [true], l);
    forall p: Path, q: Path | IsOperand(e.op, e, p) && IsOperand(e.op, e, q) && p != q
      ensures Join(e.op, At(e.op, e, p), At(e.op, e, q)).None?
    {
      assert [] <= p && [] <= q;
      assert PairSettled(e.op, e, p, q);
    }
  }

  // ---------------------------------------------------------------- what is left

  /** `f` is part of e, below `&&` and `||` only. */
  predicate Within(f: Expr, e: Expr) {
    f == e || (e.Bin? && (Within(f, e.left) || Within(f, e.right)))
  }

  /** No two operands of a level are equal, and of no rule are both operands there. */
  ghost predicate NothingToJoin(op: Op, xs: seq<Expr>) {
    && (forall i, j :: 0 <= i < |xs| && 0 <= j < |xs| && i != j ==> !ExprEq(xs[i], xs[j]))
    && (forall s: Sym :: op.Or? && s.Type().Tristate? ==>
          && !(Comp(Eq, s, Yes) in xs && Comp(Eq, s, Mod) in xs)
          && !(Comp(Eq, s, Yes) in xs && Comp(Eq, s, No) in xs)
          && !(Comp(Eq, s, Mod) in xs && Comp(Eq, s, No) in xs))
    && (forall s: Sym :: op.Or? && s.Type().Boolean? ==> !(Symbol(s) in xs && Not(Symbol(s)) in xs))
    && (forall s: Sym :: op.And? && s.IsBoolOrTri() ==>
          && !(Symbol(s) in xs && Comp(Eq, s, Yes) in xs)
          && !(Symbol(s) in xs && Comp(Ne, s, No) in xs)
          && !(Symbol(s) in xs && Comp(Ne, s, Mod) in xs))
    && (forall s: Sym, b: Sym, c: Sym :: op.And? && s.Type().Tristate? && b.IsConst() && c.IsConst() ==>
          !(Comp(Eq, s, b) in xs && Comp(Ne, s, c) in xs))
    && (forall s: Sym :: op.And? && s.Type().Tristate? ==>
          && !(Comp(Ne, s, Yes) in xs && Comp(Ne, s, No) in xs)
          && !(Comp(Ne, s, Yes) in xs && Comp(Ne, s, Mod) in xs)
          && !(Comp(Ne, s, Mod) in xs && Comp(Ne, s, No) in xs))
  }

  lemma {:induction false} OnePath(op: Op, e: Expr, i: nat) returns (p: Path)
    requires i < |Operands(op, e)|
    ensures IsOperand(op, e, p) && At(op, e, p) == Operands(op, e)[i]
  {
    if e.IsBin(op) {
      var n := |Operands(op, e.left)|;
      p := OnePath(op, if i < n then e.left else e.right, if i < n then i else i - n);
      p := [i >= n] + p;
      assert p[1..] + [] == p[1..];
    } else {
      p := [];
    }
  }

  /** Different operands are reached by different pointers. */
  lemma {:induction false} TwoPaths(op: Op, e: Expr, i: nat, j: nat) returns (p: Path, q: Path)
    requires i < |Operands(op, e)| && j < |Operands(op, e)| && i != j
    ensures IsOperand(op, e, p) && At(op, e, p) == Operands(op, e)[i]
    ensures IsOperand(op, e, q) && At(op, e, q) == Operands(op, e)[j] && p != q
  {
    var n := |Operands(op, e.left)|;
    if i < n && j < n {
      p, q := TwoPaths(op, e.left, i, j);
    } else if i >= n && j >= n {
      p, q := TwoPaths(op, e.right, i - n, j - n);
    } else {
      p := OnePath(op, if i < n then e.left else e.right, if i < n then i else i - n);
      q := OnePath(op, if j < n then e.left else e.right, if j < n then j else j - n);
    }
    var p', q' := [i >= n] + p, [j >= n] + q;
    assert p'[1..] == p && q'[1..] == q;
    p, q := p', q';
  }

  lemma NoJoinChild(op: Op, e: Expr, right: bool)
    requires e.IsBin(op) && NoJoin(op, e)
    ensures NoJoin(op, Child(e, right))
  {
    hide Join;
    var f := Child(e, right);
    forall p: Path, q: Path | IsOperand(op, f, p) && IsOperand(op, f, q) && p != q
      ensures Join(op, At(op, f, p), At(op, f, q)).None?
    {
      var p', q' := [right] + p, [right] + q;
      assert p'[1..] == p && q'[1..] == q;
      assert IsOperand(op, e, p') && IsOperand(op, e, q');
    }
  }

  lemma {:induction false} SettledWithin(op: Op, e: Expr, f: Expr)
    requires e.IsBin(op) && NoJoin(op, e) && OperandsSettled(op, e) && Within(f, e) && f.Bin?
    ensures NoJoin(f.op, f)
    decreases e
  {
    hide NoJoin;
    if f != e {
      NoJoinChild(op, e, false);
      NoJoinChild(op, e, true);
      var g := if Within(f, e.left) then e.left else e.right;
      assert OperandsSettled(op, g);
      if g.IsBin(op) {
        SettledWithin(op, g, f);
      } else {
        assert Settled(g) && OperandsSettled(g.op, g);
        SettledWithin(g.op, g, f);
      }
    }
  }

  lemma PairNotJoined(op: Op, e: Expr, x: Expr, y: Expr)
    requires NoJoin(op, e) && x in Operands(op, e) && y in Operands(op, e) && x != y
    ensures Join(op, x, y).None?
  {
    hide Join;
    var xs := Operands(op, e);
    var i :| 0 <= i < |xs| && xs[i] == x;
    var j :| 0 <= j < |xs| && xs[j] == y;
    var p, q := TwoPaths(op, e, i, j);
  }

  lemma NothingLeft(op: Op, e: Expr)
    requires NoJoin(op, e)
    ensures NothingToJoin(op, Operands(op, e))
  {
    hide Operands, NoJoin;
    var xs := Operands(op, e);
    forall i, j | 0 <= i < |xs| && 0 <= j < |xs| && i != j ensures !ExprEq(xs[i], xs[j]) {
      NotEqual(op, e, i, j);
    }
    forall x, y | x in xs && y in xs && x != y ensures Join(op, x, y).None? {
      PairNotJoined(op, e, x, y);
    }
    if op.Or? {
      OrRules(xs);
    } else {
      AndRules(xs);
    }
  }

  lemma NotEqual(op: Op, e: Expr, i: nat, j: nat)
    requires NoJoin(op, e) && i < |Operands(op, e)| && j < |Operands(op, e)| && i != j
    ensures !ExprEq(Operands(op, e)[i], Operands(op, e)[j])
  {
    var p, q := TwoPaths(op, e, i, j);
  }

  lemma OrRules(xs: seq<Expr>)
    requires forall x, y :: x in xs && y in xs && x != y ==> Join(Or, x, y).None?
    ensures forall s: Sym :: s.Type().Tristate? ==>
      && !(Comp(Eq, s, Yes) in xs && Comp(Eq, s, Mod) in xs)
      && !(Comp(Eq, s, Yes) in xs && Comp(Eq, s, No) in xs)
      && !(Comp(Eq, s, Mod) in xs && Comp(Eq, s, No) in xs)
    ensures forall s: Sym :: s.Type().Boolean? ==> !(Symbol(s) in xs && Not(Symbol(s)) in xs)
  {
    hide ExprEq;
  }

  lemma AndRules(xs: seq<Expr>)
    requires forall x, y :: x in xs && y in xs && x != y ==> Join(And, x, y).None?
    ensures forall s: Sym :: s.IsBoolOrTri() ==>
      && !(Symbol(s) in xs && Comp(Eq, s, Yes) in xs)
      && !(Symbol(s) in xs && Comp(Ne, s, No) in xs)
      && !(Symbol(s) in xs && Comp(Ne, s, Mod) in xs)
    ensures forall s: Sym, b: Sym, c: Sym :: s.Type().Tristate? && b.IsConst() && c.IsConst() ==>
      !(Comp(Eq, s, b) in xs && Comp(Ne, s, c) in xs)
    ensures forall s: Sym :: s.Type().Tristate? ==>
      && !(Comp(Ne, s, Yes) in xs && Comp(Ne, s, No) in xs)
      && !(Comp(Ne, s, Yes) in xs && Comp(Ne, s, Mod) in xs)
      && !(Comp(Ne, s, Mod) in xs && Comp(Ne, s, No) in xs)
  {
    hide ExprEq;
  }

  /** In a settled expression nothing is left to join, at any level. */
  lemma SettledMeans(e: Expr, f: Expr)
    requires Settled(e) && Within(f, e) && f.Bin?
    ensures NothingToJoin(f.op, Operands(f.op, f))
  {
    hide NothingToJoin, NoJoin;
    SettledWithin(e.op, e, f);
    NothingLeft(f.op, f);
  }

  /** expr_eliminate_dups. */
  method EliminateDups(e: Option<Expr>) returns (r: Option<Expr>)
    requires e.Some? ==> WellFormed(e.value)
    ensures e.None? <==> r.None?
    ensures forall env: Env :: Good(env) ==> ValueOf(env, r) == ValueOf(env, e)
    ensures r.Some? ==> WellFormed(r.value) && Settled(r.value) && Size(r.value) <= Size(e.value)
    ensures r.Some? ==>
      forall f: Expr :: Within(f, r.value) && f.Bin? ==> NothingToJoin(f.op, Operands(f.op, f))
  {
    hide NothingToJoin;
    if e.None? {
      return None;
    }
    var t := e.value;
    while true
      invariant WellFormed(t) && Size(t) <= Size(e.value)
      invariant forall env: Env :: Good(env) ==> Value(env, t) == Value(env, e.value)
      decreases Size(t)
    {
      var transCount := 0;
      if t.Bin? {
        var (f, n) := Walk(t.op, t, [], []);
        transCount := n;
        forall env: Env | Good(env) ensures Value(env, f) == Value(env, t) && WellFormed(f) {
          WalkKeepsValue(env, t.op, t, [], []);
        }
        WalkProgress(t.op, t, [], []);
        if n == 0 {
          WalkSettles(t);
        } else {
          WalkWellFormed(t);
        }
        t := f;
      }
      if transCount == 0 {
        break;
      }
      EliminateYnShrinks(t);
      forall env: Env | Good(env) ensures Value(env, EliminateYn(t)) == Value(env, t) {
        EliminateYnKeepsValue(env, t);
      }
      t := EliminateYn(t);
    }
    forall f: Expr | Within(f, t) && f.Bin? ensures NothingToJoin(f.op, Operands(f.op, f)) {
      SettledMeans(t, f);
    }
    return Some(t);
  }

  /** Some assignment is good, so well-formedness is kept whatever the assignment. */
  lemma WalkWellFormed(e: Expr)
    requires e.Bin? && WellFormed(e)
    ensures WellFormed(Walk(e.op, e, [], []).0)
  {
    var tri := (s: Sym) => (if s == Yes then 2 else if s == Mod then 1 else 0) as Tri;
    var env := Env(tri, s => "", s => NotANumber);
    WalkKeepsValue(env, e.op, e, [], []);
  }
}
