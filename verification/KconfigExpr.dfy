/**
 Dependency expressions of the Kconfig language and their three-valued meaning.

 A tristate is n=0, m=1 or y=2; `&&` is the minimum, `||` the maximum and `!` is 2-x.
 Expression trees have no sharing, so a tree rewritten in place is modelled as a value;
 where two pointers walk the same tree (duplicate elimination) the pointers are kept,
 as paths (module KconfigDups).
 */
module KconfigExpr {
  import opened Common

  type Tri = x: int | 0 <= x <= 2

  datatype SymType = Unknown | Boolean | Tristate | IntType | HexType | StringType | Other

  /** A symbol. The three constants y, m and n are distinguished objects, as in the source;
      every other quoted constant is a `Quoted` one and has no type. */
  datatype Sym = Yes | Mod | No | Quoted(text: string) | Config(name: string, ty: SymType) {
    function Type(): SymType {
      if Config? then ty else Unknown
    }
    predicate IsConst() {
      !Config?
    }
    predicate IsTriConst() {
      Yes? || Mod? || No?
    }
    predicate IsBoolOrTri() {
      Type().Boolean? || Type().Tristate?
    }
  }

  datatype Op = And | Or

  datatype Rel = Eq | Ne | Lt | Le | Gt | Ge

  datatype Expr =
    | Symbol(sym: Sym)
    | Not(arg: Expr)
    | Comp(rel: Rel, lhs: Sym, rhs: Sym)
    | Bin(op: Op, left: Expr, right: Expr)
  {
    predicate IsBin(o: Op) {
      Bin? && op == o
    }
  }

  // ---------------------------------------------------------------- meaning

  /** What a symbol's text parses to when two symbols are compared. */
  datatype Number = NotANumber | Signed(s: int) | Unsigned(u: nat) | Invalid

  /** An assignment of values to symbols. For boolean and tristate symbols the text and the
      number are determined by the tristate value. */
  datatype Env = Env(tri: Sym -> Tri, str: Sym -> string, num: Sym -> Number)

  function TriName(t: Tri): string {
    if t == 0 then "n" else if t == 1 then "m" else "y"
  }

  function Text(env: Env, s: Sym): string {
    if s.IsBoolOrTri() then TriName(env.tri(s))
    else match s
      case Yes => "y"
      case Mod => "m"
      case No => "n"
      case _ => env.str(s)
  }

  function Parsed(env: Env, s: Sym): Number {
    if s.IsBoolOrTri() then Signed(env.tri(s))
    else if s.IsTriConst() then NotANumber
    else if s.Type().Other? then Invalid
    else if env.num(s).Invalid? then NotANumber
    else env.num(s)
  }

  /** The constants have their own values, and a boolean symbol is never m. */
  ghost predicate Good(env: Env) {
    && env.tri(Yes) == 2
    && env.tri(Mod) == 1
    && env.tri(No) == 0
    && (forall s: Sym :: s.Type().Boolean? ==> env.tri(s) != 1)
  }

  function StrCmp(a: string, b: string): int {
    if a == [] then (if b == [] then 0 else -1)
    else if b == [] then 1
    else if a[0] < b[0] then -1
    else if b[0] < a[0] then 1
    else StrCmp(a[1..], b[1..])
  }

  function Sign(x: int, y: int): int {
    if x < y then -1 else if x > y then 1 else 0
  }

  /** A negative signed number read through the unsigned member of the union. */
  function AsUnsigned(n: Number): nat
    requires n.Signed? || n.Unsigned?
  {
    if n.Unsigned? then n.u else n.s % 0x1_0000_0000_0000_0000
  }

  /** The comparison of two symbols, or nothing when they cannot be ordered. */
  datatype Comparison = Result(res: int) | Unordered(res: int)

  function Compare(env: Env, a: Sym, b: Sym): Comparison {
    var texts := StrCmp(Text(env, a), Text(env, b));
    if a.Type().StringType? && b.Type().StringType? then Result(texts)
    else
      var k1, k2 := Parsed(env, a), Parsed(env, b);
      if k1.NotANumber? || k2.NotANumber? then Result(texts)
      else if k1.Invalid? || k2.Invalid? then Unordered(texts)
      else if k1.Unsigned? || k2.Unsigned? then Result(Sign(AsUnsigned(k1), AsUnsigned(k2)))
      else Result(Sign(k1.s, k2.s))
  }

  function Truth(b: bool): Tri {
    if b then 2 else 0
  }

  function Relate(rel: Rel, c: Comparison): Tri {
    if c.Unordered? && !rel.Eq? && !rel.Ne? then 0
    else match rel
      case Eq => Truth(c.res == 0)
      case Ne => Truth(c.res != 0)
      case Lt => Truth(c.res < 0)
      case Le => Truth(c.res <= 0)
      case Gt => Truth(c.res > 0)
      case Ge => Truth(c.res >= 0)
  }

  function Combine(op: Op, a: Tri, b: Tri): Tri {
    match op
    case And => if a < b then a else b
    case Or => if a > b then a else b
  }

  /** expr_calc_value. */
  function Value(env: Env, e: Expr): Tri {
    match e
    case Symbol(s) => env.tri(s)
    case Not(a) => 2 - Value(env, a)
    case Comp(rel, l, r) => Relate(rel, Compare(env, l, r))
    case Bin(op, l, r) => Combine(op, Value(env, l), Value(env, r))
  }

  /** An absent expression is y. */
  function ValueOf(env: Env, e: Option<Expr>): Tri {
    if e.None? then 2 else Value(env, e.value)
  }

  // ---------------------------------------------------------------- shape

  function Size(e: Expr): (n: nat)
    ensures n >= 1
  {
    match e
    case Symbol(_) => 1
    case Not(a) => 1 + Size(a)
    case Comp(_, _, _) => 1
    case Bin(_, l, r) => 1 + Size(l) + Size(r)
  }

  /** The operand that does not matter at a level: n under `||`, y under `&&`. */
  function Unit(op: Op): Sym {
    if op.Or? then No else Yes
  }

  /** The operand that decides a level: y under `||`, n under `&&`. */
  function Zero(op: Op): Sym {
    if op.Or? then Yes else No
  }

  function Dual(op: Op): Op {
    if op.Or? then And else Or
  }

  /** What the rewriting rules for comparisons rely on: a boolean or tristate symbol is tested
      only against y, m or n (other quoted constants may compare as numbers), and no operand
      of unorderable type appears in an inequality. */
  predicate WellFormed(e: Expr) {
    match e
    case Symbol(_) => true
    case Not(a) => WellFormed(a)
    case Bin(_, l, r) => WellFormed(l) && WellFormed(r)
    case Comp(rel, l, r) =>
      if rel.Eq? || rel.Ne? then l.IsBoolOrTri() && r.IsConst() ==> r.IsTriConst()
      else !l.Type().Other? && !r.Type().Other?
  }

  lemma {:induction false} StrCmpZero(a: string, b: string)
    ensures StrCmp(a, b) == 0 <==> a == b
  {
    if a != [] && b != [] {
      StrCmpZero(a[1..], b[1..]);
      assert a == [a[0]] + a[1..] && b == [b[0]] + b[1..];
    }
  }

  /** The dictionary order: b is longer, or has the greater character where the two first differ. */
  ghost predicate Before(a: string, b: string) {
    exists k :: 0 <= k <= |a| && k <= |b| && a[..k] == b[..k] && k < |b| && (k == |a| || a[k] < b[k])
  }

  lemma {:induction false} StrCmpOrder(a: string, b: string)
    ensures StrCmp(a, b) < 0 <==> Before(a, b)
    ensures StrCmp(a, b) == -StrCmp(b, a)
  {
    if a == [] || b == [] {
      assert a == [] && b != [] ==> a[..0] == b[..0];
    } else {
      StrCmpOrder(a[1..], b[1..]);
      if a[0] == b[0] {
        BeforeTail(a, b);
      } else {
        assert a[..0] == b[..0];
        if k :| 0 < k <= |a| && k <= |b| && a[..k] == b[..k] {
          assert a[..k][0] == b[..k][0];
        }
      }
    }
  }

  lemma BeforeTail(a: string, b: string)
    requires a != [] && b != [] && a[0] == b[0]
    ensures Before(a, b) <==> Before(a[1..], b[1..])
  {
    var c, d := a[1..], b[1..];
    if k :| 0 <= k <= |a| && k <= |b| && a[..k] == b[..k] && k < |b| && (k == |a| || a[k] < b[k]) {
      assert k > 0;
      assert c[..k - 1] == a[..k][1..] && d[..k - 1] == b[..k][1..];
      assert 0 <= k - 1 <= |c| && k - 1 < |d| && (k - 1 == |c| || c[k - 1] < d[k - 1]);
    }
    if k :| 0 <= k <= |c| && k <= |d| && c[..k] == d[..k] && k < |d| && (k == |c| || c[k] < d[k]) {
      assert a[..k + 1] == [a[0]] + c[..k] && b[..k + 1] == [b[0]] + d[..k];
      assert 0 <= k + 1 <= |a| && k + 1 < |b| && (k + 1 == |a| || a[k + 1] < b[k + 1]);
    }
  }

  /** Two numbers are compared as numbers. */
  lemma NumbersCompare(env: Env, a: Sym, b: Sym)
    requires Parsed(env, a).Signed? && Parsed(env, b).Signed?
    requires !a.Type().StringType? || !b.Type().StringType?
    ensures
      var m, n := Parsed(env, a).s, Parsed(env, b).s;
      && Value(env, Comp(Lt, a, b)) == (if m < n then 2 else 0)
      && Value(env, Comp(Le, a, b)) == (if m <= n then 2 else 0)
      && Value(env, Comp(Gt, a, b)) == (if m > n then 2 else 0)
      && Value(env, Comp(Ge, a, b)) == (if m >= n then 2 else 0)
      && Value(env, Comp(Eq, a, b)) == (if m == n then 2 else 0)
      && Value(env, Comp(Ne, a, b)) == (if m != n then 2 else 0)
  {
  }

  /** Two strings, and everything of which one is no number, are compared by their texts, in
      dictionary order. */
  lemma TextsCompare(env: Env, a: Sym, b: Sym)
    requires (a.Type().StringType? && b.Type().StringType?)
             || Parsed(env, a).NotANumber? || Parsed(env, b).NotANumber?
    ensures
      var x, y := Text(env, a), Text(env, b);
      && Value(env, Comp(Lt, a, b)) == (if Before(x, y) then 2 else 0)
      && Value(env, Comp(Le, a, b)) == (if Before(y, x) then 0 else 2)
      && Value(env, Comp(Gt, a, b)) == (if Before(y, x) then 2 else 0)
      && Value(env, Comp(Ge, a, b)) == (if Before(x, y) then 0 else 2)
      && Value(env, Comp(Eq, a, b)) == (if x == y then 2 else 0)
      && Value(env, Comp(Ne, a, b)) == (if x != y then 2 else 0)
  {
    hide StrCmp, Before;
    StrCmpOrder(Text(env, a), Text(env, b));
    StrCmpOrder(Text(env, b), Text(env, a));
    StrCmpZero(Text(env, a), Text(env, b));
  }

  /** Testing a boolean or tristate symbol against a constant is testing its value. */
  lemma TestAgainstConstant(env: Env, a: Sym, c: Sym)
    requires Good(env) && a.IsBoolOrTri() && c.IsTriConst()
    ensures Value(env, Comp(Eq, a, c)) == Truth(env.tri(a) == env.tri(c))
    ensures Value(env, Comp(Ne, a, c)) == Truth(env.tri(a) != env.tri(c))
  {
    StrCmpZero(Text(env, a), Text(env, c));
    assert TriName(0)[0] == 'n' && TriName(1)[0] == 'm' && TriName(2)[0] == 'y';
  }

  /** A symbol stands somewhere in an expression. */
  predicate Occurs(s: Sym, e: Expr) {
    match e
    case Symbol(x) => x == s
    case Not(a) => Occurs(s, a)
    case Comp(_, l, r) => l == s || r == s
    case Bin(_, l, r) => Occurs(s, l) || Occurs(s, r)
  }

  /** The value of an expression depends on the symbols in it and on no others. */
  lemma {:induction false} ValueIsLocal(env: Env, env': Env, e: Expr)
    requires env.str == env'.str && env.num == env'.num
    requires forall s :: Occurs(s, e) ==> env.tri(s) == env'.tri(s)
    ensures Value(env, e) == Value(env', e)
  {
    match e
    case Not(a) => ValueIsLocal(env, env', a);
    case Bin(_, l, r) =>
      ValueIsLocal(env, env', l);
      ValueIsLocal(env, env', r);
    case Comp(_, l, r) => CompareLocal(env, env', l, r);
    case Symbol(_) =>
  }

  /** A comparison only looks at its two operands. */
  lemma CompareLocal(env: Env, env': Env, l: Sym, r: Sym)
    requires env.str == env'.str && env.num == env'.num
    requires env.tri(l) == env'.tri(l) && env.tri(r) == env'.tri(r)
    ensures Compare(env, l, r) == Compare(env', l, r)
  {
    hide StrCmp;
  }
}
