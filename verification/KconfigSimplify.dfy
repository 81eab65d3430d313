/**
 Constant elimination, and the removal of operands that two expressions have in common,
 which is also how expressions are compared.
 */
module KconfigSimplify {
  import opened Common
  import opened KconfigExpr

  // ---------------------------------------------------------------- y/n elimination

  /** One node of expr_eliminate_yn, its operands being done. */
  function FoldConstants(op: Op, l: Expr, r: Expr): Expr {
    if l == Symbol(Zero(op)) then Symbol(Zero(op))
    else if l == Symbol(Unit(op)) then r
    else if r == Symbol(Zero(op)) then Symbol(Zero(op))
    else if r == Symbol(Unit(op)) then l
    else Bin(op, l, r)
  }

  function EliminateYn(e: Expr): Expr {
    match e
    case Bin(op, l, r) => FoldConstants(op, EliminateYn(l), EliminateYn(r))
    case _ => e
  }

  /** Some `&&` or `||` has a constant y or n for an operand. */
  predicate Reducible(e: Expr) {
    e.Bin? && (IsYn(e.left) || IsYn(e.right) || Reducible(e.left) || Reducible(e.right))
  }

  predicate IsYn(e: Expr) {
    e == Symbol(Yes) || e == Symbol(No)
  }

  lemma FoldShrinks(op: Op, l: Expr, r: Expr)
    requires !Reducible(l) && !Reducible(r)
    ensures
      var e := FoldConstants(op, l, r);
      && (WellFormed(l) && WellFormed(r) ==> WellFormed(e))
      && !Reducible(e)
      && if IsYn(l) || IsYn(r) then Size(e) <= Size(l) + Size(r) else e == Bin(op, l, r)
  {
  }

  /** Elimination leaves nothing reducible, and makes the tree smaller exactly when something
      was reducible. */
  lemma {:induction false} EliminateYnShrinks(e: Expr)
    ensures WellFormed(e) ==> WellFormed(EliminateYn(e))
    ensures !Reducible(EliminateYn(e))
    ensures if Reducible(e) then Size(EliminateYn(e)) < Size(e) else EliminateYn(e) == e
  {
    if e.Bin? {
      EliminateYnShrinks(e.left);
      EliminateYnShrinks(e.right);
      var l, r := EliminateYn(e.left), EliminateYn(e.right);
      FoldShrinks(e.op, l, r);
      hide FoldConstants, IsYn;
    }
  }

  lemma {:induction false} EliminateYnKeepsValue(env: Env, e: Expr)
    requires Good(env)
    ensures Value(env, EliminateYn(e)) == Value(env, e)
  {
    if e.Bin? {
      EliminateYnKeepsValue(env, e.left);
      EliminateYnKeepsValue(env, e.right);
    }
  }

  // ---------------------------------------------------------------- common operands

  /** __expr_eliminate_eq: walk the operands of both trees at the level `op` and replace two
      equal ones by the unit of the level. */
  function EliminateCommon(op: Op, e1: Expr, e2: Expr): (r: (Expr, Expr))
    ensures Size(r.0) <= Size(e1) && Size(r.1) <= Size(e2)
    ensures e1.Bin? && e1.op == op ==> r.0.Bin? && r.0.op == op
    decreases Size(e1) + Size(e2), if e1.IsBin(op) || e2.IsBin(op) then 0 else 3
  {
    if e1.IsBin(op) then
      var (l, e2') := EliminateCommon(op, e1.left, e2);
      var (r, e2'') := EliminateCommon(op, e1.right, e2');
      (Bin(op, l, r), e2'')
    else if e2.IsBin(op) then
      var (e1', l) := EliminateCommon(op, e1, e2.left);
      var (e1'', r) := EliminateCommon(op, e1', e2.right);
      (e1'', Bin(op, l, r))
    else if e1 == e2 && IsYn(e1) then (e1, e2)
    else if !ExprEq(e1, e2) then (e1, e2)
    else (Symbol(Unit(op)), Symbol(Unit(op)))
  }

  /** expr_eliminate_eq. */
  function EliminateEq(e1: Expr, e2: Expr): (Expr, Expr)
    decreases Size(e1) + Size(e2), 1
  {
    var (a1, a2) := if e1.Bin? then EliminateCommon(e1.op, e1, e2) else (e1, e2);
    var (b1, b2) :=
      if a2.Bin? && !a1.IsBin(a2.op) then EliminateCommon(a2.op, a1, a2) else (a1, a2);
    (EliminateYn(b1), EliminateYn(b2))
  }

  /** expr_eq. */
  predicate ExprEq(e1: Expr, e2: Expr)
    decreases Size(e1) + Size(e2), 2
  {
    match (e1, e2)
    case (Comp(r1, _, _), Comp(r2, _, _)) => e1 == e2
    case (Symbol(_), Symbol(_)) => e1 == e2
    case (Not(a), Not(b)) => ExprEq(a, b)
    case (Bin(op1, _, _), Bin(op2, _, _)) =>
      op1 == op2 &&
      var (a, b) := EliminateEq(e1, e2);
      a.Symbol? && a == b
    case _ => false
  }

  /** What was removed at a level is the same on both sides. */
  ghost predicate SplitsOff(op: Op, v1: Tri, v2: Tri, w1: Tri, w2: Tri) {
    exists v: Tri :: v1 == Combine(op, w1, v) && v2 == Combine(op, w2, v)
  }

  lemma SplitNothing(op: Op, v1: Tri, v2: Tri)
    ensures SplitsOff(op, v1, v2, v1, v2)
  {
    var v: Tri := if op.Or? then 0 else 2;
    assert v1 == Combine(op, v1, v) && v2 == Combine(op, v2, v);
  }

  lemma SplitEqual(op: Op, v: Tri)
    ensures var u := if op.Or? then 0 else 2; SplitsOff(op, v, v, u, u)
  {
    var u: Tri := if op.Or? then 0 else 2;
    assert v == Combine(op, u, v);
  }

  /** Two removals, from the two halves of the first side, are one removal. */
  lemma SplitTwice(op: Op, l: Tri, r: Tri, l': Tri, r': Tri, x: Tri, x': Tri, x'': Tri)
    requires SplitsOff(op, l, x, l', x') && SplitsOff(op, r, x', r', x'')
    ensures SplitsOff(op, Combine(op, l, r), x, Combine(op, l', r'), x'')
    ensures SplitsOff(op, x, Combine(op, l, r), x'', Combine(op, l', r'))
  {
    var v: Tri :| l == Combine(op, l', v) && x == Combine(op, x', v);
    var w: Tri :| r == Combine(op, r', w) && x' == Combine(op, x'', w);
    var u := Combine(op, v, w);
    CombineTwice(op, l', r', v, w);
    CombineTwice(op, x'', x'', w, v);
    hide Combine;
    assert Combine(op, l, r) == Combine(op, Combine(op, l', r'), u);
    assert x == Combine(op, x'', u);
  }

  lemma CombineTwice(op: Op, a: Tri, b: Tri, v: Tri, w: Tri)
    ensures Combine(op, Combine(op, a, v), Combine(op, b, w))
         == Combine(op, Combine(op, a, b), Combine(op, v, w))
    ensures Combine(op, Combine(op, a, v), w) == Combine(op, a, Combine(op, w, v))
  {
  }

  lemma SplitSwap(op: Op, v1: Tri, v2: Tri, w1: Tri, w2: Tri)
    requires SplitsOff(op, v1, v2, w1, w2)
    ensures SplitsOff(op, v2, v1, w2, w1)
  {
    var v: Tri :| v1 == Combine(op, w1, v) && v2 == Combine(op, w2, v);
    assert v2 == Combine(op, w2, v);
  }

  /** What is added back to both sides keeps their order. */
  lemma SplitOrder(op: Op, v1: Tri, v2: Tri, w1: Tri, w2: Tri)
    requires SplitsOff(op, v1, v2, w1, w2)
    ensures (w1 <= w2 ==> v1 <= v2) && (w1 >= w2 ==> v1 >= v2)
  {
  }

  lemma {:induction false} EliminateCommonSplits(env: Env, op: Op, e1: Expr, e2: Expr)
    requires Good(env)
    ensures var r := EliminateCommon(op, e1, e2);
            SplitsOff(op, Value(env, e1), Value(env, e2), Value(env, r.0), Value(env, r.1))
    decreases Size(e1) + Size(e2), if e1.IsBin(op) || e2.IsBin(op) then 0 else 3
  {
    if e1.IsBin(op) {
      var (l, e2') := EliminateCommon(op, e1.left, e2);
      var (r, e2'') := EliminateCommon(op, e1.right, e2');
      EliminateCommonSplits(env, op, e1.left, e2);
      EliminateCommonSplits(env, op, e1.right, e2');
      SplitTwice(op, Value(env, e1.left), Value(env, e1.right), Value(env, l), Value(env, r),
                 Value(env, e2), Value(env, e2'), Value(env, e2''));
    } else if e2.IsBin(op) {
      var (e1', l) := EliminateCommon(op, e1, e2.left);
      var (e1'', r) := EliminateCommon(op, e1', e2.right);
      EliminateCommonSplits(env, op, e1, e2.left);
      EliminateCommonSplits(env, op, e1', e2.right);
      SplitSwap(op, Value(env, e1), Value(env, e2.left), Value(env, e1'), Value(env, l));
      SplitSwap(op, Value(env, e1'), Value(env, e2.right), Value(env, e1''), Value(env, r));
      SplitTwice(op, Value(env, e2.left), Value(env, e2.right), Value(env, l), Value(env, r),
                 Value(env, e1), Value(env, e1'), Value(env, e1''));
    } else if (e1 == e2 && IsYn(e1)) || !ExprEq(e1, e2) {
      SplitNothing(op, Value(env, e1), Value(env, e2));
    } else {
      ExprEqSound(env, e1, e2);
      SplitEqual(op, Value(env, e1));
    }
  }

  /** expr_eliminate_eq reflects the order: if the rewritten expressions are ordered under an
      assignment, so were the originals, in both directions. */
  lemma {:induction false} EliminateEqReflectsOrder(env: Env, e1: Expr, e2: Expr)
    requires Good(env)
    ensures var r := EliminateEq(e1, e2);
            && (Value(env, r.0) <= Value(env, r.1) ==> Value(env, e1) <= Value(env, e2))
            && (Value(env, r.0) >= Value(env, r.1) ==> Value(env, e1) >= Value(env, e2))
    decreases Size(e1) + Size(e2), 1
  {
    hide Value, EliminateCommon, EliminateYn, SplitsOff;
    var (a1, a2) := if e1.Bin? then EliminateCommon(e1.op, e1, e2) else (e1, e2);
    if e1.Bin? {
      EliminateCommonSplits(env, e1.op, e1, e2);
      SplitOrder(e1.op, Value(env, e1), Value(env, e2), Value(env, a1), Value(env, a2));
    }
    var (b1, b2) :=
      if a2.Bin? && !a1.IsBin(a2.op) then EliminateCommon(a2.op, a1, a2) else (a1, a2);
    if a2.Bin? && !a1.IsBin(a2.op) {
      EliminateCommonSplits(env, a2.op, a1, a2);
      SplitOrder(a2.op, Value(env, a1), Value(env, a2), Value(env, b1), Value(env, b2));
    }
    EliminateYnKeepsValue(env, b1);
    EliminateYnKeepsValue(env, b2);
  }

  /** Expressions that expr_eq calls equal have the same value under every assignment. */
  lemma {:induction false} ExprEqSound(env: Env, e1: Expr, e2: Expr)
    requires Good(env)
    requires ExprEq(e1, e2)
    ensures Value(env, e1) == Value(env, e2)
    decreases Size(e1) + Size(e2), 2
  {
    match (e1, e2)
    case (Not(a), Not(b)) => ExprEqSound(env, a, b);
    case (Bin(_, _, _), Bin(_, _, _)) => EliminateEqReflectsOrder(env, e1, e2);
    case _ =>
  }

  /** The test menu_finalize makes before it puts an item under a symbol: when the base
      dependency is eliminated to y, the item's dependency is never above it. */
  lemma SupersetTest(env: Env, dep: Expr, base: Expr)
    requires Good(env)
    requires EliminateEq(dep, base).1 == Symbol(Yes)
    ensures Value(env, dep) <= Value(env, base)
  {
    EliminateEqReflectsOrder(env, dep, base);
  }

  // ---------------------------------------------------------------- reflexivity

  /** Operands only: no expression of the level's own kind. */
  predicate Flat(op: Op, s: seq<Expr>) {
    forall i :: 0 <= i < |s| ==> !s[i].IsBin(op)
  }

  /** The operands of a level, from left to right. */
  function Operands(op: Op, e: Expr): (s: seq<Expr>)
    ensures |s| >= 1
    ensures Flat(op, s)
  {
    if e.IsBin(op) then Operands(op, e.left) + Operands(op, e.right) else [e]
  }

  /** The same tree with new operands. */
  function Refill(op: Op, e: Expr, s: seq<Expr>): Expr
    requires |s| == |Operands(op, e)|
  {
    if e.IsBin(op) then
      var n := |Operands(op, e.left)|;
      Bin(op, Refill(op, e.left, s[..n]), Refill(op, e.right, s[n..]))
    else s[0]
  }

  /** An operand of the first tree meets the operands of the second in turn. */
  function MeetAll(op: Op, x: Expr, s: seq<Expr>): (r: (Expr, seq<Expr>))
    requires !x.IsBin(op) && Flat(op, s)
    ensures |r.1| == |s| && !r.0.IsBin(op) && Flat(op, r.1)
    decreases |s|
  {
    if s == [] then (x, [])
    else
      var (x', y') := EliminateCommon(op, x, s[0]);
      var (x'', t) := MeetAll(op, x', s[1..]);
      (x'', [y'] + t)
  }

  lemma {:induction false} MeetAllConcat(op: Op, x: Expr, s: seq<Expr>, t: seq<Expr>)
    requires !x.IsBin(op)
    requires Flat(op, s)
    requires Flat(op, t)
    ensures var (x', s') := MeetAll(op, x, s);
            var (x'', t') := MeetAll(op, x', t);
            MeetAll(op, x, s + t) == (x'', s' + t')
    decreases |s|
  {
    hide ExprEq;
    if s == [] {
      assert s + t == t && [] + MeetAll(op, x, t).1 == MeetAll(op, x, t).1;
    } else {
      var (x', y') := EliminateCommon(op, x, s[0]);
      MeetAllConcat(op, x', s[1..], t);
      assert (s + t)[1..] == s[1..] + t;
      var (x1, s1) := MeetAll(op, x', s[1..]);
      Assoc([y'], s1, MeetAll(op, x1, t).1);
    }
  }

  /** Walking one operand through a tree is meeting the tree's operands in turn. */
  lemma {:induction false} EliminateCommonMeets(op: Op, x: Expr, e: Expr)
    requires !x.IsBin(op)
    ensures var (x', s) := MeetAll(op, x, Operands(op, e));
            EliminateCommon(op, x, e) == (x', Refill(op, e, s))
            && Operands(op, Refill(op, e, s)) == s
    decreases e
  {
    if e.IsBin(op) {
      var s1, s2 := Operands(op, e.left), Operands(op, e.right);
      MeetAllConcat(op, x, s1, s2);
      EliminateCommonMeets(op, x, e.left);
      var (x', t1) := MeetAll(op, x, s1);
      EliminateCommonMeets(op, x', e.right);
      var t2 := MeetAll(op, x', s2).1;
      assert (t1 + t2)[..|s1|] == t1 && (t1 + t2)[|s1|..] == t2;
    } else {
      assert MeetAll(op, x, [e]).1 == [EliminateCommon(op, x, e).1];
    }
  }

  /** Every operand of the first tree goes through the whole second tree. */
  function MeetEach(op: Op, s: seq<Expr>, t: seq<Expr>): (r: (seq<Expr>, seq<Expr>))
    requires Flat(op, s)
    requires Flat(op, t)
    ensures |r.0| == |s| && |r.1| == |t|
    ensures Flat(op, r.0)
    ensures Flat(op, r.1)
  {
    if s == [] then ([], t)
    else
      var (x, t') := MeetAll(op, s[0], t);
      var (s', t'') := MeetEach(op, s[1..], t');
      ([x] + s', t'')
  }

  lemma {:induction false} MeetEachConcat(op: Op, s1: seq<Expr>, s2: seq<Expr>, t: seq<Expr>)
    requires Flat(op, s1)
    requires Flat(op, s2)
    requires Flat(op, t)
    ensures var (r1, t') := MeetEach(op, s1, t);
            var (r2, t'') := MeetEach(op, s2, t');
            MeetEach(op, s1 + s2, t) == (r1 + r2, t'')
  {
    if s1 == [] {
      assert s1 + s2 == s2 && [] + MeetEach(op, s2, t).0 == MeetEach(op, s2, t).0;
    } else {
      var (x, t') := MeetAll(op, s1[0], t);
      MeetEachConcat(op, s1[1..], s2, t');
      assert (s1 + s2)[1..] == s1[1..] + s2;
      var (r1, t1) := MeetEach(op, s1[1..], t');
      assert [x] + (r1 + MeetEach(op, s2, t1).0) == ([x] + r1) + MeetEach(op, s2, t1).0;
    }
  }

  lemma {:induction false} EliminateCommonMeetsEach(op: Op, e1: Expr, e2: Expr)
    ensures var (s, t) := MeetEach(op, Operands(op, e1), Operands(op, e2));
            EliminateCommon(op, e1, e2) == (Refill(op, e1, s), Refill(op, e2, t))
            && Operands(op, Refill(op, e2, t)) == t
    decreases e1
  {
    if e1.IsBin(op) {
      var s1, s2 := Operands(op, e1.left), Operands(op, e1.right);
      var t := Operands(op, e2);
      MeetEachConcat(op, s1, s2, t);
      EliminateCommonMeetsEach(op, e1.left, e2);
      var (r1, t') := MeetEach(op, s1, t);
      var e2' := Refill(op, e2, t');
      EliminateCommonMeetsEach(op, e1.right, e2');
      var (r2, t'') := MeetEach(op, s2, t');
      RefillTwice(op, e2, t', t'');
      assert (r1 + r2)[..|s1|] == r1 && (r1 + r2)[|s1|..] == r2;
    } else {
      EliminateCommonMeets(op, e1, e2);
      var (x, t) := MeetAll(op, e1, Operands(op, e2));
      assert MeetEach(op, [], t) == ([], t);
      assert MeetEach(op, [e1], Operands(op, e2)).0 == [x];
    }
  }

  lemma {:induction false} OperandsOfRefill(op: Op, e: Expr, s: seq<Expr>)
    requires |s| == |Operands(op, e)|
    requires Flat(op, s)
    ensures Operands(op, Refill(op, e, s)) == s
  {
    if e.IsBin(op) {
      var n := |Operands(op, e.left)|;
      OperandsOfRefill(op, e.left, s[..n]);
      OperandsOfRefill(op, e.right, s[n..]);
    }
  }

  lemma {:induction false} RefillTwice(op: Op, e: Expr, s: seq<Expr>, t: seq<Expr>)
    requires |s| == |t| == |Operands(op, e)|
    requires Flat(op, s)
    ensures Operands(op, Refill(op, e, s)) == s
    ensures Refill(op, Refill(op, e, s), t) == Refill(op, e, t)
  {
    OperandsOfRefill(op, e, s);
    if e.IsBin(op) {
      var n := |Operands(op, e.left)|;
      RefillTwice(op, e.left, s[..n], t[..n]);
      RefillTwice(op, e.right, s[n..], t[n..]);
    }
  }

  /** What is left of an operand once it has met its twin. */
  function Spent(op: Op, x: Expr): Expr {
    if IsYn(x) then x else Symbol(Unit(op))
  }

  /** Once both copies of the first k operands are spent, the next operand passes over them,
      meets its twin, and the rest does not concern it any more. */
  lemma {:induction false} PassOver(op: Op, x: Expr, s: seq<Expr>)
    requires !x.IsBin(op)
    requires Flat(op, s)
    requires IsYn(x) || forall i :: 0 <= i < |s| ==> IsYn(s[i])
    ensures MeetAll(op, x, s) == (x, s)
  {
    if s != [] {
      assert EliminateCommon(op, x, s[0]) == (x, s[0]);
      PassOver(op, x, s[1..]);
      assert [s[0]] + s[1..] == s;
    }
  }

  lemma {:induction false} MeetTwin(op: Op, done: seq<Expr>, x: Expr, rest: seq<Expr>)
    requires !x.IsBin(op) && ExprEq(x, x)
    requires Flat(op, done) && forall i :: 0 <= i < |done| ==> IsYn(done[i])
    requires Flat(op, rest)
    ensures MeetAll(op, x, done + [x] + rest) == (Spent(op, x), done + [Spent(op, x)] + rest)
  {
    hide MeetAll, EliminateCommon, ExprEq, Spent;
    PassOver(op, x, done);
    MeetAllConcat(op, x, done, [x] + rest);
    MeetFirst(op, x, rest);
    Assoc(done, [x], rest);
    Assoc(done, [Spent(op, x)], rest);
  }

  lemma MeetFirst(op: Op, x: Expr, rest: seq<Expr>)
    requires !x.IsBin(op) && ExprEq(x, x) && Flat(op, rest)
    ensures MeetAll(op, x, [x] + rest) == (Spent(op, x), [Spent(op, x)] + rest)
  {
    var y := Spent(op, x);
    assert EliminateCommon(op, x, x) == (y, y);
    hide EliminateCommon, ExprEq;
    PassOver(op, y, rest);
    assert ([x] + rest)[1..] == rest;
  }

  function AllSpent(op: Op, s: seq<Expr>): (r: seq<Expr>)
    ensures |r| == |s| && forall i :: 0 <= i < |s| ==> IsYn(r[i])
  {
    seq(|s|, i requires 0 <= i < |s| => Spent(op, s[i]))
  }

  lemma {:induction false} MeetTwins(op: Op, done: seq<Expr>, s: seq<Expr>)
    requires Flat(op, done) && forall i :: 0 <= i < |done| ==> IsYn(done[i])
    requires Flat(op, s) && forall i :: 0 <= i < |s| ==> ExprEq(s[i], s[i])
    ensures MeetEach(op, s, done + s) == (AllSpent(op, s), done + AllSpent(op, s))
    decreases |s|
  {
    if s == [] {
      assert done + s == done;
    } else {
      var y := Spent(op, s[0]);
      assert done + s == done + [s[0]] + s[1..];
      MeetTwin(op, done, s[0], s[1..]);
      MeetTwins(op, done + [y], s[1..]);
      assert AllSpent(op, s) == [y] + AllSpent(op, s[1..]);
      assert done + [y] + AllSpent(op, s[1..]) == done + AllSpent(op, s);
    }
  }

  lemma {:induction false} FoldOfConstants(op: Op, e: Expr, s: seq<Expr>)
    requires |s| == |Operands(op, e)| && forall i :: 0 <= i < |s| ==> IsYn(s[i])
    ensures IsYn(EliminateYn(Refill(op, e, s)))
  {
    if e.IsBin(op) {
      var n := |Operands(op, e.left)|;
      FoldOfConstants(op, e.left, s[..n]);
      FoldOfConstants(op, e.right, s[n..]);
    }
  }

  lemma {:induction false} OperandsSmaller(op: Op, e: Expr)
    ensures forall x :: x in Operands(op, e) ==> Size(x) <= Size(e)
    ensures e.IsBin(op) ==> forall x :: x in Operands(op, e) ==> Size(x) < Size(e)
  {
    if e.IsBin(op) {
      OperandsSmaller(op, e.left);
      OperandsSmaller(op, e.right);
    }
  }

  /** Every expression equals itself: comparing an `&&` or `||` with its copy pairs each
      operand with its own copy, although expr_eq is not transitive. */
  lemma {:induction false} ExprEqReflexive(e: Expr)
    ensures ExprEq(e, e)
    decreases Size(e)
  {
    match e
    case Not(a) => ExprEqReflexive(a);
    case Bin(op, _, _) =>
      var s := Operands(op, e);
      OperandsSmaller(op, e);
      forall i | 0 <= i < |s| ensures ExprEq(s[i], s[i]) {
        assert s[i] in s;
        ExprEqReflexive(s[i]);
      }
      MeetTwins(op, [], s);
      assert [] + s == s && [] + AllSpent(op, s) == AllSpent(op, s);
      EliminateCommonMeetsEach(op, e, e);
      FoldOfConstants(op, e, AllSpent(op, s));
      assert EliminateEq(e, e).0 == EliminateYn(Refill(op, e, AllSpent(op, s)));
      assert EliminateEq(e, e).0 == EliminateEq(e, e).1;
    case _ =>
  }

  /** expr_eq is not transitive: `A && y || B && y` equals `A && y || B`, which equals `A || B`,
      but the first does not equal the last, although all three have the same value. */
  lemma ExprEqNotTransitive(a: Sym, b: Sym)
    requires a.Config? && b.Config? && a != b
    ensures var x, y := Symbol(a), Symbol(b);
            var x', y' := Bin(And, x, Symbol(Yes)), Bin(And, y, Symbol(Yes));
            && ExprEq(Bin(Or, x', y'), Bin(Or, x', y))
            && ExprEq(Bin(Or, x', y), Bin(Or, x, y))
            && !ExprEq(Bin(Or, x', y'), Bin(Or, x, y))
  {
    var x, y, n := Symbol(a), Symbol(b), Symbol(No);
    var x', y' := Bin(And, x, Symbol(Yes)), Bin(And, y, Symbol(Yes));
    ExprEqReflexive(x');
    assert EliminateCommon(Or, x', x') == (n, n) && EliminateCommon(Or, n, y) == (n, y);
    KindsDiffer(Or, y', n);
    KindsDiffer(Or, y', y);
    KindsDiffer(Or, y', x);
    KindsDiffer(Or, x', x);
    KindsDiffer(Or, x', y);
    assert EliminateCommon(Or, y, x) == (y, x) && EliminateCommon(Or, y, y) == (n, n);
    OneAgainstTwo(Or, x', x', y);
    OneAgainstTwo(Or, y', n, y);
    OneAgainstTwo(Or, x', x, y);
    OneAgainstTwo(Or, y, x, y);
    OneAgainstTwo(Or, y', x, y);
    assert EliminateYn(x') == x && EliminateYn(y') == y;
    TwoAgainst(Or, x', y', Bin(Or, x', y));
    TwoAgainst(Or, x', y, Bin(Or, x, y));
    TwoAgainst(Or, x', y', Bin(Or, x, y));
  }

  lemma KindsDiffer(op: Op, x: Expr, y: Expr)
    requires x.Bin? && x.op != op && y.Symbol?
    ensures EliminateCommon(op, x, y) == (x, y)
  {
  }

  lemma OneAgainstTwo(op: Op, x: Expr, l: Expr, r: Expr)
    requires !x.IsBin(op) && !EliminateCommon(op, x, l).0.IsBin(op)
    ensures var (x1, l') := EliminateCommon(op, x, l);
            var (x2, r') := EliminateCommon(op, x1, r);
            EliminateCommon(op, x, Bin(op, l, r)) == (x2, Bin(op, l', r'))
  {
  }

  lemma TwoAgainst(op: Op, l: Expr, r: Expr, e: Expr)
    requires e.IsBin(op) && EliminateCommon(op, l, e).1.IsBin(op)
    requires EliminateCommon(op, r, EliminateCommon(op, l, e).1).1.IsBin(op)
    ensures var (l', e1) := EliminateCommon(op, l, e);
            var (r', e2) := EliminateCommon(op, r, e1);
            EliminateEq(Bin(op, l, r), e) == (EliminateYn(Bin(op, l', r')), EliminateYn(e2))
  {
  }
}
