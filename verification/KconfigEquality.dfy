/**
 When two expressions compare equal: comparing is not transitive in general, but on expressions
 whose operands leave nothing to eliminate it is equality up to the order and the grouping of the
 operands of each level.
 */
module KconfigEquality {
  import opened Common
  import opened KconfigExpr
  import opened KconfigSimplify

  /** Constant elimination leaves every operand of every level as it is. An operand may itself be
      a constant, and so may anything right below a negation. */
  predicate Clean(e: Expr)
    decreases e, 1
  {
    match e
    case Bin(op, _, _) => CleanLevel(op, e)
    case Not(a) => Clean(a)
    case _ => true
  }

  predicate CleanLevel(op: Op, e: Expr)
    decreases e, if e.IsBin(op) then 0 else 2
  {
    if e.IsBin(op) then CleanLevel(op, e.left) && CleanLevel(op, e.right)
    else !Reducible(e) && Clean(e)
  }

  /** An expression without the order and the grouping of its operands, and without the constants
      that do not matter; a level with a deciding constant is nothing but that constant. */
  datatype Form =
    | Atom(e: Expr)
    | Negation(arg: Form)
    | Decided(op: Op)
    | Level(op: Op, operands: multiset<Form>)

  ghost function FormOf(e: Expr): Form
    decreases e, 1
  {
    match e
    case Bin(op, _, _) => if DecidedLevel(op, e) then Decided(op) else Level(op, LevelForms(op, e))
    case Not(a) => Negation(FormOf(a))
    case _ => Atom(e)
  }

  ghost function LevelForms(op: Op, e: Expr): multiset<Form>
    decreases e, if e.IsBin(op) then 0 else 2
  {
    if e.IsBin(op) then LevelForms(op, e.left) + LevelForms(op, e.right)
    else if IsYn(e) then multiset{}
    else multiset{FormOf(e)}
  }

  predicate DecidedLevel(op: Op, e: Expr) {
    if e.IsBin(op) then DecidedLevel(op, e.left) || DecidedLevel(op, e.right) else e == Symbol(Zero(op))
  }

  // ---------------------------------------------------------------- lists of operands

  /** An operand, unless it is a constant. */
  function RestOf(x: Expr): (r: seq<Expr>)
    ensures forall y :: y in r ==> y == x && !IsYn(x)
  {
    if IsYn(x) then [] else [x]
  }

  ghost function FormIn(x: Expr): multiset<Form> {
    if IsYn(x) then multiset{} else multiset{FormOf(x)}
  }

  function Rest(s: seq<Expr>): (r: seq<Expr>)
    ensures forall x :: x in r ==> x in s && !IsYn(x)
  {
    if s == [] then [] else RestOf(s[0]) + Rest(s[1..])
  }

  ghost function Forms(s: seq<Expr>): multiset<Form> {
    if s == [] then multiset{} else FormIn(s[0]) + Forms(s[1..])
  }

  lemma {:induction false} RestConcat(s: seq<Expr>, t: seq<Expr>)
    ensures Rest(s + t) == Rest(s) + Rest(t)
  {
    hide RestOf;
    if s == [] {
      assert s + t == t && [] + Rest(t) == Rest(t);
    } else {
      RestConcat(s[1..], t);
      assert (s + t)[1..] == s[1..] + t;
      Assoc(RestOf(s[0]), Rest(s[1..]), Rest(t));
    }
  }

  lemma {:induction false} FormsConcat(s: seq<Expr>, t: seq<Expr>)
    ensures Forms(s + t) == Forms(s) + Forms(t)
  {
    hide FormIn;
    if s == [] {
      assert s + t == t;
    } else {
      FormsConcat(s[1..], t);
      assert (s + t)[1..] == s[1..] + t;
    }
  }

  lemma FormsOfOne(x: Expr, s: seq<Expr>)
    ensures Forms([x] + s) == FormIn(x) + Forms(s)
    ensures Forms([x]) == FormIn(x)
  {
    assert ([x] + s)[1..] == s && [x][1..] == [];
  }

  lemma {:induction false} FormsOfRest(s: seq<Expr>)
    ensures |Rest(s)| == |Forms(s)|
    ensures |Rest(s)| == 1 ==> Forms(s) == multiset{FormOf(Rest(s)[0])}
  {
    hide FormOf;
    if s != [] {
      FormsOfRest(s[1..]);
    }
  }

  lemma {:induction false} FormsOfLevel(op: Op, e: Expr)
    ensures Forms(Operands(op, e)) == LevelForms(op, e)
    ensures Symbol(Zero(op)) in Operands(op, e) <==> DecidedLevel(op, e)
  {
    if e.IsBin(op) {
      FormsOfLevel(op, e.left);
      FormsOfLevel(op, e.right);
      FormsConcat(Operands(op, e.left), Operands(op, e.right));
    } else {
      assert Operands(op, e) == [e] && [e][1..] == [];
    }
  }

  lemma {:induction false} OperandsClean(op: Op, e: Expr)
    requires CleanLevel(op, e)
    ensures forall x :: x in Operands(op, e) ==> Clean(x) && !Reducible(x)
  {
    if e.IsBin(op) {
      OperandsClean(op, e.left);
      OperandsClean(op, e.right);
    }
  }

  // ---------------------------------------------------------------- what elimination pairs off

  /** Some operands that are no constants were replaced by the unit of the level. */
  ghost predicate Turned(op: Op, s: seq<Expr>, s': seq<Expr>) {
    |s'| == |s| && forall i :: 0 <= i < |s| ==> s'[i] == s[i] || (!IsYn(s[i]) && s'[i] == Symbol(Unit(op)))
  }

  /** Comparing x with any of the operands is comparing forms. */
  ghost predicate Decides(x: Expr, t: seq<Expr>) {
    forall j :: 0 <= j < |t| && !IsYn(t[j]) ==> (ExprEq(x, t[j]) <==> FormOf(x) == FormOf(t[j]))
  }

  lemma Pair(op: Op, x: Expr, y: Expr)
    requires !x.IsBin(op) && !y.IsBin(op) && !IsYn(x)
    ensures EliminateCommon(op, x, y)
            == if !IsYn(y) && ExprEq(x, y) then (Symbol(Unit(op)), Symbol(Unit(op))) else (x, y)
  {
  }

  /** The first operand either is the one x is paired with, or x goes on to the others. */
  lemma MeetFirst(op: Op, x: Expr, y: Expr, rest: seq<Expr>)
    requires !x.IsBin(op) && !y.IsBin(op) && !IsYn(x) && Flat(op, rest)
    ensures Flat(op, [y] + rest)
    ensures
      var (x', t') := MeetAll(op, x, [y] + rest);
      if !IsYn(y) && ExprEq(x, y) then x' == Symbol(Unit(op)) && t' == [Symbol(Unit(op))] + rest
      else x' == MeetAll(op, x, rest).0 && t' == [y] + MeetAll(op, x, rest).1
  {
    Pair(op, x, y);
    PassOver(op, Symbol(Unit(op)), rest);
    hide ExprEq, EliminateCommon;
    assert ([y] + rest)[1..] == rest;
  }

  lemma TurnedFirst(op: Op, y: Expr, y': Expr, s: seq<Expr>, s': seq<Expr>)
    requires Turned(op, s, s') && (y' == y || (!IsYn(y) && y' == Symbol(Unit(op))))
    ensures Turned(op, [y] + s, [y'] + s')
  {
  }

  lemma TurnedSame(op: Op, s: seq<Expr>)
    ensures Turned(op, s, s)
  {
  }

  lemma DecidesFirst(x: Expr, y: Expr, rest: seq<Expr>)
    requires Decides(x, [y] + rest)
    ensures Decides(x, rest)
    ensures !IsYn(y) ==> (ExprEq(x, y) <==> FormOf(x) == FormOf(y))
  {
    var t := [y] + rest;
    forall j | 0 <= j < |rest| && !IsYn(rest[j]) ensures ExprEq(x, rest[j]) <==> FormOf(x) == FormOf(rest[j]) {
      assert rest[j] == t[j + 1];
    }
    assert t[0] == y;
  }

  /** What became of x and of the operands it met: it was paired with one of its form, if any. */
  ghost predicate Paired(op: Op, x: Expr, t: seq<Expr>, x': Expr, t': seq<Expr>) {
    && Turned(op, t, t')
    && if FormOf(x) in Forms(t) then x' == Symbol(Unit(op)) && Forms(t') == Forms(t) - multiset{FormOf(x)}
       else x' == x && t' == t
  }

  lemma UnpairedBags<T>(f: T, a: multiset<T>, b: multiset<T>)
    requires f !in a
    ensures f in a + b <==> f in b
    ensures f in b ==> (a + b) - multiset{f} == a + (b - multiset{f})
  {
  }

  lemma PairedBags<T>(f: T, a: multiset<T>, b: multiset<T>)
    ensures f in b ==> (multiset{f} + a) - b == a - (b - multiset{f})
    ensures f in b ==> b - (multiset{f} + a) == (b - multiset{f}) - a
    ensures f !in b ==> (multiset{f} + a) - b == multiset{f} + (a - b)
    ensures f !in b ==> b - (multiset{f} + a) == b - a
  {
  }

  lemma PairedFirst(op: Op, x: Expr, y: Expr, rest: seq<Expr>)
    requires !IsYn(y) && FormOf(x) == FormOf(y)
    ensures Paired(op, x, [y] + rest, Symbol(Unit(op)), [Symbol(Unit(op))] + rest)
  {
    var unit := Symbol(Unit(op));
    FormsOfOne(y, rest);
    FormsOfOne(unit, rest);
    TurnedSame(op, rest);
    TurnedFirst(op, y, unit, rest, rest);
    hide FormOf, Forms, Turned;
    var t := [y] + rest;
    assert Forms(t) - multiset{FormOf(x)} == Forms(rest);
  }

  lemma PairedLater(op: Op, x: Expr, y: Expr, rest: seq<Expr>, x': Expr, t': seq<Expr>)
    requires Paired(op, x, rest, x', t') && (IsYn(y) || FormOf(x) != FormOf(y))
    ensures Paired(op, x, [y] + rest, x', [y] + t')
  {
    hide FormOf, Forms, Turned;
    FormsOfOne(y, rest);
    FormsOfOne(y, t');
    TurnedFirst(op, y, y, rest, t');
    assert FormOf(x) !in FormIn(y);
    UnpairedBags(FormOf(x), FormIn(y), Forms(rest));
  }

  /** An operand is paired off with the first of its form. */
  lemma {:induction false} MeetAllPairs(op: Op, x: Expr, t: seq<Expr>)
    requires !x.IsBin(op) && Flat(op, t)
    requires !IsYn(x) && Decides(x, t)
    ensures Paired(op, x, t, MeetAll(op, x, t).0, MeetAll(op, x, t).1)
    decreases |t|
  {
    if t != [] {
      hide FormOf, ExprEq, MeetAll, Forms, Decides, Paired, Flat;
      var y, rest := t[0], t[1..];
      assert t == [y] + rest;
      FlatRest(op, t);
      MeetFirst(op, x, y, rest);
      DecidesFirst(x, y, rest);
      if !IsYn(y) && ExprEq(x, y) {
        PairedFirst(op, x, y, rest);
      } else {
        MeetAllPairs(op, x, rest);
        PairedLater(op, x, y, rest, MeetAll(op, x, rest).0, MeetAll(op, x, rest).1);
      }
    }
  }

  lemma FlatRest(op: Op, t: seq<Expr>)
    requires t != [] && Flat(op, t)
    ensures !t[0].IsBin(op) && Flat(op, t[1..])
  {
  }

  lemma TurnedTwice(op: Op, s: seq<Expr>, s': seq<Expr>, s'': seq<Expr>)
    requires Turned(op, s, s') && Turned(op, s', s'')
    ensures Turned(op, s, s'')
  {
  }

  /** Constants decide nothing, so turning operands into constants leaves nothing new to compare. */
  lemma DecidesTurned(op: Op, x: Expr, t: seq<Expr>, t': seq<Expr>)
    requires Decides(x, t) && Turned(op, t, t')
    ensures Decides(x, t')
  {
    forall j | 0 <= j < |t'| && !IsYn(t'[j]) ensures ExprEq(x, t'[j]) <==> FormOf(x) == FormOf(t'[j]) {
      assert t'[j] == t[j];
    }
  }

  ghost predicate AllDecide(s: seq<Expr>, t: seq<Expr>) {
    forall i :: 0 <= i < |s| && !IsYn(s[i]) ==> Decides(s[i], t)
  }

  lemma MeetEachFirst(op: Op, x: Expr, s: seq<Expr>, t: seq<Expr>)
    requires Flat(op, [x] + s)
    requires Flat(op, t)
    ensures Flat(op, s) && !x.IsBin(op)
    ensures
      var (x', t') := MeetAll(op, x, t);
      MeetEach(op, [x] + s, t) == ([x'] + MeetEach(op, s, t').0, MeetEach(op, s, t').1)
  {
    var l := [x] + s;
    assert l[0] == x && l[1..] == s;
    forall i | 0 <= i < |s| ensures !s[i].IsBin(op) {
      assert l[i + 1] == s[i];
    }
    hide MeetAll;
  }

  /** What is left on the two sides are the two differences between their forms. */
  ghost predicate AllPaired(op: Op, s: seq<Expr>, t: seq<Expr>, s': seq<Expr>, t': seq<Expr>) {
    && Turned(op, s, s') && Turned(op, t, t')
    && Forms(s') == Forms(s) - Forms(t) && Forms(t') == Forms(t) - Forms(s)
  }

  lemma AllPairedYn(op: Op, x: Expr, rest: seq<Expr>, t: seq<Expr>, r': seq<Expr>, t': seq<Expr>)
    requires IsYn(x) && AllPaired(op, rest, t, r', t')
    ensures AllPaired(op, [x] + rest, t, [x] + r', t')
  {
    FormsOfOne(x, rest);
    FormsOfOne(x, r');
    TurnedFirst(op, x, x, rest, r');
  }

  lemma AllPairedOne(op: Op, x: Expr, rest: seq<Expr>, t: seq<Expr>, x': Expr, t1: seq<Expr>,
                     r': seq<Expr>, t': seq<Expr>)
    requires !IsYn(x) && Paired(op, x, t, x', t1) && AllPaired(op, rest, t1, r', t')
    ensures AllPaired(op, [x] + rest, t, [x'] + r', t')
  {
    hide FormOf, Forms, Turned;
    FormsOfOne(x, rest);
    FormsOfOne(x', r');
    TurnedTwice(op, t, t1, t');
    TurnedFirst(op, x, x', rest, r');
    PairedBags(FormOf(x), Forms(rest), Forms(t));
  }

  lemma {:induction false} MeetEachPairs(op: Op, s: seq<Expr>, t: seq<Expr>)
    requires Flat(op, s)
    requires Flat(op, t)
    requires AllDecide(s, t)
    ensures AllPaired(op, s, t, MeetEach(op, s, t).0, MeetEach(op, s, t).1)
    decreases |s|
  {
    if s == [] {
      TurnedSame(op, t);
    } else {
      hide FormOf, ExprEq, MeetAll, MeetEach, Forms, Turned, Decides, AllDecide, AllPaired, Paired, Flat;
      var x, rest := s[0], s[1..];
      assert s == [x] + rest;
      AllDecideRest(s, t);
      MeetEachFirst(op, x, rest, t);
      var (x', t1) := MeetAll(op, x, t);
      if IsYn(x) {
        PassOver(op, x, t);
        MeetEachPairs(op, rest, t);
        AllPairedYn(op, x, rest, t, MeetEach(op, rest, t).0, MeetEach(op, rest, t).1);
      } else {
        MeetAllPairs(op, x, t);
        AllDecideTurned(op, x, rest, t, x', t1);
        MeetEachPairs(op, rest, t1);
        AllPairedOne(op, x, rest, t, x', t1, MeetEach(op, rest, t1).0, MeetEach(op, rest, t1).1);
      }
    }
  }

  lemma AllDecideRest(s: seq<Expr>, t: seq<Expr>)
    requires s != [] && AllDecide(s, t)
    ensures AllDecide(s[1..], t) && (!IsYn(s[0]) ==> Decides(s[0], t))
  {
    hide Decides;
    forall i | 0 <= i < |s[1..]| && !IsYn(s[1..][i]) ensures Decides(s[1..][i], t) {
      assert s[1..][i] == s[i + 1];
    }
  }

  lemma AllDecideTurned(op: Op, x: Expr, s: seq<Expr>, t: seq<Expr>, x': Expr, t': seq<Expr>)
    requires AllDecide(s, t) && Paired(op, x, t, x', t')
    ensures AllDecide(s, t')
  {
    forall i | 0 <= i < |s| && !IsYn(s[i]) ensures Decides(s[i], t') {
      DecidesTurned(op, s[i], t, t');
    }
  }

  // ---------------------------------------------------------------- what the constants leave

  /** What a level becomes: its deciding constant if it has one; else its unit, its only operand,
      or still a level, when none, one or several operands are no constants. */
  ghost predicate Becomes(op: Op, decided: bool, rest: seq<Expr>, r: Expr) {
    if decided then r == Symbol(Zero(op))
    else if rest == [] then r == Symbol(Unit(op))
    else if |rest| == 1 then r == rest[0] && !IsYn(r)
    else r.Bin?
  }

  lemma FoldLevels(op: Op, d1: bool, s1: seq<Expr>, r1: Expr, d2: bool, s2: seq<Expr>, r2: Expr)
    requires Becomes(op, d1, s1, r1) && Becomes(op, d2, s2, r2)
    ensures Becomes(op, d1 || d2, s1 + s2, FoldConstants(op, r1, r2))
  {
  }

  lemma RefillParts(op: Op, e: Expr, s: seq<Expr>)
    requires e.IsBin(op) && |s| == |Operands(op, e)|
    ensures
      var n := |Operands(op, e.left)|;
      && n <= |s| && |s[n..]| == |Operands(op, e.right)| && s == s[..n] + s[n..]
      && Refill(op, e, s) == Bin(op, Refill(op, e.left, s[..n]), Refill(op, e.right, s[n..]))
  {
  }

  lemma {:induction false} LevelBecomes(op: Op, e: Expr, s: seq<Expr>)
    requires |s| == |Operands(op, e)| && forall i :: 0 <= i < |s| ==> !Reducible(s[i])
    ensures Becomes(op, Symbol(Zero(op)) in s, Rest(s), EliminateYn(Refill(op, e, s)))
  {
    if e.IsBin(op) {
      hide Becomes, Rest, FoldConstants, Operands, Refill, Reducible;
      RefillParts(op, e, s);
      var n := |Operands(op, e.left)|;
      var l, r := s[..n], s[n..];
      LevelBecomes(op, e.left, l);
      LevelBecomes(op, e.right, r);
      RestConcat(l, r);
      FoldLevels(op, Symbol(Zero(op)) in l, Rest(l), EliminateYn(Refill(op, e.left, l)),
                 Symbol(Zero(op)) in r, Rest(r), EliminateYn(Refill(op, e.right, r)));
    } else {
      OperandBecomes(op, s[0]);
      EliminateYnShrinks(s[0]);
      assert s == [s[0]];
    }
  }

  lemma OperandBecomes(op: Op, x: Expr)
    ensures Becomes(op, Symbol(Zero(op)) in [x], Rest([x]), x)
  {
    assert [x][1..] == [];
    assert Rest([x]) == RestOf(x) + [];
  }

  lemma TurnedLevel(op: Op, s: seq<Expr>, s': seq<Expr>)
    requires Turned(op, s, s') && forall x :: x in s ==> !Reducible(x)
    ensures forall i :: 0 <= i < |s'| ==> !Reducible(s'[i])
    ensures Symbol(Zero(op)) in s' <==> Symbol(Zero(op)) in s
  {
    forall i | 0 <= i < |s'| ensures !Reducible(s'[i]) {
      assert s[i] in s;
    }
    if Symbol(Zero(op)) in s {
      var i :| 0 <= i < |s| && s[i] == Symbol(Zero(op));
      assert s'[i] == s[i];
    }
    if Symbol(Zero(op)) in s' {
      var i :| 0 <= i < |s'| && s'[i] == Symbol(Zero(op));
      assert s'[i] == s[i];
    }
  }

  /** On clean expressions comparing is having the same form. */
  lemma {:induction false} ExprEqIsSameForm(e1: Expr, e2: Expr)
    requires Clean(e1) && Clean(e2)
    ensures ExprEq(e1, e2) <==> FormOf(e1) == FormOf(e2)
    decreases Size(e1) + Size(e2)
  {
    match (e1, e2)
    case (Not(a), Not(b)) => ExprEqIsSameForm(a, b);
    case (Bin(op1, _, _), Bin(op2, _, _)) =>
      if op1 == op2 {
        LevelsCompared(op1, e1, e2);
      }
    case _ =>
  }

  lemma {:induction false} LevelsCompared(op: Op, e1: Expr, e2: Expr)
    requires e1.IsBin(op) && e2.IsBin(op) && Clean(e1) && Clean(e2)
    ensures ExprEq(e1, e2) <==> FormOf(e1) == FormOf(e2)
    decreases Size(e1) + Size(e2), 0
  {
    var s, t := Operands(op, e1), Operands(op, e2);
    OperandsClean(op, e1);
    OperandsClean(op, e2);
    OperandsSmaller(op, e1);
    OperandsSmaller(op, e2);
    forall i, j | 0 <= i < |s| && 0 <= j < |t| ensures ExprEq(s[i], t[j]) <==> FormOf(s[i]) == FormOf(t[j]) {
      assert s[i] in s && t[j] in t;
      ExprEqIsSameForm(s[i], t[j]);
    }
    assert AllDecide(s, t);
    MeetEachPairs(op, s, t);
    var (s', t') := MeetEach(op, s, t);
    TurnedLevel(op, s, s');
    TurnedLevel(op, t, t');
    EliminateCommonMeetsEach(op, e1, e2);
    LevelBecomes(op, e1, s');
    LevelBecomes(op, e2, t');
    FormsOfRest(s');
    FormsOfRest(t');
    FormsOfLevel(op, e1);
    FormsOfLevel(op, e2);
    LevelsEqual(op, e1, e2, s', t');
    Outcome(op, DecidedLevel(op, e1), LevelForms(op, e1), Rest(s'), EliminateYn(Refill(op, e1, s')),
            DecidedLevel(op, e2), LevelForms(op, e2), Rest(t'), EliminateYn(Refill(op, e2, t')));
  }

  lemma LevelsEqual(op: Op, e1: Expr, e2: Expr, s: seq<Expr>, t: seq<Expr>)
    requires e1.IsBin(op) && e2.IsBin(op)
    requires |s| == |Operands(op, e1)| && |t| == |Operands(op, e2)|
    requires EliminateCommon(op, e1, e2) == (Refill(op, e1, s), Refill(op, e2, t))
    ensures
      var r1, r2 := EliminateYn(Refill(op, e1, s)), EliminateYn(Refill(op, e2, t));
      ExprEq(e1, e2) <==> r1.Symbol? && r1 == r2
  {
    hide EliminateCommon, EliminateYn, Operands;
  }

  ghost predicate Leaves(rest: seq<Expr>, m: multiset<Form>) {
    |rest| == |m| && (|rest| == 1 ==> m == multiset{FormOf(rest[0])})
  }

  /** Both levels become the same constant exactly when neither has a form the other has not. */
  lemma Outcome(op: Op, d1: bool, m1: multiset<Form>, s: seq<Expr>, r1: Expr,
                d2: bool, m2: multiset<Form>, t: seq<Expr>, r2: Expr)
    requires Becomes(op, d1, s, r1) && Becomes(op, d2, t, r2)
    requires Leaves(s, m1 - m2) && Leaves(t, m2 - m1)
    ensures r1.Symbol? && r1 == r2
            <==> (if d1 then Decided(op) else Level(op, m1)) == (if d2 then Decided(op) else Level(op, m2))
  {
    hide FormOf;
    if !d1 && !d2 {
      assert m1 - m2 == multiset{} && m2 - m1 == multiset{} <==> m1 == m2;
      if |s| == 1 && |t| == 1 {
        assert FormOf(s[0]) in m1 - m2 && FormOf(t[0]) in m2 - m1;
      }
    }
  }

  /** On clean expressions comparing is an equivalence. */
  lemma ExprEqIsEquivalence(x: Expr, y: Expr, z: Expr)
    requires Clean(x) && Clean(y) && Clean(z)
    ensures ExprEq(x, x)
    ensures ExprEq(x, y) <==> ExprEq(y, x)
    ensures ExprEq(x, y) && ExprEq(y, z) ==> ExprEq(x, z)
  {
    hide ExprEq;
    ExprEqIsSameForm(x, x);
    ExprEqIsSameForm(x, y);
    ExprEqIsSameForm(y, x);
    ExprEqIsSameForm(y, z);
    ExprEqIsSameForm(x, z);
  }
}
