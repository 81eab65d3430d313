/**
 The values of boolean and tristate symbols that are neither choices nor members of choices: the
 recursive definition, the evaluator that marks what it has computed, and changing a user value.
 Whether modules are enabled is fixed.
 */
module KconfigValues {
  import opened Common
  import opened KconfigExpr

  datatype Default = Default(visible: Option<Expr>, expr: Option<Expr>)

  /** What a symbol's value depends on: the conditions of its prompts, its dependencies, and its
      defaults. */
  datatype Entry = Entry(prompts: seq<Option<Expr>>, dirDep: Option<Expr>, revDep: Option<Expr>,
                         implied: Option<Expr>, defaults: seq<Default>)

  /** The symbols with their definitions; `rank` orders them so that nothing depends on itself. */
  datatype Table = Table(g: map<Sym, Entry>, rank: map<Sym, nat>, modules: bool,
                         str: Sym -> string, num: Sym -> Number)

  type Users = map<Sym, Tri>

  predicate Below(t: Table, e: Expr, n: nat) {
    match e
    case Symbol(s) => s in t.g ==> s in t.rank && t.rank[s] < n
    case Not(a) => Below(t, a, n)
    case Comp(_, l, r) => (l in t.g ==> l in t.rank && t.rank[l] < n) && (r in t.g ==> r in t.rank && t.rank[r] < n)
    case Bin(_, l, r) => Below(t, l, n) && Below(t, r, n)
  }

  predicate BelowOpt(t: Table, o: Option<Expr>, n: nat) {
    o.Some? ==> Below(t, o.value, n)
  }

  /** Acyclic in everything the evaluator reads. */
  ghost predicate Acyclic(t: Table) {
    && (forall s :: s in t.g ==> s in t.rank && s.IsBoolOrTri())
    && (forall s :: s in t.g ==> EntryBelow(t, t.g[s], t.rank[s]))
  }

  ghost predicate EntryBelow(t: Table, d: Entry, n: nat) {
    && (forall i :: 0 <= i < |d.prompts| ==> BelowOpt(t, d.prompts[i], n))
    && BelowOpt(t, d.dirDep, n) && BelowOpt(t, d.revDep, n) && BelowOpt(t, d.implied, n)
    && (forall i :: 0 <= i < |d.defaults| ==>
          BelowOpt(t, d.defaults[i].visible, n) && BelowOpt(t, d.defaults[i].expr, n))
  }

  // ---------------------------------------------------------------- one symbol, given what it reads

  /** sym_get_type: without modules a tristate is a boolean. */
  predicate ActsBoolean(t: Table, s: Sym) {
    s.Type().Boolean? || (s.Type().Tristate? && !t.modules)
  }

  function Lift(t: Table, s: Sym, v: Tri): Tri {
    if v == 1 && ActsBoolean(t, s) then 2 else v
  }

  function ConstValue(s: Sym): Tri {
    if s == Yes then 2 else if s == Mod then 1 else 0
  }

  function PairEnv(t: Table, l: Sym, lv: Tri, rv: Tri): Env {
    Env(x => if x == l then lv else rv, t.str, t.num)
  }

  /** A comparison only looks at its two operands. */
  function CompValue(t: Table, rel: Rel, l: Sym, lv: Tri, r: Sym, rv: Tri): Tri {
    Relate(rel, Compare(PairEnv(t, l, lv, rv), l, r))
  }

  /** The end of sym_calc_value, from the parts: `chosen` is the user's value within the
      visibility, or the default joined with what is implied. */
  function Settle(t: Table, s: Sym, chosen: Tri, rev: Tri, implied: Tri): Tri {
    var v := Combine(Or, chosen, rev);
    if v == 1 && (ActsBoolean(t, s) || implied == 2) then 2 else v
  }

  // ---------------------------------------------------------------- the recursive definition

  function Plain(t: Table, u: Users, s: Sym): Tri
    requires Acyclic(t)
    decreases if s in t.g then t.rank[s] + 1 else 0, 4
  {
    if s !in t.g then ConstValue(s)
    else
      var d, n := t.g[s], t.rank[s];
      var vis := PlainVisible(t, u, s);
      var chosen :=
        if vis != 0 && s in u then Combine(And, u[s], vis)
        else Combine(Or, PlainDefault(t, u, d.defaults, n), PlainImplied(t, u, s));
      Settle(t, s, chosen, PlainRev(t, u, s), PlainImplied(t, u, s))
  }

  function PlainExpr(t: Table, u: Users, e: Expr, n: nat): Tri
    requires Acyclic(t) && Below(t, e, n)
    decreases n + 1, 0, e
  {
    match e
    case Symbol(s) => Plain(t, u, s)
    case Not(a) => 2 - PlainExpr(t, u, a, n)
    case Comp(rel, l, r) => CompValue(t, rel, l, Plain(t, u, l), r, Plain(t, u, r))
    case Bin(op, l, r) => Combine(op, PlainExpr(t, u, l, n), PlainExpr(t, u, r, n))
  }

  /** expr_calc_value: an absent expression is y. */
  function PlainOpt(t: Table, u: Users, o: Option<Expr>, n: nat): Tri
    requires Acyclic(t) && BelowOpt(t, o, n)
    decreases n + 1, 1
  {
    if o.None? then 2 else PlainExpr(t, u, o.value, n)
  }

  function PlainPrompts(t: Table, u: Users, ps: seq<Option<Expr>>, n: nat): Tri
    requires Acyclic(t) && forall i :: 0 <= i < |ps| ==> BelowOpt(t, ps[i], n)
    decreases n + 1, 2, |ps|
  {
    if ps == [] then 0
    else
      assert BelowOpt(t, ps[0], n);
      Combine(Or, PlainOpt(t, u, ps[0], n), PlainPrompts(t, u, ps[1..], n))
  }

  function PlainVisible(t: Table, u: Users, s: Sym): Tri
    requires Acyclic(t) && s in t.g
    decreases t.rank[s] + 1, 3, 0
  {
    Lift(t, s, PlainPrompts(t, u, t.g[s].prompts, t.rank[s]))
  }

  function PlainDir(t: Table, u: Users, s: Sym): Tri
    requires Acyclic(t) && s in t.g
    decreases t.rank[s] + 1, 3, 0
  {
    Lift(t, s, PlainOpt(t, u, t.g[s].dirDep, t.rank[s]))
  }

  function PlainRev(t: Table, u: Users, s: Sym): Tri
    requires Acyclic(t) && s in t.g
    decreases t.rank[s] + 1, 3, 0
  {
    Lift(t, s, if t.g[s].revDep.None? then 0 else PlainOpt(t, u, t.g[s].revDep, t.rank[s]))
  }

  function PlainImplied(t: Table, u: Users, s: Sym): Tri
    requires Acyclic(t) && s in t.g
    decreases t.rank[s] + 1, 3, 1
  {
    Lift(t, s, if t.g[s].implied.None? || PlainDir(t, u, s) == 0 then 0
               else PlainOpt(t, u, t.g[s].implied, t.rank[s]))
  }

  /** The first default whose condition is not n, within its condition. */
  function PlainDefault(t: Table, u: Users, ds: seq<Default>, n: nat): Tri
    requires Acyclic(t)
    requires forall i :: 0 <= i < |ds| ==> BelowOpt(t, ds[i].visible, n) && BelowOpt(t, ds[i].expr, n)
    decreases n + 1, 2, |ds|
  {
    if ds == [] then 0
    else
      assert BelowOpt(t, ds[0].visible, n);
      var vis := PlainOpt(t, u, ds[0].visible, n);
      if vis == 0 then PlainDefault(t, u, ds[1..], n)
      else Combine(And, PlainOpt(t, u, ds[0].expr, n), vis)
  }

  /** Boolean symbols are never m, so that the values form an assignment of the kind expressions
      are rewritten under. */
  lemma PlainIsGood(t: Table, u: Users, env: Env)
    requires Acyclic(t) && forall s :: env.tri(s) == Plain(t, u, s)
    ensures Good(env)
  {
    hide PlainDefault, PlainVisible, PlainRev, PlainImplied;
    forall s: Sym | s.Type().Boolean? ensures Plain(t, u, s) != 1 {
    }
    assert Plain(t, u, Yes) == 2 && Plain(t, u, Mod) == 1 && Plain(t, u, No) == 0;
  }

  /** The value of an expression is its value under the assignment of the symbols' values. */
  lemma {:induction false} PlainIsValue(t: Table, u: Users, e: Expr, n: nat, env: Env)
    requires Acyclic(t) && Below(t, e, n)
    requires env.str == t.str && env.num == t.num && forall s :: env.tri(s) == Plain(t, u, s)
    ensures PlainExpr(t, u, e, n) == Value(env, e)
  {
    hide Plain, Compare;
    match e
    case Not(a) => PlainIsValue(t, u, a, n, env);
    case Bin(_, l, r) =>
      PlainIsValue(t, u, l, n, env);
      PlainIsValue(t, u, r, n, env);
    case Comp(_, l, r) =>
      CompareLocal(env, PairEnv(t, l, Plain(t, u, l), Plain(t, u, r)), l, r);
    case _ =>
  }

  // ---------------------------------------------------------------- what the values mean

  /** The highest value of some expressions, n when there are none. */
  ghost predicate Highest(env: Env, es: seq<Option<Expr>>, v: Tri) {
    && (forall i :: 0 <= i < |es| ==> ValueOf(env, es[i]) <= v)
    && (v != 0 ==> exists i :: 0 <= i < |es| && ValueOf(env, es[i]) == v)
  }

  /** The earliest default with a condition above n. */
  ghost predicate Decides(env: Env, ds: seq<Default>, i: nat) {
    && i < |ds| && ValueOf(env, ds[i].visible) != 0
    && forall j :: 0 <= j < i ==> ValueOf(env, ds[j].visible) == 0
  }

  /** It gives the smaller of its value and its condition; without one the default is n. */
  ghost predicate DefaultGives(env: Env, ds: seq<Default>, v: Tri) {
    && (v == 0 || exists i: nat :: Decides(env, ds, i))
    && forall i: nat :: Decides(env, ds, i) ==> v == Combine(And, ValueOf(env, ds[i].expr), ValueOf(env, ds[i].visible))
  }

  ghost predicate IsAssignment(t: Table, u: Users, env: Env)
    requires Acyclic(t)
  {
    env.str == t.str && env.num == t.num && forall s :: env.tri(s) == Plain(t, u, s)
  }

  lemma PlainOptIsValue(t: Table, u: Users, o: Option<Expr>, n: nat, env: Env)
    requires Acyclic(t) && BelowOpt(t, o, n) && IsAssignment(t, u, env)
    ensures PlainOpt(t, u, o, n) == ValueOf(env, o)
  {
    if o.Some? {
      PlainIsValue(t, u, o.value, n, env);
    }
  }

  lemma {:induction false} PlainPromptsIsHighest(t: Table, u: Users, ps: seq<Option<Expr>>, n: nat, env: Env)
    requires Acyclic(t) && IsAssignment(t, u, env) && forall i :: 0 <= i < |ps| ==> BelowOpt(t, ps[i], n)
    ensures Highest(env, ps, PlainPrompts(t, u, ps, n))
  {
    hide PlainOpt, BelowOpt, IsAssignment, ValueOf;
    if ps != [] {
      PlainOptIsValue(t, u, ps[0], n, env);
      PlainPromptsIsHighest(t, u, ps[1..], n, env);
      var v := PlainPrompts(t, u, ps, n);
      assert forall i :: 1 <= i < |ps| ==> ps[i] == ps[1..][i - 1];
      if v != 0 && v != ValueOf(env, ps[0]) {
        var i :| 0 <= i < |ps| - 1 && ValueOf(env, ps[1..][i]) == v;
        assert ps[i + 1] == ps[1..][i];
      }
    }
  }

  lemma {:induction false} PlainDefaultGives(t: Table, u: Users, ds: seq<Default>, n: nat, env: Env)
    requires Acyclic(t) && IsAssignment(t, u, env)
    requires forall i :: 0 <= i < |ds| ==> BelowOpt(t, ds[i].visible, n) && BelowOpt(t, ds[i].expr, n)
    ensures DefaultGives(env, ds, PlainDefault(t, u, ds, n))
  {
    hide PlainOpt, BelowOpt, IsAssignment, ValueOf;
    if ds != [] {
      PlainOptIsValue(t, u, ds[0].visible, n, env);
      PlainOptIsValue(t, u, ds[0].expr, n, env);
      if ValueOf(env, ds[0].visible) == 0 {
        PlainDefaultGives(t, u, ds[1..], n, env);
        NextDecides(env, ds);
      } else {
        assert Decides(env, ds, 0);
        assert forall i: nat :: Decides(env, ds, i) ==> i == 0;
      }
    }
  }

  lemma NextDecides(env: Env, ds: seq<Default>)
    requires ds != [] && ValueOf(env, ds[0].visible) == 0
    ensures forall v: Tri :: DefaultGives(env, ds[1..], v) ==> DefaultGives(env, ds, v)
  {
    hide ValueOf;
    forall i: nat | Decides(env, ds, i) ensures i > 0 && Decides(env, ds[1..], i - 1) {
      assert forall j :: 0 <= j < i - 1 ==> ds[1..][j] == ds[j + 1];
    }
    forall i: nat | Decides(env, ds[1..], i) ensures Decides(env, ds, i + 1) {
      assert forall j :: 1 <= j < i + 1 ==> ds[j] == ds[1..][j - 1];
    }
  }

  /** What a symbol's value is, given the assignment of all values. Its visibility is the highest of
      its prompts' conditions; the user's value counts within it, and where there is none the
      default and, if the direct dependency is not n, what is implied; the reverse dependency is a
      lower bound; and a boolean is never m. */
  lemma ValueIs(t: Table, u: Users, s: Sym, env: Env) returns (prompt: Tri, default: Tri)
    requires Acyclic(t) && s in t.g && IsAssignment(t, u, env)
    ensures Highest(env, t.g[s].prompts, prompt) && DefaultGives(env, t.g[s].defaults, default)
    ensures
      var d := t.g[s];
      var boolean := s.Type().Boolean? || (s.Type().Tristate? && !t.modules);
      var visible := if prompt == 1 && boolean then 2 else prompt;
      var reverse := if d.revDep.None? then 0 else ValueOf(env, d.revDep);
      var rev := if reverse == 1 && boolean then 2 else reverse;
      var implies := if d.implied.None? || ValueOf(env, d.dirDep) == 0 then 0 else ValueOf(env, d.implied);
      var implied := if implies == 1 && boolean then 2 else implies;
      var chosen := if visible != 0 && s in u then (if u[s] < visible then u[s] else visible)
                    else if default > implied then default else implied;
      var v := if chosen > rev then chosen else rev;
      env.tri(s) == if v == 1 && (boolean || implied == 2) then 2 else v
  {
    hide PlainPrompts, PlainOpt, PlainDefault, Highest, DefaultGives, BelowOpt, ValueOf;
    var d, n := t.g[s], t.rank[s];
    assert env.tri(s) == Plain(t, u, s);
    DependenciesBelow(t, s);
    PlainPromptsIsHighest(t, u, d.prompts, n, env);
    PlainDefaultGives(t, u, d.defaults, n, env);
    PlainOptIsValue(t, u, d.dirDep, n, env);
    PlainOptIsValue(t, u, d.revDep, n, env);
    PlainOptIsValue(t, u, d.implied, n, env);
    prompt, default := PlainPrompts(t, u, d.prompts, n), PlainDefault(t, u, d.defaults, n);
    var boolean := s.Type().Boolean? || (s.Type().Tristate? && !t.modules);
    assert PlainVisible(t, u, s) == if prompt == 1 && boolean then 2 else prompt;
    assert PlainDir(t, u, s) == 0 <==> ValueOf(env, d.dirDep) == 0;
    var reverse: Tri := if d.revDep.None? then 0 else ValueOf(env, d.revDep);
    assert PlainRev(t, u, s) == if reverse == 1 && boolean then 2 else reverse;
    var implies: Tri := if d.implied.None? || ValueOf(env, d.dirDep) == 0 then 0 else ValueOf(env, d.implied);
    assert PlainImplied(t, u, s) == if implies == 1 && boolean then 2 else implies;
    hide PlainVisible, PlainDir, PlainRev, PlainImplied;
  }

  // ---------------------------------------------------------------- the evaluator

  /** The computed fields of a symbol other than its value. */
  datatype Fields = Fields(visible: Tri, dirDep: Tri, revDep: Tri, implied: Tri)

  /** An entry that did not change. */
  predicate Kept(m: map<Sym, Fields>, m': map<Sym, Fields>, s: Sym) {
    (s in m <==> s in m') && (s in m ==> m'[s] == m[s])
  }

  ghost predicate FieldsRight(t: Table, u: Users, s: Sym, f: Fields)
    requires Acyclic(t) && s in t.g
  {
    && f.visible == PlainVisible(t, u, s) && f.dirDep == PlainDir(t, u, s)
    && f.revDep == PlainRev(t, u, s) && f.implied == PlainImplied(t, u, s)
  }

  /** What is marked valid is right, except for the symbols being computed right now. */
  ghost predicate Right(t: Table, u: Users, valid: set<Sym>, curr: map<Sym, Tri>, fields: map<Sym, Fields>,
                        busy: set<Sym>)
  {
    && Acyclic(t) && busy <= valid <= t.g.Keys
    && forall s :: s in valid && s !in busy ==>
         s in curr && s in fields && curr[s] == Plain(t, u, s) && FieldsRight(t, u, s, fields[s])
  }

  class Evaluator {
    const t: Table
    var users: Users
    var valid: set<Sym>           // SYMBOL_VALID
    var curr: map<Sym, Tri>
    var fields: map<Sym, Fields>

    ghost predicate Valid(busy: set<Sym>)
      reads this
      ensures Valid(busy) ==> Acyclic(t)
    {
      Right(t, users, valid, curr, fields, busy)
    }

    /** The symbols being computed depend on everything that is computed for them. */
    ghost predicate Free(busy: set<Sym>, n: nat)
      requires Acyclic(t)
    {
      forall b :: b in busy && b in t.g ==> n <= t.rank[b]
    }

    constructor (t: Table, users: Users)
      requires Acyclic(t)
      ensures Valid({}) && this.t == t && this.users == users && valid == {}
    {
      this.t, this.users, valid := t, users, {};
      curr, fields := map[], map[];
    }

    /** sym_clear_all_valid. */
    method ClearAllValid()
      requires Acyclic(t)
      modifies this`valid
      ensures valid == {} && Valid({})
    {
      valid := {};
    }

    /** sym_calc_value. The symbol is marked before anything it depends on is looked at; since
        nothing depends on itself, the mark is not seen before the value is there. */
    method CalcValue(s: Sym, ghost busy: set<Sym>)
      requires Valid(busy) && s !in busy && Free(busy, if s in t.g then t.rank[s] + 1 else 0)
      modifies this`valid, this`curr, this`fields
      ensures Valid(busy) && old(valid) <= valid
      ensures s in t.g ==> s in valid && s in curr && curr[s] == Plain(t, users, s)
      ensures s in t.g ==> s in fields && FieldsRight(t, users, s, fields[s])
      ensures forall b :: b in busy ==> Kept(old(fields), fields, b)
      decreases if s in t.g then t.rank[s] + 1 else 0, 4
    {
      hide PlainVisible, PlainDir, PlainRev, PlainImplied, PlainDefault;
      if s !in t.g || s in valid {
        return;
      }
      ghost var busy' := busy + {s};
      valid := valid + {s};
      ghost var marked := valid;
      CalcVisibility(s, busy');
      curr := curr[s := 0];
      var v: Tri;
      if fields[s].visible != 0 && s in users {
        v := Combine(And, users[s], fields[s].visible);
      } else {
        v := CalcDefault(t.g[s].defaults, t.rank[s], busy');
        if fields[s].implied != 0 {
          v := Combine(Or, v, fields[s].implied);
        }
      }
      v := Combine(Or, v, fields[s].revDep);
      if v == 1 && (ActsBoolean(t, s) || fields[s].implied == 2) {
        v := 2;
      }
      assert v == Plain(t, users, s);
      Computed(t, users, valid, curr, fields, busy, s);
      curr := curr[s := v];
      assert s in marked;
    }

    /** sym_set_tristate_value: accepted if nothing changes or the value is within the range; then
        everything is to be computed again, and the symbol's value will be the one asked for. */
    method SetTristateValue(s: Sym, val: Tri) returns (ok: bool)
      requires Valid({}) && s in t.g && s in valid
      modifies this`users, this`valid
      ensures ok <==> val == Plain(t, old(users), s) || WithinRange(t, s, fields[s], val)
      ensures !ok ==> users == old(users) && valid == old(valid) && Valid({})
      ensures ok ==> users == old(users)[s := val]
      ensures ok && val != Plain(t, old(users), s) ==> Valid({}) && valid == {} && Plain(t, users, s) == val
      ensures ok && val == Plain(t, old(users), s) ==> valid == old(valid)
    {
      hide PlainVisible, PlainDir, PlainRev, PlainImplied, PlainDefault, Plain;
      var oldval := curr[s];
      if oldval != val && !WithinRange(t, s, fields[s], val) {
        return false;
      }
      if WithinRange(t, s, fields[s], val) {
        AcceptedIsRealised(t, users, s, fields[s], val);
      }
      users := users[s := val];
      if oldval != val {
        ClearAllValid();
      }
      return true;
    }

    /** expr_calc_value: the symbols an expression mentions are computed on the way. */
    method CalcExpr(e: Expr, ghost n: nat, ghost busy: set<Sym>) returns (v: Tri)
      requires Valid(busy) && Below(t, e, n) && Free(busy, n)
      modifies this`valid, this`curr, this`fields
      ensures Valid(busy) && old(valid) <= valid && v == PlainExpr(t, users, e, n)
      ensures forall b :: b in busy ==> Kept(old(fields), fields, b)
      decreases n + 1, 0, e
    {
      match e
      case Symbol(s) =>
        CalcValue(s, busy);
        v := if s in t.g then curr[s] else ConstValue(s);
      case Not(a) =>
        v := CalcExpr(a, n, busy);
        v := 2 - v;
      case Bin(op, l, r) =>
        var x := CalcExpr(l, n, busy);
        var y := CalcExpr(r, n, busy);
        v := Combine(op, x, y);
      case Comp(rel, l, r) =>
        CalcValue(l, busy);
        var x := if l in t.g then curr[l] else ConstValue(l);
        CalcValue(r, busy);
        var y := if r in t.g then curr[r] else ConstValue(r);
        v := CompValue(t, rel, l, x, r, y);
    }

    method CalcOpt(o: Option<Expr>, ghost n: nat, ghost busy: set<Sym>) returns (v: Tri)
      requires Valid(busy) && BelowOpt(t, o, n) && Free(busy, n)
      modifies this`valid, this`curr, this`fields
      ensures Valid(busy) && old(valid) <= valid && v == PlainOpt(t, users, o, n)
      ensures forall b :: b in busy ==> Kept(old(fields), fields, b)
      decreases n + 1, 1
    {
      if o.None? {
        return 2;
      }
      v := CalcExpr(o.value, n, busy);
    }

    /** sym_calc_visibility. */
    method CalcVisibility(s: Sym, ghost busy: set<Sym>)
      requires Valid(busy) && s in t.g && s in busy && Free(busy, t.rank[s])
      modifies this`valid, this`curr, this`fields
      ensures Valid(busy) && old(valid) <= valid
      ensures s in fields && FieldsRight(t, users, s, fields[s])
      ensures forall b :: b in busy && b != s ==> Kept(old(fields), fields, b)
      decreases t.rank[s] + 1, 3, 2
    {
      hide PlainPrompts, PlainOpt, Right;
      ghost var n := t.rank[s];
      DependenciesBelow(t, s);
      var v := CalcPrompts(t.g[s].prompts, n, busy);
      var visible := Lift(t, s, v);
      v := CalcOpt(t.g[s].dirDep, n, busy);
      var dirDep := Lift(t, s, v);
      v := 0;
      if t.g[s].revDep.Some? {
        v := CalcOpt(t.g[s].revDep, n, busy);
      }
      var revDep := Lift(t, s, v);
      v := 0;
      if t.g[s].implied.Some? && dirDep != 0 {
        v := CalcOpt(t.g[s].implied, n, busy);
      }
      var implied := Lift(t, s, v);
      assert visible == PlainVisible(t, users, s) && dirDep == PlainDir(t, users, s);
      assert revDep == PlainRev(t, users, s);
      assert implied == PlainImplied(t, users, s);
      BusyFieldsFree(t, users, valid, curr, fields, busy, s, Fields(visible, dirDep, revDep, implied));
      fields := fields[s := Fields(visible, dirDep, revDep, implied)];
    }

    /** The prompts are joined by a loop. */
    method CalcPrompts(ps: seq<Option<Expr>>, ghost n: nat, ghost busy: set<Sym>) returns (v: Tri)
      requires Valid(busy) && Free(busy, n) && forall i :: 0 <= i < |ps| ==> BelowOpt(t, ps[i], n)
      modifies this`valid, this`curr, this`fields
      ensures Valid(busy) && old(valid) <= valid && v == PlainPrompts(t, users, ps, n)
      ensures forall b :: b in busy ==> Kept(old(fields), fields, b)
      decreases n + 1, 2, 0
    {
      v := 0;
      for i := 0 to |ps|
        invariant Valid(busy) && old(valid) <= valid
        invariant PlainPrompts(t, users, ps, n) == Combine(Or, v, PlainPrompts(t, users, ps[i..], n))
        invariant forall b :: b in busy ==> Kept(old(fields), fields, b)
      {
        var x := CalcOpt(ps[i], n, busy);
        v := Combine(Or, v, x);
        assert ps[i..][1..] == ps[i + 1..];
      }
    }

    /** sym_get_default_prop, and the value it gives. */
    method CalcDefault(ds: seq<Default>, ghost n: nat, ghost busy: set<Sym>) returns (v: Tri)
      requires Valid(busy) && Free(busy, n)
      requires forall i :: 0 <= i < |ds| ==> BelowOpt(t, ds[i].visible, n) && BelowOpt(t, ds[i].expr, n)
      modifies this`valid, this`curr, this`fields
      ensures Valid(busy) && old(valid) <= valid && v == PlainDefault(t, users, ds, n)
      ensures forall b :: b in busy ==> Kept(old(fields), fields, b)
      decreases n + 1, 2, 0
    {
      for i := 0 to |ds|
        invariant Valid(busy) && old(valid) <= valid
        invariant PlainDefault(t, users, ds, n) == PlainDefault(t, users, ds[i..], n)
        invariant forall b :: b in busy ==> Kept(old(fields), fields, b)
      {
        assert ds[i..][1..] == ds[i + 1..];
        var x := CalcOpt(ds[i].visible, n, busy);
        if x != 0 {
          v := CalcOpt(ds[i].expr, n, busy);
          return Combine(And, v, x);
        }
      }
      v := 0;
    }
  }

  // ---------------------------------------------------------------- changing a user value

  /** sym_tristate_within_range. */
  predicate WithinRange(t: Table, s: Sym, f: Fields, val: Tri) {
    && f.visible != 0
    && s.IsBoolOrTri()
    && !(ActsBoolean(t, s) && val == 1)
    && f.visible > f.revDep
    && !(f.implied == 2 && val == 1)
    && f.revDep <= val <= f.visible
  }

  /** The users' values agree on everything of a rank below `k`. */
  ghost predicate Agree(t: Table, u: Users, w: Users, k: nat) {
    forall s :: s in t.g && s in t.rank && t.rank[s] < k ==> (s in u <==> s in w) && (s in u ==> u[s] == w[s])
  }

  lemma {:induction false} SamePlain(t: Table, u: Users, w: Users, k: nat, s: Sym)
    requires Acyclic(t) && Agree(t, u, w, k) && (s in t.g ==> t.rank[s] < k)
    ensures Plain(t, u, s) == Plain(t, w, s)
    decreases if s in t.g then t.rank[s] + 1 else 0, 4
  {
    hide PlainVisible, PlainDir, PlainRev, PlainImplied, PlainDefault;
    if s in t.g {
      SameFields(t, u, w, k, s);
      DependenciesBelow(t, s);
      SameDefault(t, u, w, k, t.g[s].defaults, t.rank[s]);
    }
  }

  lemma {:induction false} SameFields(t: Table, u: Users, w: Users, k: nat, s: Sym)
    requires Acyclic(t) && Agree(t, u, w, k) && s in t.g && t.rank[s] <= k
    ensures PlainVisible(t, u, s) == PlainVisible(t, w, s) && PlainDir(t, u, s) == PlainDir(t, w, s)
    ensures PlainRev(t, u, s) == PlainRev(t, w, s) && PlainImplied(t, u, s) == PlainImplied(t, w, s)
    decreases t.rank[s] + 1, 3
  {
    hide PlainPrompts, PlainOpt;
    var d, n := t.g[s], t.rank[s];
    DependenciesBelow(t, s);
    SamePrompts(t, u, w, k, d.prompts, n);
    SameOpt(t, u, w, k, d.dirDep, n);
    SameOpt(t, u, w, k, d.revDep, n);
    SameOpt(t, u, w, k, d.implied, n);
  }

  lemma {:induction false} SameExpr(t: Table, u: Users, w: Users, k: nat, e: Expr, n: nat)
    requires Acyclic(t) && Agree(t, u, w, k) && Below(t, e, n) && n <= k
    ensures PlainExpr(t, u, e, n) == PlainExpr(t, w, e, n)
    decreases n + 1, 0, e
  {
    hide Plain;
    match e
    case Symbol(s) => SamePlain(t, u, w, k, s);
    case Not(a) => SameExpr(t, u, w, k, a, n);
    case Comp(_, l, r) =>
      SamePlain(t, u, w, k, l);
      SamePlain(t, u, w, k, r);
    case Bin(_, l, r) =>
      SameExpr(t, u, w, k, l, n);
      SameExpr(t, u, w, k, r, n);
  }

  lemma {:induction false} SameOpt(t: Table, u: Users, w: Users, k: nat, o: Option<Expr>, n: nat)
    requires Acyclic(t) && Agree(t, u, w, k) && BelowOpt(t, o, n) && n <= k
    ensures PlainOpt(t, u, o, n) == PlainOpt(t, w, o, n)
    decreases n + 1, 1
  {
    hide PlainExpr;
    if o.Some? {
      SameExpr(t, u, w, k, o.value, n);
    }
  }

  lemma {:induction false} SamePrompts(t: Table, u: Users, w: Users, k: nat, ps: seq<Option<Expr>>, n: nat)
    requires Acyclic(t) && Agree(t, u, w, k) && n <= k && forall i :: 0 <= i < |ps| ==> BelowOpt(t, ps[i], n)
    ensures PlainPrompts(t, u, ps, n) == PlainPrompts(t, w, ps, n)
    decreases n + 1, 2, |ps|
  {
    hide PlainOpt;
    if ps != [] {
      assert BelowOpt(t, ps[0], n);
      SameOpt(t, u, w, k, ps[0], n);
      SamePrompts(t, u, w, k, ps[1..], n);
    }
  }

  lemma {:induction false} SameDefault(t: Table, u: Users, w: Users, k: nat, ds: seq<Default>, n: nat)
    requires Acyclic(t) && Agree(t, u, w, k) && n <= k
    requires forall i :: 0 <= i < |ds| ==> BelowOpt(t, ds[i].visible, n) && BelowOpt(t, ds[i].expr, n)
    ensures PlainDefault(t, u, ds, n) == PlainDefault(t, w, ds, n)
    decreases n + 1, 2, |ds|
  {
    hide PlainOpt;
    if ds != [] {
      assert BelowOpt(t, ds[0].visible, n);
      SameOpt(t, u, w, k, ds[0].visible, n);
      SameOpt(t, u, w, k, ds[0].expr, n);
      SameDefault(t, u, w, k, ds[1..], n);
    }
  }

  /** Every accepted change is realised: a value within the range is exactly the value the symbol
      then gets. A symbol's fields do not depend on its own user value. */
  lemma AcceptedIsRealised(t: Table, u: Users, s: Sym, f: Fields, val: Tri)
    requires Acyclic(t) && s in t.g && FieldsRight(t, u, s, f) && WithinRange(t, s, f, val)
    ensures Plain(t, u[s := val], s) == val
    ensures FieldsRight(t, u[s := val], s, f)
  {
    hide PlainVisible, PlainDir, PlainRev, PlainImplied, PlainDefault;
    SameFields(t, u, u[s := val], t.rank[s], s);
  }

  /** The range is exact: a new value is refused only if setting it would not give it, apart from two
      cases of a symbol that can be set to at most m. Selected to m, it cannot be taken down from a
      default of y; implied to y, it cannot be set to y, which any value above n would make it. */
  lemma RangeIsExact(t: Table, u: Users, s: Sym, f: Fields, val: Tri)
    requires Acyclic(t) && s in t.g && FieldsRight(t, u, s, f) && val != Plain(t, u, s)
    ensures WithinRange(t, s, f, val)
            || (f.visible == 1 && val == 1 && f.revDep == 1 && f.implied != 2)
            || (f.visible == 1 && val == 2 && f.implied == 2)
            <==> Plain(t, u[s := val], s) == val
  {
    hide PlainVisible, PlainDir, PlainRev, PlainImplied, PlainDefault;
    SameFields(t, u, u[s := val], t.rank[s], s);
    DependenciesBelow(t, s);
    SameDefault(t, u, u[s := val], t.rank[s], t.g[s].defaults, t.rank[s]);
    VisibleIsLifted(t, u, s);
  }

  /** Setting a symbol to the value it has is accepted without looking at the range. It is then
      realised unless the symbol is y by default where the user may choose at most m. */
  lemma SameValueIsRealised(t: Table, u: Users, s: Sym, f: Fields)
    requires Acyclic(t) && s in t.g && FieldsRight(t, u, s, f)
    ensures Plain(t, u[s := Plain(t, u, s)], s) == Plain(t, u, s)
            <==> !(f.visible == 1 && Plain(t, u, s) == 2 && f.revDep < 2 && f.implied < 2)
  {
    hide PlainVisible, PlainDir, PlainRev, PlainImplied, PlainDefault;
    var val := Plain(t, u, s);
    SameFields(t, u, u[s := val], t.rank[s], s);
    DependenciesBelow(t, s);
    SameDefault(t, u, u[s := val], t.rank[s], t.g[s].defaults, t.rank[s]);
    VisibleIsLifted(t, u, s);
  }

  lemma VisibleIsLifted(t: Table, u: Users, s: Sym)
    requires Acyclic(t) && s in t.g
    ensures PlainVisible(t, u, s) == 1 ==> !ActsBoolean(t, s)
  {
  }

  /** Such a symbol exists: a tristate that is y by default and whose prompt depends on m. */
  lemma SameValueCanBeLost(name: string, str: Sym -> string, num: Sym -> Number)
    ensures var s := Config(name, Tristate);
            var d := Entry([Some(Symbol(Mod))], None, None, None, [Default(None, Some(Symbol(Yes)))]);
            var t := Table(map[s := d], map[s := 0], true, str, num);
            Acyclic(t) && Plain(t, map[], s) == 2 && Plain(t, map[s := 2], s) == 1
  {
    var s := Config(name, Tristate);
    var d := Entry([Some(Symbol(Mod))], None, None, None, [Default(None, Some(Symbol(Yes)))]);
    var t := Table(map[s := d], map[s := 0], true, str, num);
    assert EntryBelow(t, d, 0);
    assert Acyclic(t);
    OnePromptOneDefault(t, map[], s);
    OnePromptOneDefault(t, map[s := 2], s);
  }

  lemma OnePromptOneDefault(t: Table, u: Users, s: Sym)
    requires Acyclic(t) && s in t.g
    requires t.g[s] == Entry([Some(Symbol(Mod))], None, None, None, [Default(None, Some(Symbol(Yes)))])
    ensures PlainVisible(t, u, s) == Lift(t, s, 1) && PlainRev(t, u, s) == 0 && PlainImplied(t, u, s) == 0
    ensures PlainDefault(t, u, t.g[s].defaults, t.rank[s]) == 2
  {
    var d, n := t.g[s], t.rank[s];
    assert Plain(t, u, Mod) == 1 && Plain(t, u, Yes) == 2;
    assert PlainPrompts(t, u, d.prompts[1..], n) == 0;
    assert PlainOpt(t, u, d.prompts[0], n) == 1;
    assert PlainOpt(t, u, d.defaults[0].expr, n) == 2;
  }

  lemma DependenciesBelow(t: Table, s: Sym)
    requires Acyclic(t) && s in t.g
    ensures EntryBelow(t, t.g[s], t.rank[s])
  {
  }

  lemma BusyFieldsFree(t: Table, u: Users, valid: set<Sym>, curr: map<Sym, Tri>, fields: map<Sym, Fields>,
                       busy: set<Sym>, s: Sym, f: Fields)
    requires Right(t, u, valid, curr, fields, busy) && s in busy
    ensures Right(t, u, valid, curr, fields[s := f], busy)
  {
  }

  lemma Computed(t: Table, u: Users, valid: set<Sym>, curr: map<Sym, Tri>, fields: map<Sym, Fields>,
                 busy: set<Sym>, s: Sym)
    requires Right(t, u, valid, curr, fields, busy + {s}) && s in t.g && s !in busy
    requires s in fields && FieldsRight(t, u, s, fields[s])
    ensures Right(t, u, valid, curr[s := Plain(t, u, s)], fields, busy)
  {
  }
}
