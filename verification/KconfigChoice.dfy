/**
 A choice and its members. The choice records one of its members, and a visible member is y when
 it is the recorded one; evaluating either may have to evaluate the other first. Everything else
 has its value already, and the choice's own value does not depend on its members.
 */
module KconfigChoice {
  import opened Common
  import opened KconfigExpr

  /** `user` is the value the user gave the member, `fallback` what its own defaults give. */
  datatype Member = Member(sym: Sym, prompts: seq<Expr>, user: Option<Tri>, fallback: Tri)

  /** `own` is the choice's value before a member is looked for; `pick` the member the user chose;
      `defaults` the choice's defaults, each with the value of its condition. */
  datatype Choice = Choice(sym: Sym, own: Tri, members: seq<Member>, pick: Option<nat>,
                           defaults: seq<(Tri, nat)>, modules: bool, env: Env)

  /** The assignment in which the choice has value c. */
  function With(ch: Choice, c: Tri): Env {
    Env(x => TriWith(ch, c, x), ch.env.str, ch.env.num)
  }

  function TriWith(ch: Choice, c: Tri, s: Sym): Tri {
    if s == ch.sym then c else ch.env.tri(s)
  }

  /** Prompts of members have the choice as their parent dependency, so they are never above it. */
  ghost predicate Gated(ch: Choice) {
    forall i, j, c: Tri :: 0 <= i < |ch.members| && 0 <= j < |ch.members[i].prompts| ==>
      Value(With(ch, c), ch.members[i].prompts[j]) <= c
  }

  /** The user's pick and the defaults are members. */
  predicate PicksMembers(ch: Choice) {
    && (ch.pick.Some? ==> ch.pick.value < |ch.members|)
    && forall i :: 0 <= i < |ch.defaults| ==> ch.defaults[i].1 < |ch.members|
  }

  // ---------------------------------------------------------------- what the values are

  /** With the choice at y, a tristate member that is only visible as m is not visible. */
  function PromptTri(ch: Choice, m: Member, e: Expr, c: Tri): Tri {
    var v := Value(With(ch, c), e);
    if m.sym.Type().Tristate? && v == 1 && c == 2 then 0 else v
  }

  function Prompts(ch: Choice, m: Member, ps: seq<Expr>, c: Tri): Tri {
    if ps == [] then 0 else Combine(Or, PromptTri(ch, m, ps[0], c), Prompts(ch, m, ps[1..], c))
  }

  function Lift(ch: Choice, m: Member, v: Tri): Tri {
    if v == 1 && (!m.sym.Type().Tristate? || !ch.modules) then 2 else v
  }

  function Visible(ch: Choice, i: nat, c: Tri): Tri
    requires i < |ch.members|
  {
    Lift(ch, ch.members[i], Prompts(ch, ch.members[i], ch.members[i].prompts, c))
  }

  function FirstVisible(ch: Choice, i: nat): Option<nat>
    requires i <= |ch.members|
    decreases |ch.members| - i
  {
    if i == |ch.members| then None
    else if Visible(ch, i, 2) != 0 then Some(i)
    else FirstVisible(ch, i + 1)
  }

  function FirstDefault(ch: Choice, i: nat): Option<nat>
    requires PicksMembers(ch) && i <= |ch.defaults|
    decreases |ch.defaults| - i
  {
    if i == |ch.defaults| then FirstVisible(ch, 0)
    else if ch.defaults[i].0 != 0 && Visible(ch, ch.defaults[i].1, 2) != 0 then Some(ch.defaults[i].1)
    else FirstDefault(ch, i + 1)
  }

  /** The member a choice at y records: the user's pick, a default, or the first one visible. */
  function Recorded(ch: Choice): Option<nat>
    requires PicksMembers(ch)
  {
    if ch.pick.Some? && Visible(ch, ch.pick.value, 2) != 0 then ch.pick else FirstDefault(ch, 0)
  }

  /** A choice at y with nothing to choose falls back to n. */
  function Final(ch: Choice): Tri
    requires PicksMembers(ch)
  {
    if ch.own == 2 && Recorded(ch).None? then 0 else ch.own
  }

  function RecordedFinally(ch: Choice): Option<nat>
    requires PicksMembers(ch)
  {
    if ch.own == 2 then Recorded(ch) else None
  }

  /** A member's value from its visibility and the recorded member. */
  function Settle(ch: Choice, i: nat, vis: Tri, recorded: Option<nat>): Tri
    requires i < |ch.members|
  {
    var m := ch.members[i];
    if vis == 2 then if recorded == Some(i) then 2 else 0
    else
      var v := if vis != 0 && m.user.Some? then Combine(And, m.user.value, vis) else m.fallback;
      if v == 1 && (m.sym.Type().Boolean? || !ch.modules) then 2 else v
  }

  function MemberValue(ch: Choice, i: nat): Tri
    requires PicksMembers(ch) && i < |ch.members|
  {
    Settle(ch, i, Visible(ch, i, Final(ch)), RecordedFinally(ch))
  }

  // ---------------------------------------------------------------- exactly one

  lemma {:induction false} PromptsNeverM(ch: Choice, m: Member, ps: seq<Expr>)
    requires m.sym.Type().Tristate?
    ensures Prompts(ch, m, ps, 2) != 1
  {
    if ps != [] {
      PromptsNeverM(ch, m, ps[1..]);
    }
  }

  /** Under a choice at y a member is fully visible or not at all. */
  lemma VisibleIsYes(ch: Choice, i: nat)
    requires i < |ch.members|
    ensures Visible(ch, i, 2) != 1
  {
    var m := ch.members[i];
    if m.sym.Type().Tristate? {
      PromptsNeverM(ch, m, m.prompts);
    }
  }

  lemma {:induction false} FirstVisibleFinds(ch: Choice, i: nat)
    requires i <= |ch.members|
    ensures FirstVisible(ch, i).Some? ==>
              i <= FirstVisible(ch, i).value < |ch.members| && Visible(ch, FirstVisible(ch, i).value, 2) != 0
    ensures FirstVisible(ch, i).None? ==> forall j :: i <= j < |ch.members| ==> Visible(ch, j, 2) == 0
    decreases |ch.members| - i
  {
    if i < |ch.members| && Visible(ch, i, 2) == 0 {
      FirstVisibleFinds(ch, i + 1);
    }
  }

  lemma {:induction false} FirstDefaultFinds(ch: Choice, i: nat)
    requires PicksMembers(ch) && i <= |ch.defaults|
    ensures FirstDefault(ch, i).Some? ==>
              FirstDefault(ch, i).value < |ch.members| && Visible(ch, FirstDefault(ch, i).value, 2) != 0
    ensures FirstDefault(ch, i).None? ==> forall j :: 0 <= j < |ch.members| ==> Visible(ch, j, 2) == 0
    decreases |ch.defaults| - i
  {
    if i == |ch.defaults| {
      FirstVisibleFinds(ch, 0);
    } else {
      FirstDefaultFinds(ch, i + 1);
    }
  }

  /** A choice that is to be y ends up y exactly when it has a visible member; then exactly one of
      its visible members is y, and that is the one recorded. */
  lemma ExactlyOneYes(ch: Choice)
    requires PicksMembers(ch) && ch.own == 2
    ensures Final(ch) == 2 <==> exists i :: 0 <= i < |ch.members| && Visible(ch, i, 2) != 0
    ensures Final(ch) == 2 ==>
              var r := Recorded(ch);
              && r.Some? && r.value < |ch.members| && Visible(ch, r.value, 2) == 2
              && forall i :: 0 <= i < |ch.members| && Visible(ch, i, 2) != 0 ==>
                   (MemberValue(ch, i) == if i == r.value then 2 else 0)
  {
    hide Visible;
    FirstDefaultFinds(ch, 0);
    var r := Recorded(ch);
    if r.Some? {
      VisibleIsYes(ch, r.value);
    }
    forall i | 0 <= i < |ch.members| ensures Visible(ch, i, 2) != 1 {
      VisibleIsYes(ch, i);
    }
  }

  // ---------------------------------------------------------------- which one

  /** With the choice at y a member is visible exactly when one of its prompts is y, or is m and the
      member is no tristate. */
  lemma {:induction false} PromptsUnderY(ch: Choice, m: Member, ps: seq<Expr>)
    ensures Prompts(ch, m, ps, 2) != 0 <==>
      exists j :: 0 <= j < |ps|
        && (Value(With(ch, 2), ps[j]) == 2 || (Value(With(ch, 2), ps[j]) == 1 && !m.sym.Type().Tristate?))
  {
    if ps != [] {
      PromptsUnderY(ch, m, ps[1..]);
      assert ps == [ps[0]] + ps[1..];
      var v := Value(With(ch, 2), ps[0]);
      if v == 2 || (v == 1 && !m.sym.Type().Tristate?) {
        assert Value(With(ch, 2), ps[0]) == v;
      }
      assert forall j :: 1 <= j < |ps| ==> ps[j] == ps[1..][j - 1];
      assert forall j :: 0 <= j < |ps| - 1 ==> ps[1..][j] == ps[j + 1];
    }
  }

  lemma VisibleUnderY(ch: Choice, i: nat)
    requires i < |ch.members|
    ensures Visible(ch, i, 2) != 0 <==>
      var m := ch.members[i];
      exists j :: 0 <= j < |m.prompts|
        && (Value(With(ch, 2), m.prompts[j]) == 2
            || (Value(With(ch, 2), m.prompts[j]) == 1 && !m.sym.Type().Tristate?))
  {
    PromptsUnderY(ch, ch.members[i], ch.members[i].prompts);
  }

  /** `d` is the first default that is on, condition and target. */
  ghost predicate Decides(ch: Choice, d: nat)
    requires PicksMembers(ch)
  {
    && d < |ch.defaults| && ch.defaults[d].0 != 0 && Visible(ch, ch.defaults[d].1, 2) != 0
    && forall e :: 0 <= e < d ==> ch.defaults[e].0 == 0 || Visible(ch, ch.defaults[e].1, 2) == 0
  }

  lemma {:induction false} DefaultDecides(ch: Choice, i: nat, d: nat)
    requires PicksMembers(ch) && i <= d && Decides(ch, d)
    ensures FirstDefault(ch, i) == Some(ch.defaults[d].1)
    decreases d - i
  {
    if i < d {
      DefaultDecides(ch, i + 1, d);
    }
  }

  lemma {:induction false} NoDefaultDecides(ch: Choice, i: nat)
    requires PicksMembers(ch) && i <= |ch.defaults|
    requires forall e :: 0 <= e < |ch.defaults| ==> ch.defaults[e].0 == 0 || Visible(ch, ch.defaults[e].1, 2) == 0
    ensures FirstDefault(ch, i) == FirstVisible(ch, 0)
    decreases |ch.defaults| - i
  {
    if i < |ch.defaults| {
      NoDefaultDecides(ch, i + 1);
    }
  }

  lemma {:induction false} LeastIsFirst(ch: Choice, i: nat, k: nat)
    requires i <= k < |ch.members| && Visible(ch, k, 2) != 0
    requires forall j :: 0 <= j < k ==> Visible(ch, j, 2) == 0
    ensures FirstVisible(ch, i) == Some(k)
    decreases k - i
  {
    if i < k {
      LeastIsFirst(ch, i + 1, k);
    }
  }

  /** In a choice that is to be y: the user's pick is y if it is visible; failing that, the target
      of the earliest default whose condition is not n and whose target is visible; failing that,
      the first visible member. All other visible members are n. */
  lemma WhoIsYes(ch: Choice, k: nat)
    requires PicksMembers(ch) && ch.own == 2 && k < |ch.members| && Visible(ch, k, 2) != 0
    ensures MemberValue(ch, k) == 2 || MemberValue(ch, k) == 0
    ensures MemberValue(ch, k) == 2 <==>
      var picked := ch.pick.Some? && Visible(ch, ch.pick.value, 2) != 0;
      var default :=
        exists d :: 0 <= d < |ch.defaults| && ch.defaults[d].0 != 0 && Visible(ch, ch.defaults[d].1, 2) != 0;
      if picked then k == ch.pick.value
      else if default then
        exists d :: 0 <= d < |ch.defaults| && ch.defaults[d].1 == k && ch.defaults[d].0 != 0
          && forall e :: 0 <= e < d ==> ch.defaults[e].0 == 0 || Visible(ch, ch.defaults[e].1, 2) == 0
      else forall j :: 0 <= j < k ==> Visible(ch, j, 2) == 0
  {
    hide Visible;
    ExactlyOneYes(ch);
    var r := Recorded(ch).value;
    if ch.pick.Some? && Visible(ch, ch.pick.value, 2) != 0 {
    } else if d :| 0 <= d < |ch.defaults| && ch.defaults[d].0 != 0 && Visible(ch, ch.defaults[d].1, 2) != 0 {
      var first := FirstOn(ch, d);
      DefaultDecides(ch, 0, first);
    } else {
      NoDefaultDecides(ch, 0);
      var first := LeastVisible(ch, k);
      LeastIsFirst(ch, 0, first);
    }
  }

  lemma {:induction false} FirstOn(ch: Choice, d: nat) returns (first: nat)
    requires PicksMembers(ch) && d < |ch.defaults|
    requires ch.defaults[d].0 != 0 && Visible(ch, ch.defaults[d].1, 2) != 0
    ensures Decides(ch, first)
  {
    first := d;
    if e :| 0 <= e < d && ch.defaults[e].0 != 0 && Visible(ch, ch.defaults[e].1, 2) != 0 {
      first := FirstOn(ch, e);
    }
  }

  lemma {:induction false} LeastVisible(ch: Choice, k: nat) returns (first: nat)
    requires k < |ch.members| && Visible(ch, k, 2) != 0
    ensures first <= k && Visible(ch, first, 2) != 0 && forall j :: 0 <= j < first ==> Visible(ch, j, 2) == 0
  {
    first := k;
    if j :| 0 <= j < k && Visible(ch, j, 2) != 0 {
      first := LeastVisible(ch, j);
    }
  }

  /** In a choice that is not to be y nobody is recorded: a visible member has the user's value
      within its visibility, and one that is not has what its own defaults give; a boolean, and any
      member where modules are off, is y instead of m. */
  lemma NobodyRecorded(ch: Choice, i: nat)
    requires PicksMembers(ch) && i < |ch.members| && ch.own < 2
    ensures
      var m := ch.members[i];
      var vis := Visible(ch, i, ch.own);
      var v := if vis != 0 && m.user.Some? then (if m.user.value < vis then m.user.value else vis) else m.fallback;
      vis < 2 ==> MemberValue(ch, i) == if v == 1 && (m.sym.Type().Boolean? || !ch.modules) then 2 else v
    ensures Visible(ch, i, ch.own) == 2 ==> MemberValue(ch, i) == 0
  {
  }

  // ---------------------------------------------------------------- the evaluator

  /** An expression that does not mention the choice has the same value whatever the choice's is. */
  lemma Unmentioned(ch: Choice, e: Expr, c: Tri, d: Tri)
    requires !Occurs(ch.sym, e)
    ensures Value(With(ch, c), e) == Value(With(ch, d), e)
  {
    ValueIsLocal(With(ch, c), With(ch, d), e);
  }

  /** A prompt that does not mention the choice is n, since it is never above it. */
  lemma UngatedIsNo(ch: Choice, i: nat, j: nat)
    requires Gated(ch) && i < |ch.members| && j < |ch.members[i].prompts|
    requires !Occurs(ch.sym, ch.members[i].prompts[j])
    ensures forall c: Tri :: PromptTri(ch, ch.members[i], ch.members[i].prompts[j], c) == 0
    ensures forall c: Tri :: Value(With(ch, c), ch.members[i].prompts[j]) == 0
  {
    var e := ch.members[i].prompts[j];
    assert Value(With(ch, 0), e) <= 0;
    forall c: Tri ensures Value(With(ch, c), e) == 0 {
      Unmentioned(ch, e, c, 0);
    }
  }

  lemma PromptsStep(ch: Choice, m: Member, k: nat)
    requires k < |m.prompts|
    ensures forall c: Tri :: Prompts(ch, m, m.prompts[k..], c)
                             == Combine(Or, PromptTri(ch, m, m.prompts[k], c), Prompts(ch, m, m.prompts[k + 1..], c))
  {
    assert m.prompts[k..][1..] == m.prompts[k + 1..];
  }

  class Evaluator {
    const ch: Choice
    var done: bool                // SYMBOL_VALID of the choice
    var tri: Tri
    var val: Option<nat>
    var valid: set<nat>           // SYMBOL_VALID of the members
    var visible: map<nat, Tri>
    var curr: map<nat, Tri>

    /** The choice's value, once marked, is right; `busy` while its member is being looked for. */
    ghost predicate ChoiceRight(busy: bool)
      reads this
    {
      && PicksMembers(ch) && Gated(ch)
      && (done && busy ==> tri == ch.own == 2)
      && (done && !busy ==> tri == Final(ch) && val == RecordedFinally(ch))
    }

    ghost predicate MembersRight(except: set<nat>)
      reads this
    {
      PicksMembers(ch) &&
      forall i :: i in valid && i !in except ==> i < |ch.members| && i in curr && curr[i] == MemberValue(ch, i)
    }

    constructor (ch: Choice, tri: Tri, val: Option<nat>, visible: map<nat, Tri>, curr: map<nat, Tri>)
      requires PicksMembers(ch) && Gated(ch)
      ensures ChoiceRight(false) && MembersRight({}) && this.ch == ch && !done && valid == {}
    {
      this.ch, this.tri, this.val, this.visible, this.curr := ch, tri, val, visible, curr;
      done, valid := false, {};
    }

    /** An expression of a member's prompt. Where it mentions the choice, the choice is computed. */
    method CalcExpr(e: Expr, ghost busy: bool) returns (v: Tri)
      requires ChoiceRight(busy) && (busy ==> done)
      modifies this`done, this`tri, this`val, this`visible
      ensures ChoiceRight(busy) && (old(done) ==> done && tri == old(tri) && val == old(val) && visible == old(visible))
      ensures Occurs(ch.sym, e) ==> done
      ensures done == (old(done) || Occurs(ch.sym, e))
      ensures v == Value(With(ch, tri), e)
      decreases if done then 0 else 1, 1, e
    {
      match e
      case Symbol(s) =>
        if s == ch.sym {
          CalcChoice(busy);
          v := tri;
        } else {
          v := ch.env.tri(s);
        }
      case Not(a) =>
        v := CalcExpr(a, busy);
        v := 2 - v;
      case Bin(op, l, r) =>
        var x := CalcExpr(l, busy);
        ghost var t := tri;
        var y := CalcExpr(r, busy);
        if !Occurs(ch.sym, l) {
          Unmentioned(ch, l, t, tri);
        }
        v := Combine(op, x, y);
      case Comp(rel, l, r) =>
        if l == ch.sym || r == ch.sym {
          CalcChoice(busy);
        }
        v := Relate(rel, Compare(With(ch, tri), l, r));
    }

    /** sym_calc_value of the choice. */
    method CalcChoice(ghost busy: bool)
      requires ChoiceRight(busy) && (busy ==> done)
      modifies this`done, this`tri, this`val, this`visible
      ensures ChoiceRight(busy) && done
      ensures old(done) ==> tri == old(tri) && val == old(val) && visible == old(visible)
      decreases if done then 0 else 1, 0
    {
      if done {
        return;
      }
      done := true;
      tri, val := ch.own, None;
      if ch.own == 2 {
        val := CalcMember();
      }
    }

    /** sym_calc_choice: the members' visibilities, then the one to record. */
    method CalcMember() returns (r: Option<nat>)
      requires ChoiceRight(true) && done
      modifies this`done, this`tri, this`val, this`visible
      ensures done && val == old(val) && PicksMembers(ch) && Gated(ch)
      ensures r == Recorded(ch) && tri == (if r.None? then 0 else 2)
      decreases 0, 6
    {
      for i := 0 to |ch.members|
        invariant ChoiceRight(true) && done && val == old(val)
        invariant forall j :: 0 <= j < i ==> j in visible && visible[j] == Visible(ch, j, 2)
      {
        CalcVisibility(i, true);
      }
      if ch.pick.Some? && visible[ch.pick.value] != 0 {
        return ch.pick;
      }
      for i := 0 to |ch.defaults|
        invariant FirstDefault(ch, i) == FirstDefault(ch, 0)
      {
        if ch.defaults[i].0 != 0 && visible[ch.defaults[i].1] != 0 {
          return Some(ch.defaults[i].1);
        }
      }
      for i := 0 to |ch.members|
        invariant FirstVisible(ch, i) == FirstDefault(ch, 0)
      {
        if visible[i] != 0 {
          return Some(i);
        }
      }
      tri := 0;
      return None;
    }

    /** One prompt of a member. */
    method CalcPrompt(i: nat, k: nat, ghost busy: bool) returns (x: Tri)
      requires ChoiceRight(busy) && (busy ==> done) && i < |ch.members| && k < |ch.members[i].prompts|
      modifies this`done, this`tri, this`val, this`visible
      ensures ChoiceRight(busy) && (old(done) ==> done && tri == old(tri) && val == old(val) && visible == old(visible))
      ensures x == PromptTri(ch, ch.members[i], ch.members[i].prompts[k], tri)
      ensures !done ==> forall c: Tri :: PromptTri(ch, ch.members[i], ch.members[i].prompts[k], c) == 0
      decreases if done then 0 else 1, 2
    {
      var m := ch.members[i];
      if !Occurs(ch.sym, m.prompts[k]) {
        UngatedIsNo(ch, i, k);
      }
      hide Occurs, Recorded, FirstDefault, Gated;
      x := CalcExpr(m.prompts[k], busy);
      if m.sym.Type().Tristate? && x == 1 && tri == 2 {
        x := 0;
      }
    }

    /** sym_calc_visibility of a member. */
    method CalcVisibility(i: nat, ghost busy: bool)
      requires ChoiceRight(busy) && (busy ==> done) && i < |ch.members|
      modifies this`done, this`tri, this`val, this`visible
      ensures ChoiceRight(busy) && (old(done) ==> done && tri == old(tri) && val == old(val))
      ensures old(done) ==> forall j :: j != i && j in old(visible) ==> j in visible && visible[j] == old(visible)[j]
      ensures i in visible && visible[i] == Visible(ch, i, tri)
      ensures !done ==> forall c: Tri :: Visible(ch, i, c) == 0
      decreases if done then 0 else 1, 5
    {
      var m := ch.members[i];
      var v: Tri := 0;
      assert m.prompts[0..] == m.prompts;
      hide PromptTri, Recorded, FirstDefault, Gated, PicksMembers, Final;
      for k := 0 to |m.prompts|
        invariant ChoiceRight(busy) && (busy ==> done)
        invariant old(done) ==> done && tri == old(tri) && val == old(val) && visible == old(visible)
        invariant !done ==> v == 0
        invariant !done ==> forall c: Tri :: Prompts(ch, m, m.prompts, c) == Prompts(ch, m, m.prompts[k..], c)
        invariant Prompts(ch, m, m.prompts, tri) == Combine(Or, v, Prompts(ch, m, m.prompts[k..], tri))
      {
        PromptsStep(ch, m, k);
        var x := CalcPrompt(i, k, busy);
        v := Combine(Or, v, x);
      }
      visible := visible[i := Lift(ch, m, v)];
    }

    /** sym_calc_value of a member: right whether or not the choice was evaluated before. */
    method CalcValue(i: nat)
      requires ChoiceRight(false) && MembersRight({}) && i < |ch.members|
      modifies this
      ensures ChoiceRight(false) && MembersRight({}) && old(valid) <= valid
      ensures i in valid && curr[i] == MemberValue(ch, i)
    {
      if i in valid {
        return;
      }
      valid := valid + {i};
      CalcVisibility(i, false);
      var m := ch.members[i];
      var v: Tri;
      if visible[i] == 2 {
        v := if val == Some(i) then 2 else 0;
      } else {
        if visible[i] != 0 && m.user.Some? {
          v := Combine(And, m.user.value, visible[i]);
        } else {
          v := m.fallback;
        }
        if v == 1 && (m.sym.Type().Boolean? || !ch.modules) {
          v := 2;
        }
      }
      curr := curr[i := v];
    }

    /** After everything is cleared, the choice alone or any member alone may be asked for; what
        is found then is what `ExactlyOneYes` speaks about. */
    method ClearAllValid()
      requires PicksMembers(ch) && Gated(ch)
      modifies this`done, this`valid
      ensures ChoiceRight(false) && MembersRight({}) && !done && valid == {}
    {
      done, valid := false, {};
    }
  }
}
