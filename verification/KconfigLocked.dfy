/** A configuration in which m is offered for a symbol that setting it to m makes y. */
module KconfigLocked {
  import opened KconfigExpr
  import opened KconfigGrammar
  import opened KconfigValue
  import opened KconfigAssignable
  import opened KconfigLaws
  import opened KconfigCircles
  import opened Options

  /** MODULES is y; it selects T if m, and implies T. T is a tristate symbol with a prompt if m. */
  ghost function LockedConf(): (c: Conf)
    ensures |c.defs| == 5
  {
    var y := SymDef("y", Tristate, Some(2), true, false, [], [], [], Sym(1), Sym(1), Sym(0));
    var n := SymDef("n", Tristate, Some(0), true, false, [], [], [], Sym(1), Sym(1), Sym(1));
    var m := SymDef("m", Tristate, Some(1), true, false, [], [], [], Sym(1), Sym(1), Sym(2));
    var always := [Default(Sym(0), Sym(0))];
    var modules := SymDef("MODULES", Bool, None, false, true, [], always, [], Sym(1), Sym(1), Sym(0));
    var mOnly := And(Sym(2), Sym(3));
    var t := SymDef("T", Tristate, None, false, true, [mOnly], [], [], And(Sym(3), mOnly), Sym(3), Sym(0));
    Conf([y, n, m, modules, t], 3, (s, b) => None, (t, x) => "")
  }

  ghost function LockedEnv(): Env {
    [Val(2, "y"), Val(0, "n"), Val(1, "m"), Val(2, "y"), Val(2, "y")]
  }

  /** Symbol 2 is m and symbol 3, which is MODULES, is y. */
  ghost predicate Modular(c: Conf, env: Env) {
    && YesNo(c, env) && c.modules == 3 < |env|
    && IsBoolTri(c.defs[2].typ) && IsBoolTri(c.defs[3].typ) && env[2].tri == 1 && env[3].tri == 2
  }

  predicate ImpliedModule(d: SymDef) {
    && d.typ == Tristate && d.constTri.None? && d.defaults == [] && d.prompts == [And(Sym(2), Sym(3))]
    && d.revDep == And(Sym(3), And(Sym(2), Sym(3))) && d.weakRevDep == Sym(3)
  }

  lemma {:induction false} SymbolMeans(c: Conf, env: Env, e: Expr, s: SymId)
    requires Fits(c, env) && e == Sym(s) && s < |env| && IsBoolTri(c.defs[s].typ)
    ensures InRange(e, |env|) && Mean(c, env, e) == env[s].tri
  {
  }

  lemma {:induction false} BothMean(c: Conf, env: Env, e: Expr, l: Expr, r: Expr)
    requires Fits(c, env) && e == And(l, r) && InRange(l, |env|) && InRange(r, |env|)
    ensures InRange(e, |env|)
    ensures Mean(c, env, e) == if Mean(c, env, l) < Mean(c, env, r) then Mean(c, env, l) else Mean(c, env, r)
  {
  }

  lemma {:induction false} ImpliedModuleIsY(c: Conf, user: User, env: Env, d: SymDef)
    requires Modular(c, env) && DefOk(d, |env|) && ImpliedModule(d)
    ensures LockedToM(c, env, d) && Assignable(c, env, d) == [1] && ValOf(c, user, env, d) == TriVal(2)
  {
    var m, modules, both := Sym(2), Sym(3), d.prompts[0];
    SymbolMeans(c, env, m, 2);
    SymbolMeans(c, env, modules, 3);
    BothMean(c, env, both, m, modules);
    BothMean(c, env, d.revDep, modules, both);
    assert d.prompts[..0] == [] && PromptMax(c, env, []) == 0;
    assert PromptMax(c, env, d.prompts) == 1 && VisOf(c, env, d) == 1;
    assert Mean(c, env, Sym(c.modules)) == 2;
  }

  lemma {:induction false} SelectedUnder(c: Conf, d: SymDef, s: Expr, cond: Expr)
    requires d.revDep == And(s, cond) && s.Sym? && SelectorOk(c, s.id)
    ensures SelectsOk(c, d)
  {
    assert Operands(d.revDep, false) == [d.revDep] && Operands(s, true) == [s];
    assert Operands(d.revDep, true) == [s] + Operands(cond, true);
  }

  lemma {:induction false} LockedUses(c: Conf, i: SymId, j: SymId)
    requires c == LockedConf() && ConfOk(c) && i < 5 && Uses(c, i, j)
    ensures (i == 3 && j < 2) || (i == 4 && j < 4)
  {
  }

  lemma {:induction false} LockedOk()
    ensures ConfOk(LockedConf()) && ImpliedModule(LockedConf().defs[4]) && DefaultsTo(LockedConf().defs[3], 0)
  {
    var c := LockedConf();
    forall i | 0 <= i < 5 ensures DefOk(c.defs[i], 5) && SelectsOk(c, c.defs[i]) {
      if i == 4 { SelectedUnder(c, c.defs[4], Sym(3), c.defs[4].prompts[0]); } else { SelectedByNone(c, c.defs[i]); }
    }
  }

  lemma {:induction false} LockedRanked(rank: seq<nat>)
    requires rank == [0, 0, 0, 1, 2]
    ensures Ranked(LockedConf(), rank)
  {
    var c := LockedConf();
    LockedOk();
    forall i, j | 0 <= i < 5 && 0 <= j < 5 && Uses(c, i, j) ensures rank[j] < rank[i] { LockedUses(c, i, j); }
  }

  lemma {:induction false} LockedSolved(users: Users)
    requires |users| == 5
    ensures Solution(LockedConf(), users, LockedEnv())
    ensures LockedToM(LockedConf(), LockedEnv(), LockedConf().defs[4])
    ensures Assignable(LockedConf(), LockedEnv(), LockedConf().defs[4]) == [1]
  {
    var c, env := LockedConf(), LockedEnv();
    LockedOk();
    ImpliedModuleIsY(c, users[4], env, c.defs[4]);
    DefaultBool(c, users[3], env, c.defs[3], 0);
    forall i | 0 <= i < 5 ensures Solves(c, users, env, i) {}
  }

  /** The branch is reached: here m is all that is offered for T, and setting T to m makes it y. */
  lemma OfferIsBroken(users: Users)
    requires |users| == 5 && users[4] == UserTri(1)
    ensures Ranked(LockedConf(), [0, 0, 0, 1, 2]) && Solution(LockedConf(), users, LockedEnv())
    ensures Assignable(LockedConf(), LockedEnv(), LockedConf().defs[4]) == [1] && LockedEnv()[4].tri == 2
  {
    LockedRanked([0, 0, 0, 1, 2]);
    LockedSolved(users);
  }
}
