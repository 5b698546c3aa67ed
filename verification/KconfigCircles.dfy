/** Two configurations that pass the loop check although computing their values may go round in a circle. */
module KconfigCircles {
  import opened KconfigExpr
  import opened KconfigGrammar
  import opened KconfigValue
  import opened KconfigCoherence
  import opened KconfigLoops
  import opened Options

  // ---------------------------------------------------------------- kinds of symbols

  /** Symbols 0 and 1 are y and n. */
  ghost predicate YesNo(c: Conf, env: Env) {
    && Fits(c, env) && 2 <= |env| && c.modules > 1
    && IsBoolTri(c.defs[0].typ) && IsBoolTri(c.defs[1].typ) && env[0].tri == 2 && env[1].tri == 0
  }

  function TriVal(t: Tri): Val { Val(t, TriStr(t)) }

  predicate AlwaysVisible(d: SymDef) {
    && d.typ == Tristate && d.constTri.None?
    && d.prompts == [Sym(0)] && d.defaults == [] && d.revDep == d.weakRevDep == Sym(1)
  }

  predicate DefaultsTo(d: SymDef, a: SymId) {
    && d.typ == Bool && d.constTri.None?
    && d.prompts == [] && d.defaults == [Default(Sym(0), Sym(a))] && d.revDep == d.weakRevDep == Sym(1)
  }

  predicate SelectedBy(d: SymDef, a: SymId, b: SymId) {
    && d.typ == Bool && d.constTri.None? && d.prompts == [] && d.defaults == []
    && d.revDep == Or(Sym(a), Sym(b)) && d.weakRevDep == Sym(1) && d.directDep == Sym(1)
  }

  lemma SelectedByNone(c: Conf, d: SymDef)
    requires d.revDep.Sym? && SelectorOk(c, d.revDep.id)
    ensures SelectsOk(c, d)
  {
    assert Operands(d.revDep, false) == [d.revDep] && Operands(d.revDep, true) == [d.revDep];
  }

  lemma SelectedByTwo(c: Conf, d: SymDef, a: SymId, b: SymId)
    requires d.revDep == Or(Sym(a), Sym(b)) && SelectorOk(c, a) && SelectorOk(c, b)
    ensures SelectsOk(c, d)
  {
    var x, y := Sym(a), Sym(b);
    assert Operands(x, false) == [x] && Operands(y, false) == [y] && Operands(d.revDep, false) == [x, y];
    assert Operands(x, true) == [x] && Operands(y, true) == [y];
  }

  /** A tristate symbol that is always visible, and that nothing sets but the user. Computing its value looks at MODULES
      exactly if the user's value is m. */
  lemma VisibleTristate(c: Conf, user: User, env: Env, d: SymDef)
    requires YesNo(c, env) && DefOk(d, |env|) && SelectsOk(c, d) && AlwaysVisible(d) && IsBoolTri(c.defs[c.modules].typ)
    ensures Looks(c, user, env, d) <= {0, 1, c.modules}
    ensures c.modules in ValReads(c, user, env, d) <==> user == UserTri(1)
    ensures c.modules in Looks(c, user, env, d) <==> user == UserTri(1)
    ensures user != UserTri(1) ==> ValOf(c, user, env, d) == TriVal(if user.UserTri? then user.tri else 0)
  {
    assert d.prompts[..0] == [] && PromptMax(c, env, []) == 0 && PromptReads(c, env, []) == {};
    assert VisOf(c, env, d) == 2 && VisReads(c, env, d) == {0};
    assert ChosenTri(c, user, env, d) == if user.UserTri? then user.tri else 0;
    assert SelectedReads(c, user, env, d) <= {0, 1} && WarnReads(c, env, d) == {};
  }

  /** A bool symbol without a prompt that is y by default if symbol a is not n. */
  lemma DefaultBool(c: Conf, user: User, env: Env, d: SymDef, a: SymId)
    requires YesNo(c, env) && DefOk(d, |env|) && SelectsOk(c, d) && DefaultsTo(d, a)
    requires a < |env| && IsBoolTri(c.defs[a].typ)
    ensures Looks(c, user, env, d) <= {0, 1, a} && a in ValReads(c, user, env, d)
    ensures ValOf(c, user, env, d) == TriVal(if env[a].tri == 0 then 0 else 2)
  {
    assert VisOf(c, env, d) == 0 && VisReads(c, env, d) == {};
    assert Mean(c, env, d.defaults[0].cond) == env[a].tri;
    assert Active(c, env, d.defaults, 1) == 1 && ActiveReads(c, env, d.defaults, 1) == {};
    assert Active(c, env, d.defaults, 0) == if env[a].tri != 0 then 0 else 1;
    assert ActiveReads(c, env, d.defaults, 0) == {a};
    assert Mean(c, env, Sym(1)) == 0 && WarnReads(c, env, d) == {};
  }

  lemma FixedIsGrounded(c: Conf, users: Users, env: Env, rank: seq<nat>, i: nat)
    requires Fits(c, env) && |users| == |rank| == |env| && i < |env| && Fixed(c.defs[i])
        && env[i] == FixedVal(c.defs[i])
    ensures Solves(c, users, env, i) && GroundedAt(c, users, env, rank, i)
  {
  }

  /** A bool symbol without a prompt that symbols a and b select, where a is y. Its own dependency is not met, so that
      the warning about the selects evaluates b, although the value does not depend on it. */
  lemma SelectedBool(c: Conf, user: User, env: Env, d: SymDef, a: SymId, b: SymId)
    requires YesNo(c, env) && DefOk(d, |env|) && SelectsOk(c, d) && SelectedBy(d, a, b)
    requires a < |env| && b < |env| && IsBoolTri(c.defs[a].typ) && IsBoolTri(c.defs[b].typ)
    requires c.defs[a].directDep == c.defs[b].directDep == Sym(0) && env[a].tri == 2
    ensures ValReads(c, user, env, d) <= {0, 1, a} && ValOf(c, user, env, d) == TriVal(2)
    ensures b in Looks(c, user, env, d) && Looks(c, user, env, d) <= {0, 1, a, b}
  {
    assert VisOf(c, env, d) == 0 && VisReads(c, env, d) == {};
    OrStopsAtYes(c, env, d.revDep, a, b);
    assert DefaultReads(c, env, d) == {} && Mean(c, env, Sym(1)) == 0;
    SelectedReadsAre(c, env, d, a, b);
  }

  lemma {:induction false} OrStopsAtYes(c: Conf, env: Env, e: Expr, a: SymId, b: SymId)
    requires Fits(c, env) && InRange(e, |env|) && e == Or(Sym(a), Sym(b)) && a < |env|
    requires IsBoolTri(c.defs[a].typ) && env[a].tri == 2
    ensures Mean(c, env, e) == 2 && MeanReads(c, env, e) == {a}
  {
    YesSymbol(c, env, e.left, a);
  }

  lemma {:induction false} YesSymbol(c: Conf, env: Env, e: Expr, a: SymId)
    requires Fits(c, env) && InRange(e, |env|) && e == Sym(a) && IsBoolTri(c.defs[a].typ) && env[a].tri == 2
    ensures Mean(c, env, e) == 2 && MeanReads(c, env, e) == {a}
  {
  }

  lemma SelectedReadsAre(c: Conf, env: Env, d: SymDef, a: SymId, b: SymId)
    requires YesNo(c, env) && DefOk(d, |env|) && SelectsOk(c, d) && SelectedBy(d, a, b)
    requires a < |env| && b < |env| && IsBoolTri(c.defs[a].typ) && IsBoolTri(c.defs[b].typ)
    requires c.defs[a].directDep == c.defs[b].directDep == Sym(0) && env[a].tri == 2
    ensures b in WarnReads(c, env, d) && WarnReads(c, env, d) <= {0, 1, a, b}
  {
    OrStopsAtYes(c, env, d.revDep, a, b);
    assert Mean(c, env, Sym(1)) == 0;
    var x, y := Sym(a), Sym(b);
    assert Operands(x, false) == [x] && Operands(y, false) == [y] && Operands(d.revDep, false) == [x, y];
    assert Operands(x, true) == [x] && Operands(y, true) == [y];
    WarnReadsAre(c, env, d);
    var es := Operands(d.revDep, false);
    assert es[..|es| - 1] == [x] && [x][..0] == [] && SelectsReads(c, env, [], 0) == {};
    assert SelectsReads(c, env, [x], 0) == SelectReads(c, env, x, 0);
    assert SelectsReads(c, env, es, 0) == SelectReads(c, env, x, 0) + SelectReads(c, env, y, 0);
  }

  // ---------------------------------------------------------------- a circle of values

  /** MODULES is y by default if A, where A is a tristate symbol with a prompt. */
  ghost function FeedingConf(): Conf {
    var none := SymDef("y", Tristate, Some(2), true, false, [], [], [], Sym(0), Sym(0), Sym(0));
    var no := SymDef("n", Tristate, Some(0), true, false, [], [], [], Sym(1), Sym(1), Sym(1));
    var a := SymDef("A", Tristate, None, false, true, [Sym(0)], [], [], Sym(1), Sym(1), Sym(0));
    var modules := SymDef("MODULES", Bool, None, false, true, [], [Default(Sym(0), Sym(2))], [], Sym(1), Sym(1),
        Sym(0));
    Conf([none, no, a, modules], 3, (s, b) => None, (t, x) => "")
  }

  lemma FeedingDeps(deps: Dependents)
    requires DepsBuilt(FeedingConf(), deps)
    ensures ConfOk(FeedingConf()) && |deps| == 4
    ensures forall i, j :: 0 <= j < 4 ==> (i in deps[j] <==> i == 3 && j == 2)
  {
    var c := FeedingConf();
    forall i | 0 <= i < 4 ensures SelectsOk(c, c.defs[i]) { SelectedByNone(c, c.defs[i]); }
    assert 2 in PropItems(c.defs[3].defaults[0]);
    assert DependsOn(c, 3, 2);
    forall i, j | 0 <= j < |deps| && i in deps[j] ensures i == 3 && j == 2 {
      assert DependsOn(c, i, j);
    }
  }

  ghost predicate Feeding(c: Conf) {
    && ConfOk(c) && |c.defs| == 4 && c.modules == 3 && AlwaysVisible(c.defs[2]) && DefaultsTo(c.defs[3], 2)
    && Fixed(c.defs[0]) && FixedVal(c.defs[0]) == TriVal(2) && IsBoolTri(c.defs[0].typ)
    && Fixed(c.defs[1]) && FixedVal(c.defs[1]) == TriVal(0) && IsBoolTri(c.defs[1].typ)
  }

  /** The value of MODULES is computed from that of A; and that of A from that of MODULES, exactly if the user has set
      A to m. It does not matter what the values are. */
  lemma EachFromTheOther(c: Conf, user: User, other: User, env: Env)
    requires Feeding(c) && YesNo(c, env)
    ensures 2 in ValReads(c, other, env, c.defs[3])
    ensures 3 in ValReads(c, user, env, c.defs[2]) <==> user == UserTri(1)
  {
    VisibleTristate(c, user, env, c.defs[2]);
    DefaultBool(c, other, env, c.defs[3], 2);
  }

  /** Passing the loop check is not enough. In this configuration nothing is raised, but once the user has set A to m,
      the values of A and MODULES are each computed from the other; for every other user value they are not. */
  lemma LoopCheckMissesModules(deps: Dependents, users: Users)
    requires DepsBuilt(FeedingConf(), deps) && |users| == 4
    ensures !HasLoop(deps) && Feeding(FeedingConf())
    ensures WellFounded(FeedingConf(), users) <==> users[2] != UserTri(1)
  {
    FeedingDeps(deps);
    assert FinishedAt(deps, [3, 2], 0) && [3, 2][..1] == [3] && FinishedAt(deps, [3, 2], 1);
    forall loop ensures !IsLoop(deps, loop) {
      OrderExcludesLoops(deps, [3, 2], loop);
    }
    if users[2] == UserTri(1) {
      forall env, rank ensures !Grounded(FeedingConf(), users, env, rank) {
        FeedingCircle(FeedingConf(), users, env, rank);
      }
    } else {
      var a := if users[2].UserTri? then users[2].tri else 0;
      FeedingGrounded(FeedingConf(), users, [TriVal(2), TriVal(0), TriVal(a), TriVal(if a == 0 then 0 else 2)],
          [0, 0, 1, 2]);
    }
  }

  lemma FeedingCircle(c: Conf, users: Users, env: Env, rank: seq<nat>)
    requires Feeding(c) && |users| == 4 && users[2] == UserTri(1)
    ensures !Grounded(c, users, env, rank)
  {
    if Grounded(c, users, env, rank) {
      assert Solves(c, users, env, 0) && Solves(c, users, env, 1);
      assert GroundedAt(c, users, env, rank, 2) && GroundedAt(c, users, env, rank, 3);
      VisibleTristate(c, users[2], env, c.defs[2]);
      DefaultBool(c, users[3], env, c.defs[3], 2);
    }
  }

  /** The values where the user has not set A to m, and in which order to compute them. */
  ghost predicate FeedingValues(c: Conf, users: Users, env: Env, rank: seq<nat>) {
    && Feeding(c) && |users| == |env| == |rank| == 4 && users[2] != UserTri(1) && YesNo(c, env)
    && env[0] == TriVal(2) && env[1] == TriVal(0)
    && env[2] == TriVal(if users[2].UserTri? then users[2].tri else 0)
    && env[3] == TriVal(if env[2].tri == 0 then 0 else 2)
    && rank[0] < rank[2] && rank[1] < rank[2] < rank[3]
  }

  lemma FeedingTristate(c: Conf, users: Users, env: Env, rank: seq<nat>)
    requires FeedingValues(c, users, env, rank)
    ensures Solves(c, users, env, 2) && GroundedAt(c, users, env, rank, 2)
  {
    VisibleTristate(c, users[2], env, c.defs[2]);
  }

  lemma FeedingModules(c: Conf, users: Users, env: Env, rank: seq<nat>)
    requires FeedingValues(c, users, env, rank)
    ensures Solves(c, users, env, 3) && GroundedAt(c, users, env, rank, 3)
  {
    DefaultBool(c, users[3], env, c.defs[3], 2);
  }

  lemma FeedingGrounded(c: Conf, users: Users, env: Env, rank: seq<nat>)
    requires FeedingValues(c, users, env, rank)
    ensures HasRank(c, users, env)
  {
    FixedIsGrounded(c, users, env, rank, 0);
    FixedIsGrounded(c, users, env, rank, 1);
    FeedingTristate(c, users, env, rank);
    FeedingModules(c, users, env, rank);
    forall i | 0 <= i < 4 ensures Solves(c, users, env, i) && GroundedAt(c, users, env, rank, i) {
      assert i == 0 || i == 1 || i == 2 || i == 3;
    }
    assert Grounded(c, users, env, rank);
  }

  // ---------------------------------------------------------------- a circle through a warning

  /** MODULES depends on n and is selected by S, which is y by default, and by T, a tristate symbol with a prompt. */
  ghost function WarningConf(): Conf {
    var yes := SymDef("y", Tristate, Some(2), true, false, [], [], [], Sym(0), Sym(0), Sym(0));
    var no := SymDef("n", Tristate, Some(0), true, false, [], [], [], Sym(1), Sym(1), Sym(1));
    var s := SymDef("S", Bool, None, false, true, [], [Default(Sym(0), Sym(0))], [], Sym(1), Sym(1), Sym(0));
    var t := SymDef("T", Tristate, None, false, true, [Sym(0)], [], [], Sym(1), Sym(1), Sym(0));
    var modules := SymDef("MODULES", Bool, None, false, true, [], [], [], Or(Sym(2), Sym(3)), Sym(1), Sym(1));
    Conf([yes, no, s, t, modules], 4, (s, b) => None, (t, x) => "")
  }

  ghost predicate Warning(c: Conf) {
    && ConfOk(c) && |c.defs| == 5 && c.modules == 4
    && DefaultsTo(c.defs[2], 0) && AlwaysVisible(c.defs[3]) && SelectedBy(c.defs[4], 2, 3)
    && c.defs[2].directDep == c.defs[3].directDep == Sym(0)
    && Fixed(c.defs[0]) && FixedVal(c.defs[0]) == TriVal(2) && IsBoolTri(c.defs[0].typ)
    && Fixed(c.defs[1]) && FixedVal(c.defs[1]) == TriVal(0) && IsBoolTri(c.defs[1].typ)
  }

  lemma WarningConfOk()
    ensures Warning(WarningConf())
  {
    var c := WarningConf();
    forall i | 0 <= i < 5 ensures DefOk(c.defs[i], 5) && SelectsOk(c, c.defs[i]) {
      if i == 4 { SelectedByTwo(c, c.defs[4], 2, 3); } else { SelectedByNone(c, c.defs[i]); }
    }
  }

  lemma WarningDeps(deps: Dependents)
    requires DepsBuilt(WarningConf(), deps)
    ensures |deps| == 5 && forall i, j :: 0 <= j < 5 ==> (i in deps[j] <==> i == 4 && (j == 2 || j == 3))
  {
    var c := WarningConf();
    assert DependsOn(c, 4, 2) && DependsOn(c, 4, 3);
    forall i, j | 0 <= j < |deps| && i in deps[j] ensures i == 4 && (j == 2 || j == 3) {
      assert DependsOn(c, i, j);
    }
  }

  /** The value of MODULES does not depend on that of T. But T is evaluated for the warning about the selects; and
      evaluating T looks at MODULES exactly if the user has set it to m. */
  lemma LookedAtForWarning(c: Conf, user: User, other: User, env: Env)
    requires Warning(c) && YesNo(c, env) && env[2].tri == 2
    ensures 3 !in ValReads(c, other, env, c.defs[4]) && 3 in Looks(c, other, env, c.defs[4])
    ensures 4 in Looks(c, user, env, c.defs[3]) <==> user == UserTri(1)
  {
    SelectedBool(c, other, env, c.defs[4], 2, 3);
    VisibleTristate(c, user, env, c.defs[3]);
  }

  /** No value is computed from itself here, and nothing is raised; yet computing the values is well founded if and only
      if the user has not set T to m. */
  lemma LoopCheckMissesWarning(deps: Dependents, users: Users)
    requires DepsBuilt(WarningConf(), deps) && |users| == 5
    ensures !HasLoop(deps) && Warning(WarningConf())
    ensures WellFounded(WarningConf(), users) <==> users[3] != UserTri(1)
  {
    WarningConfOk();
    WarningDeps(deps);
    WarningOrder(deps);
    if users[3] == UserTri(1) {
      forall env, rank ensures !Grounded(WarningConf(), users, env, rank) {
        WarningCircle(WarningConf(), users, env, rank);
      }
    } else {
      var t := if users[3].UserTri? then users[3].tri else 0;
      WarningGrounded(WarningConf(), users, [TriVal(2), TriVal(0), TriVal(2), TriVal(t), TriVal(2)], [0, 0, 1, 1, 2]);
    }
  }

  lemma WarningOrder(deps: Dependents)
    requires |deps| == 5 && forall i, j :: 0 <= j < 5 ==> (i in deps[j] <==> i == 4 && (j == 2 || j == 3))
    ensures !HasLoop(deps)
  {
    var order := [4, 2, 3];
    assert order[..1] == [4] && order[..2] == [4, 2];
    assert FinishedAt(deps, order, 0) && FinishedAt(deps, order, 1) && FinishedAt(deps, order, 2);
    forall loop ensures !IsLoop(deps, loop) {
      OrderExcludesLoops(deps, order, loop);
    }
  }

  lemma WarningCircle(c: Conf, users: Users, env: Env, rank: seq<nat>)
    requires Warning(c) && |users| == 5 && users[3] == UserTri(1)
    ensures !Grounded(c, users, env, rank)
  {
    if Grounded(c, users, env, rank) {
      assert Solves(c, users, env, 0) && Solves(c, users, env, 1) && Solves(c, users, env, 2);
      assert GroundedAt(c, users, env, rank, 3) && GroundedAt(c, users, env, rank, 4);
      DefaultBool(c, users[2], env, c.defs[2], 0);
      LookedAtForWarning(c, users[3], users[4], env);
    }
  }

  /** The values where the user has not set T to m, and in which order to compute them. */
  ghost predicate WarningValues(c: Conf, users: Users, env: Env, rank: seq<nat>) {
    && Warning(c) && |users| == |env| == |rank| == 5 && users[3] != UserTri(1) && YesNo(c, env)
    && env[0] == TriVal(2) && env[1] == TriVal(0) && env[2] == TriVal(2) && env[4] == TriVal(2)
    && env[3] == TriVal(if users[3].UserTri? then users[3].tri else 0)
    && rank[0] == rank[1] < rank[2] == rank[3] < rank[4]
  }

  lemma WarningSelecting(c: Conf, users: Users, env: Env, rank: seq<nat>)
    requires WarningValues(c, users, env, rank)
    ensures Solves(c, users, env, 2) && GroundedAt(c, users, env, rank, 2)
  {
    DefaultBool(c, users[2], env, c.defs[2], 0);
  }

  lemma WarningTristate(c: Conf, users: Users, env: Env, rank: seq<nat>)
    requires WarningValues(c, users, env, rank)
    ensures Solves(c, users, env, 3) && GroundedAt(c, users, env, rank, 3)
  {
    VisibleTristate(c, users[3], env, c.defs[3]);
  }

  lemma WarningModules(c: Conf, users: Users, env: Env, rank: seq<nat>)
    requires WarningValues(c, users, env, rank)
    ensures Solves(c, users, env, 4) && GroundedAt(c, users, env, rank, 4)
  {
    SelectedBool(c, users[4], env, c.defs[4], 2, 3);
  }

  lemma WarningGrounded(c: Conf, users: Users, env: Env, rank: seq<nat>)
    requires WarningValues(c, users, env, rank)
    ensures HasRank(c, users, env)
  {
    FixedIsGrounded(c, users, env, rank, 0);
    FixedIsGrounded(c, users, env, rank, 1);
    WarningSelecting(c, users, env, rank);
    WarningTristate(c, users, env, rank);
    WarningModules(c, users, env, rank);
    forall i | 0 <= i < 5 ensures Solves(c, users, env, i) && GroundedAt(c, users, env, rank, i) {
      assert i == 0 || i == 1 || i == 2 || i == 3 || i == 4;
    }
    assert Grounded(c, users, env, rank);
  }
}
