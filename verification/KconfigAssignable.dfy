/** The tristate values a menu offers for a symbol, and which of them the symbol really takes on when they are set. */
module KconfigAssignable {
  import opened KconfigExpr
  import opened KconfigValue
  import opened Options

  /** Symbol.assignable: worked out from the visibility, the selects and an `imply` of y alone. */
  ghost function Assignable(c: Conf, env: Env, d: SymDef): seq<Tri>
    requires Fits(c, env) && DefOk(d, |env|)
  {
    var vis, selected := VisOf(c, env, d), Mean(c, env, d.revDep);
    if !IsBoolTri(d.typ) || vis == 0 then []
    else if selected == 2 then [2]
    else if vis == 1 then
      if selected == 1 then [1] else if Mean(c, env, d.weakRevDep) == 2 then [0, 2] else [0, 1]
    else
      (if selected == 0 then [0] else [])
      + (if TypeIn(c, env, d) == Bool || Mean(c, env, d.weakRevDep) == 2 then [] else [1])
      + [2]
  }

  /** The branch that forgets the promotion: a symbol visible as m and selected as m that is implied by y. */
  ghost predicate LockedToM(c: Conf, env: Env, d: SymDef)
    requires Fits(c, env) && DefOk(d, |env|)
  {
    VisOf(c, env, d) == 1 && Mean(c, env, d.revDep) == 1 && Mean(c, env, d.weakRevDep) == 2
  }

  /** At any solution, a visible symbol has its user value exactly when that value is among those offered, except in the
      branch that forgets the promotion: there m alone is offered, and every user value ends up as y. */
  lemma OfferedIsTaken(c: Conf, users: Users, env: Env, i: SymId, u: Tri)
    requires Solution(c, users, env) && i < |env| && IsBoolTri(c.defs[i].typ)
    requires users[i] == UserTri(u) && VisOf(c, env, c.defs[i]) != 0
    ensures !LockedToM(c, env, c.defs[i]) ==> (env[i].tri == u <==> u in Assignable(c, env, c.defs[i]))
    ensures LockedToM(c, env, c.defs[i]) ==> env[i].tri == 2 && Assignable(c, env, c.defs[i]) == [1]
  {
    assert Solves(c, users, env, i);
    assert DefOk(c.defs[i], |env|);
  }

  /** Two ways to set the user value of symbol i, and the values that come of them. */
  ghost predicate DifferAt(c: Conf, rank: seq<nat>, users: Users, users': Users, e: Env, e': Env, i: SymId) {
    && Ranked(c, rank) && Solution(c, users, e) && Solution(c, users', e') && |rank| == |users| == |users'|
    && i < |rank| && forall j :: 0 <= j < |rank| && j != i ==> users[j] == users'[j]
  }

  lemma {:induction false} BelowUnchanged(
    c: Conf, rank: seq<nat>, users: Users, users': Users, e: Env, e': Env, i: SymId, j: SymId)
    requires DifferAt(c, rank, users, users', e, e', i) && j < |rank| && rank[j] < rank[i]
    ensures e[j] == e'[j]
    decreases rank[j]
  {
    assert Solves(c, users, e, j) && Solves(c, users', e', j);
    forall k | 0 <= k < |rank| && rank[k] < rank[j] ensures e[k] == e'[k] {
      BelowUnchanged(c, rank, users, users', e, e', i, k);
    }
    AgreeBelowAgreeAt(c, rank, users[j], e, e', j);
  }

  /** What is offered does not depend on the user value there is. */
  lemma OfferUnchanged(c: Conf, rank: seq<nat>, users: Users, users': Users, e: Env, e': Env, i: SymId)
    requires DifferAt(c, rank, users, users', e, e', i) && IsBoolTri(c.defs[i].typ)
    ensures VisOf(c, e, c.defs[i]) == VisOf(c, e', c.defs[i])
    ensures Assignable(c, e, c.defs[i]) == Assignable(c, e', c.defs[i])
    ensures LockedToM(c, e, c.defs[i]) <==> LockedToM(c, e', c.defs[i])
  {
    var d := c.defs[i];
    if !Fixed(d) {
      var used := Mentions(d) + TypeReads(c, d);
      UsesRankLower(c, rank, i, used);
      forall j | j in used && j < |rank| ensures e[j] == e'[j] {
        BelowUnchanged(c, rank, users, users', e, e', i, j);
      }
      VisReadsAreMentions(c, e, d);
      VisAgrees(c, e, e', d);
      MeanReadsAreItems(c, e, d.revDep);
      MeanAgrees(c, e, e', d.revDep);
      MeanReadsAreItems(c, e, d.weakRevDep);
      MeanAgrees(c, e, e', d.weakRevDep);
    }
  }

  /** The user value of a symbol nobody can see is without effect, on any symbol. */
  lemma UnseenHasNoEffect(c: Conf, rank: seq<nat>, users: Users, users': Users, e: Env, e': Env, i: SymId)
    requires DifferAt(c, rank, users, users', e, e', i) && VisOf(c, e, c.defs[i]) == 0
    ensures e == e'
  {
    assert ValOf(c, users[i], e, c.defs[i]) == ValOf(c, users'[i], e, c.defs[i]);
    forall j | 0 <= j < |e| ensures Solves(c, users', e, j) {
      assert Solves(c, users, e, j);
    }
    RankedIsWellFounded(c, rank, users');
    var values := Values(c, users');
    SolutionUnique(c, RankOf(c, users', values), users', values, e);
    SolutionUnique(c, RankOf(c, users', values), users', values, e');
  }
}
