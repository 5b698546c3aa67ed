/** Dependency loop detection: a depth-first search over the dependents sets that colours symbols as it goes. */
module KconfigLoops {
  import opened KconfigExpr
  import opened Options
  import opened KconfigValue
  import opened KconfigCoherence
  import opened KconfigCache

  // ---------------------------------------------------------------- loops and orders in a dependents graph

  ghost predicate Closed(deps: Dependents) {
    forall j, i :: 0 <= j < |deps| && i in deps[j] ==> i < |deps|
  }

  /** Each symbol of the sequence depends on the next one. */
  ghost predicate Chain(deps: Dependents, loop: seq<SymId>) {
    && (forall t :: 0 <= t < |loop| ==> loop[t] < |deps|)
    && (forall t :: 0 <= t < |loop| - 1 ==> loop[t] in deps[loop[t + 1]])
  }

  /** Each symbol depends on the next one, and the last on the first. */
  ghost predicate IsLoop(deps: Dependents, loop: seq<SymId>) {
    loop != [] && Chain(deps, loop) && loop[|loop| - 1] in deps[loop[0]]
  }

  /** Every symbol of the sequence comes after all its dependents. */
  ghost predicate Finished(deps: Dependents, order: seq<SymId>) {
    forall k :: 0 <= k < |order| ==> FinishedAt(deps, order, k)
  }

  ghost predicate FinishedAt(deps: Dependents, order: seq<SymId>, k: nat)
    requires k < |order|
  {
    order[k] < |deps| ==> forall d :: d in deps[order[k]] ==> d in order[..k]
  }

  function Pos(order: seq<SymId>, x: SymId): (p: nat)
    ensures p <= |order|
    ensures p < |order| ==> order[p] == x
    ensures x in order ==> p < |order|
  {
    if order == [] || order[0] == x then 0 else 1 + Pos(order[1..], x)
  }

  lemma {:induction false} PosInPrefix(order: seq<SymId>, x: SymId, k: nat)
    requires k <= |order| && x in order[..k]
    ensures Pos(order, x) < k
  {
    if order[0] != x {
      assert order[..k][1..] == order[1..][..k - 1];
      PosInPrefix(order[1..], x, k - 1);
    }
  }

  lemma DependentEarlier(deps: Dependents, order: seq<SymId>, s: SymId, d: SymId)
    requires Finished(deps, order) && s < |deps| && s in order && d in deps[s]
    ensures d in order && Pos(order, d) < Pos(order, s)
  {
    var k := Pos(order, s);
    assert FinishedAt(deps, order, k);
    PosInPrefix(order, d, k);
  }

  lemma {:induction false} ChainClimbs(deps: Dependents, order: seq<SymId>, loop: seq<SymId>, t: nat)
    requires Finished(deps, order) && Chain(deps, loop) && t < |loop|
    requires forall k :: 0 <= k < |loop| ==> loop[k] in order
    ensures Pos(order, loop[0]) <= Pos(order, loop[t])
  {
    if t > 0 {
      ChainClimbs(deps, order, loop, t - 1);
      DependentEarlier(deps, order, loop[t], loop[t - 1]);
    }
  }

  /** A finishing order leaves no room for a loop. */
  lemma OrderExcludesLoops(deps: Dependents, order: seq<SymId>, loop: seq<SymId>)
    requires Finished(deps, order)
    requires forall j, i :: 0 <= j < |deps| && i in deps[j] ==> i in order
    ensures !IsLoop(deps, loop)
  {
    if IsLoop(deps, loop) {
      forall k | 0 <= k < |loop| ensures loop[k] in order {
        if k == |loop| - 1 { assert loop[k] in deps[loop[0]]; } else { assert loop[k] in deps[loop[k + 1]]; }
      }
      ChainClimbs(deps, order, loop, |loop| - 1);
      DependentEarlier(deps, order, loop[0], loop[|loop| - 1]);
    }
  }

  // ---------------------------------------------------------------- the search

  /** What the recursive function returns: nothing, a part of a loop collected on the way back, or the exception
      that reports a whole loop. */
  datatype Outcome = NoLoop | Unwinding(loop: seq<SymId>) | Raised(loop: seq<SymId>)

  type Colours = seq<nat>

  ghost function White(vis: Colours): set<SymId> {
    set i | 0 <= i < |vis| && vis[i] == 0
  }

  /** Colour 1 is exactly the call stack, which is a path of dependents; colour 2 is exactly what has finished. */
  ghost predicate Searching(deps: Dependents, vis: Colours, stack: seq<SymId>, order: seq<SymId>) {
    && |vis| == |deps| && Closed(deps) && Finished(deps, order)
    && (forall i :: 0 <= i < |vis| ==> vis[i] <= 2)
    && (forall i :: 0 <= i < |vis| ==> (vis[i] == 1 <==> i in stack) && (vis[i] == 2 <==> i in order))
    && (forall i :: i in stack || i in order ==> i < |vis|)
  }

  ghost function VisNow(kc: Kconfig): (v: Colours)
    reads kc.syms
    ensures |v| == |kc.syms|
  {
    seq(|kc.syms|, i requires 0 <= i < |kc.syms| reads kc.syms => kc.syms[i].visited)
  }

  function IdSet(ids: seq<SymId>): set<SymId> { set i | i in ids }

  ghost predicate AllIn(ids: set<SymId>, order: seq<SymId>) {
    forall d :: d in ids ==> d in order
  }

  lemma OneMoreIn(ids: set<SymId>, order: seq<SymId>, d: SymId, order': seq<SymId>)
    requires AllIn(ids, order) && order <= order' && d in order'
    ensures AllIn(ids + {d}, order')
  {
    forall x | x in ids ensures x in order' {
      var k :| 0 <= k < |order| && order[k] == x;
      assert order'[k] == x;
    }
  }

  /** The search goes on: nothing that has finished is forgotten, and nothing turns white again. */
  ghost predicate GoesOn(deps: Dependents, vis: Colours, stack: seq<SymId>, order: seq<SymId>, vis': Colours,
      order': seq<SymId>) {
    Searching(deps, vis', stack, order') && order <= order' && White(vis') <= White(vis)
  }

  /** _found_dep_loop(): the loop is complete when the search is back where it started. */
  function FoundDepLoop(loop: seq<SymId>, cur: SymId): Outcome
    requires loop != []
  {
    if cur != loop[0] then Unwinding(loop + [cur]) else Raised(loop)
  }

  lemma FoundKeepsChain(deps: Dependents, loop: seq<SymId>, cur: SymId)
    requires loop != [] && Chain(deps, loop) && cur < |deps| && loop[|loop| - 1] in deps[cur]
    ensures match FoundDepLoop(loop, cur)
            case Unwinding(l) => Chain(deps, l) && l != [] && l[0] == loop[0] && l[|l| - 1] == cur && cur != l[0]
            case Raised(l) => IsLoop(deps, l)
            case NoLoop => false
  {
  }

  lemma Enter(deps: Dependents, vis: Colours, stack: seq<SymId>, order: seq<SymId>, sym: SymId)
    requires Searching(deps, vis, stack, order) && sym < |vis| && vis[sym] == 0
    ensures Searching(deps, vis[sym := 1], stack + [sym], order) && White(vis[sym := 1]) < White(vis)
  {
    assert sym in White(vis) && sym !in White(vis[sym := 1]);
  }

  lemma Leave(deps: Dependents, vis: Colours, stack: seq<SymId>, order: seq<SymId>, sym: SymId)
    requires Searching(deps, vis, stack + [sym], order) && sym < |vis| && sym !in stack
    requires AllIn(deps[sym], order)
    ensures Searching(deps, vis[sym := 2], stack, order + [sym]) && White(vis[sym := 2]) <= White(vis)
  {
    assert forall i :: i in stack + [sym] <==> i in stack || i == sym;
    assert forall i :: i in order + [sym] <==> i in order || i == sym;
    assert vis[sym] == 1;
    var order' := order + [sym];
    forall k | 0 <= k < |order'| ensures FinishedAt(deps, order', k) {
      if k < |order| {
        assert FinishedAt(deps, order, k) && order'[..k] == order[..k];
      } else {
        assert order'[..k] == order;
      }
    }
  }

  /** _check_dep_loop_sym() on a configuration without choices. */
  method CheckDepLoopSym(kc: Kconfig, sym: SymId, ghost deps: Dependents, ghost stack: seq<SymId>,
      ghost order: seq<SymId>)
    returns (r: Outcome, ghost order': seq<SymId>)
    requires kc.Distinct() && kc.DepsNow() == deps && sym < |deps|
    requires Searching(deps, VisNow(kc), stack, order)
    modifies kc.syms`visited
    ensures White(VisNow(kc)) <= White(old(VisNow(kc)))
    ensures r.NoLoop? ==> Searching(deps, VisNow(kc), stack, order') && order <= order' && sym in order'
    ensures r.Unwinding? ==> r.loop != [] && Chain(deps, r.loop) && r.loop[0] in stack && r.loop[|r.loop| - 1] == sym
    ensures r.Raised? ==> IsLoop(deps, r.loop)
    decreases White(VisNow(kc)), 0
  {
    ghost var vis := VisNow(kc);
    order' := order;
    if kc.syms[sym].visited == 0 {
      kc.syms[sym].visited := 1;
      assert VisNow(kc) == vis[sym := 1];
      Enter(deps, vis, stack, order, sym);
      assert kc.DepsNow() == deps;
      r, order' := CheckDependents(kc, sym, deps, stack, order);
      if r.NoLoop? {
        vis := VisNow(kc);
        kc.syms[sym].visited := 2;
        assert VisNow(kc) == vis[sym := 2];
        Leave(deps, vis, stack, order', sym);
        order' := order' + [sym];
      }
    } else if kc.syms[sym].visited == 2 {
      assert vis[sym] == 2;
      r := NoLoop;
    } else {
      assert vis[sym] == 1;
      r := Unwinding([sym]);
    }
  }

  /** Its loop over the dependents of the symbol. */
  method CheckDependents(kc: Kconfig, sym: SymId, ghost deps: Dependents, ghost stack: seq<SymId>,
      ghost order: seq<SymId>)
    returns (r: Outcome, ghost order': seq<SymId>)
    requires kc.Distinct() && kc.DepsNow() == deps && sym < |deps|
    requires Searching(deps, VisNow(kc), stack + [sym], order)
    modifies kc.syms`visited
    ensures White(VisNow(kc)) <= White(old(VisNow(kc)))
    ensures r.NoLoop? ==> Searching(deps, VisNow(kc), stack + [sym], order') && order <= order'
    ensures r.NoLoop? ==> AllIn(deps[sym], order')
    ensures r.Unwinding? ==> r.loop != [] && Chain(deps, r.loop) && r.loop[0] in stack && r.loop[|r.loop| - 1] == sym
    ensures r.Raised? ==> IsLoop(deps, r.loop)
    decreases White(VisNow(kc)), 2
  {
    order' := order;
    var rest := kc.syms[sym].dependents;
    ghost var done: set<SymId> := {};
    ghost var path, vis := stack + [sym], VisNow(kc);
    while rest != {}
      invariant deps[sym] == done + rest && kc.DepsNow() == deps
      invariant GoesOn(deps, vis, path, order, VisNow(kc), order') && AllIn(done, order')
      decreases rest
    {
      var dep :| dep in rest;
      ghost var before := order';
      r, order' := CheckDependent(kc, sym, dep, deps, stack, order');
      if !r.NoLoop? {
        return;
      }
      OneMoreIn(done, before, dep, order');
      rest, done := rest - {dep}, done + {dep};
    }
    r := NoLoop;
  }

  /** One dependent, with what is done when it reports a loop. */
  method CheckDependent(kc: Kconfig, sym: SymId, dep: SymId, ghost deps: Dependents, ghost stack: seq<SymId>,
      ghost order: seq<SymId>)
    returns (r: Outcome, ghost order': seq<SymId>)
    requires kc.Distinct() && kc.DepsNow() == deps && sym < |deps| && dep in deps[sym]
    requires Searching(deps, VisNow(kc), stack + [sym], order)
    modifies kc.syms`visited
    ensures White(VisNow(kc)) <= White(old(VisNow(kc))) && kc.DepsNow() == deps
    ensures r.NoLoop? ==> Searching(deps, VisNow(kc), stack + [sym], order') && order <= order' && dep in order'
    ensures r.Unwinding? ==> r.loop != [] && Chain(deps, r.loop) && r.loop[0] in stack && r.loop[|r.loop| - 1] == sym
    ensures r.Raised? ==> IsLoop(deps, r.loop)
    decreases White(VisNow(kc)), 1
  {
    r, order' := CheckDepLoopSym(kc, dep, deps, stack + [sym], order);
    if r.Unwinding? {
      FoundKeepsChain(deps, r.loop, sym);
      r := FoundDepLoop(r.loop, sym);
    }
  }

  // ---------------------------------------------------------------- what the order is good for

  /** For each symbol, symbols that computing its value leads to. */
  type Edges = seq<set<SymId>>

  /** Each symbol of the path is led to by the next one. */
  ghost predicate Path(e: Edges, p: seq<SymId>) {
    && p != [] && (forall k :: 0 <= k < |p| ==> p[k] < |e|)
    && (forall k :: 0 <= k < |p| - 1 ==> p[k] in e[p[k + 1]])
  }

  ghost predicate Needed(e: Edges, a: SymId, b: SymId) {
    exists p :: Path(e, p) && p[0] == a && p[|p| - 1] == b
  }

  /** Computing the value of symbol m leads back to m. */
  ghost predicate Circular(e: Edges, m: SymId) {
    exists t :: 0 <= t < |e| && m in e[t] && Needed(e, t, m)
  }

  ghost predicate RankedBy(e: Edges, rank: seq<nat>) {
    |rank| == |e| && forall i :: 0 <= i < |e| ==> Below(rank, e[i], rank[i])
  }

  ghost predicate HasEdgeRank(e: Edges) {
    exists rank :: RankedBy(e, rank)
  }

  /** The edges lead to nothing but what is mentioned, to what a selecting symbol depends on, or to MODULES from a
      tristate symbol. */
  ghost predicate Covered(c: Conf, e: Edges)
    requires ConfOk(c)
  {
    |e| == |c.defs| && forall i, x :: 0 <= i < |e| && x in e[i] ==> MayLook(c, i, x)
  }

  ghost predicate MayLook(c: Conf, i: SymId, x: SymId)
    requires ConfOk(c) && i < |c.defs|
  {
    && c.defs[i].defined
    && (x in Mentions(c.defs[i]) + TypeReads(c, c.defs[i]) || BehindSelect(c, c.defs[i], x))
  }

  /** What is looked at for the given user values, where the symbols have the values in `env`. */
  ghost function LookEdges(c: Conf, users: Users, env: Env): (e: Edges)
    requires Fits(c, env) && |users| == |env|
    ensures |e| == |env|
  {
    seq(|env|, i requires 0 <= i < |env| => Looks(c, users[i], env, c.defs[i]))
  }

  /** What may be looked at, whatever the values are. */
  ghost function MentionEdges(c: Conf): (e: Edges)
    requires ConfOk(c)
    ensures |e| == |c.defs| && Covered(c, e)
  {
    seq(|c.defs|, i requires 0 <= i < |c.defs| =>
      if c.defs[i].defined then Mentions(c.defs[i]) + TypeReads(c, c.defs[i]) else {})
  }

  lemma LooksAreCovered(c: Conf, users: Users, env: Env)
    requires Fits(c, env) && |users| == |env|
    ensures Covered(c, LookEdges(c, users, env))
  {
    forall i, x | 0 <= i < |env| && x in LookEdges(c, users, env)[i] ensures MayLook(c, i, x) {
      LooksAreMentions(c, users[i], env, c.defs[i]);
    }
  }

  lemma NeededStep(e: Edges, i: SymId, j: SymId, b: SymId)
    requires j < |e| && i < |e| && j in e[i] && Needed(e, i, b)
    ensures Needed(e, j, b)
  {
    var p :| Path(e, p) && p[0] == i && p[|p| - 1] == b;
    var q := [j] + p;
    forall k | 0 <= k < |q| - 1 ensures q[k] in e[q[k + 1]] {
      if k > 0 { assert q[k] == p[k - 1] && q[k + 1] == p[k]; }
    }
    assert Path(e, q) && q[0] == j && q[|q| - 1] == b;
  }

  /** The rank of a symbol: symbols that have to be evaluated first come first, and everything that MODULES is
      computed from comes before everything else. */
  ghost function OrderRank(c: Conf, e: Edges, order: seq<SymId>, i: SymId): nat
    requires i < |c.defs|
  {
    if !c.defs[i].defined || i !in order then 0
    else |order| - Pos(order, i) + (if Needed(e, i, c.modules) then 0 else |order|)
  }

  /** What is mentioned, or what a selecting symbol depends on, finishes after the symbol itself. */
  lemma LookedLater(c: Conf, deps: Dependents, order: seq<SymId>, i: SymId, j: SymId)
    requires ConfOk(c) && DepsBuilt(c, deps) && Finished(deps, order)
    requires forall k :: 0 <= k < |c.defs| && c.defs[k].defined ==> k in order
    requires i < |c.defs| && j < |c.defs| && c.defs[i].defined && c.defs[j].defined
    requires j in Mentions(c.defs[i]) || BehindSelect(c, c.defs[i], j)
    ensures i in order && j in order && Pos(order, i) < Pos(order, j) < |order|
  {
    if j in Mentions(c.defs[i]) {
      assert DependsOn(c, i, j);
      DependentEarlier(deps, order, j, i);
    } else {
      var s :| s in Items(c.defs[i].revDep) && s < |c.defs| && c.defs[s].defined && j in Items(c.defs[s].directDep);
      assert DependsOn(c, i, s) && DependsOn(c, s, j);
      DependentEarlier(deps, order, s, i);
      DependentEarlier(deps, order, j, s);
    }
  }

  lemma OrderRankFalls(c: Conf, deps: Dependents, order: seq<SymId>, e: Edges, i: SymId, j: SymId)
    requires ConfOk(c) && DepsBuilt(c, deps) && Finished(deps, order) && Covered(c, e)
    requires forall k :: 0 <= k < |c.defs| && c.defs[k].defined ==> k in order
    requires !Circular(e, c.modules) && i < |e| && j < |e| && j in e[i]
    ensures OrderRank(c, e, order, j) < OrderRank(c, e, order, i)
  {
    assert MayLook(c, i, j);
    if j in Mentions(c.defs[i]) || BehindSelect(c, c.defs[i], j) {
      if c.defs[j].defined {
        LookedLater(c, deps, order, i, j);
        if Needed(e, i, c.modules) { NeededStep(e, i, j, c.modules); }
      }
    } else {
      assert Path(e, [j]);
      assert j == c.modules && Needed(e, j, c.modules);
    }
  }

  lemma {:induction false} PathRanks(e: Edges, rank: seq<nat>, p: seq<SymId>, k: nat)
    requires RankedBy(e, rank) && Path(e, p) && k < |p|
    ensures rank[p[0]] <= rank[p[k]] && (k > 0 ==> rank[p[0]] < rank[p[k]])
  {
    if k > 0 {
      PathRanks(e, rank, p, k - 1);
      assert p[k - 1] in e[p[k]];
    }
  }

  lemma CircleHasNoRank(e: Edges, m: SymId)
    requires Circular(e, m)
    ensures !HasEdgeRank(e)
  {
    var t :| 0 <= t < |e| && m in e[t] && Needed(e, t, m);
    var p :| Path(e, p) && p[0] == t && p[|p| - 1] == m;
    if HasEdgeRank(e) {
      var rank :| RankedBy(e, rank);
      PathRanks(e, rank, p, |p| - 1);
    }
  }

  lemma OrderRanks(c: Conf, deps: Dependents, order: seq<SymId>, e: Edges)
    requires ConfOk(c) && DepsBuilt(c, deps) && Finished(deps, order) && Covered(c, e)
    requires forall k :: 0 <= k < |c.defs| && c.defs[k].defined ==> k in order
    requires !Circular(e, c.modules)
    ensures HasEdgeRank(e)
  {
    var rank := seq(|e|, i requires 0 <= i < |e| => OrderRank(c, e, order, i));
    forall i | 0 <= i < |e| ensures Below(rank, e[i], rank[i]) {
      forall j | j in e[i] && j < |rank| ensures rank[j] < rank[i] {
        OrderRankFalls(c, deps, order, e, i, j);
      }
    }
    assert RankedBy(e, rank);
  }

  /** When the search has raised nothing, the one thing that can still go round in a circle is MODULES: it is looked at
      for the type of a tristate symbol, and the dependents sets do not record that. */
  lemma OrderGivesRank(c: Conf, deps: Dependents, order: seq<SymId>, e: Edges)
    requires ConfOk(c) && DepsBuilt(c, deps) && Finished(deps, order) && Covered(c, e)
    requires forall k :: 0 <= k < |c.defs| && c.defs[k].defined ==> k in order
    ensures HasEdgeRank(e) <==> !Circular(e, c.modules)
  {
    if Circular(e, c.modules) {
      CircleHasNoRank(e, c.modules);
    } else {
      OrderRanks(c, deps, order, e);
    }
  }

  /** Exact for what is looked at, the evaluations for warnings included: the computation of all values is well
      founded if and only if the computation of MODULES does not look at MODULES. */
  lemma LooksAreWellFounded(c: Conf, deps: Dependents, order: seq<SymId>, users: Users, env: Env)
    requires DepsBuilt(c, deps) && Finished(deps, order) && Solution(c, users, env)
    requires forall k :: 0 <= k < |c.defs| && c.defs[k].defined ==> k in order
    ensures HasRank(c, users, env) <==> !Circular(LookEdges(c, users, env), c.modules)
  {
    var e := LookEdges(c, users, env);
    LooksAreCovered(c, users, env);
    OrderGivesRank(c, deps, order, e);
    forall rank ensures RankedBy(e, rank) <==> Grounded(c, users, env, rank) {
      if Grounded(c, users, env, rank) {
        forall i | 0 <= i < |e| ensures Below(rank, e[i], rank[i]) { assert GroundedAt(c, users, env, rank, i); }
      }
      if RankedBy(e, rank) {
        forall i | 0 <= i < |e| ensures GroundedAt(c, users, env, rank, i) { assert Below(rank, e[i], rank[i]); }
      }
    }
    if HasEdgeRank(e) {
      var rank :| RankedBy(e, rank);
      assert Grounded(c, users, env, rank);
    }
    if HasRank(c, users, env) {
      var rank :| Grounded(c, users, env, rank);
      assert RankedBy(e, rank);
    }
  }

  /** What can be checked before there are any values: if MODULES does not lead to itself by what is mentioned, counting
      MODULES as mentioned by every tristate symbol, the computation is well founded for all user values. */
  lemma MentionsAreWellFounded(c: Conf, deps: Dependents, order: seq<SymId>, users: Users)
    requires ConfOk(c) && DepsBuilt(c, deps) && Finished(deps, order) && |users| == |c.defs|
    requires forall k :: 0 <= k < |c.defs| && c.defs[k].defined ==> k in order
    requires !Circular(MentionEdges(c), c.modules)
    ensures WellFounded(c, users)
  {
    var e := MentionEdges(c);
    OrderGivesRank(c, deps, order, e);
    var rank :| RankedBy(e, rank);
    RankOfMentions(c, rank);
    RankedIsWellFounded(c, rank, users);
  }

  lemma RankOfMentions(c: Conf, rank: seq<nat>)
    requires ConfOk(c)
    ensures Ranked(c, rank) <==> RankedBy(MentionEdges(c), rank)
  {
    var e := MentionEdges(c);
    if Ranked(c, rank) {
      forall i | 0 <= i < |e| ensures Below(rank, e[i], rank[i]) {
        forall s | s in e[i] && s < |rank| ensures rank[s] < rank[i] { assert Uses(c, i, s); }
      }
    }
    if RankedBy(e, rank) {
      forall i, j | 0 <= i < |rank| && 0 <= j < |rank| && Uses(c, i, j) ensures rank[j] < rank[i] {
        assert j in e[i] && Below(rank, e[i], rank[i]);
      }
    }
  }

  function Reversed(s: seq<SymId>): (r: seq<SymId>)
    ensures |r| == |s| && forall k :: 0 <= k < |s| ==> r[k] == s[|s| - 1 - k]
  {
    seq(|s|, k requires 0 <= k < |s| => s[|s| - 1 - k])
  }

  lemma DependentMentions(c: Conf, deps: Dependents, i: SymId, j: SymId)
    requires ConfOk(c) && DepsBuilt(c, deps) && j < |deps| && i in deps[j]
    ensures i < |c.defs| && j in MentionEdges(c)[i]
  {
    assert DependsOn(c, i, j);
  }

  /** A loop in the dependents graph is a circle among the mentions. */
  lemma LoopIsPath(c: Conf, deps: Dependents, loop: seq<SymId>, e: Edges)
    requires ConfOk(c) && DepsBuilt(c, deps) && IsLoop(deps, loop) && e == MentionEdges(c)
    ensures Path(e, [loop[0]] + Reversed(loop))
  {
    var p := [loop[0]] + Reversed(loop);
    forall k | 0 <= k < |p| - 1 ensures p[k] in e[p[k + 1]] {
      var t := |loop| - 1 - k;
      assert p[k + 1] == loop[t] && p[k] == if k == 0 then loop[0] else loop[t + 1];
      DependentMentions(c, deps, p[k + 1], p[k]);
    }
  }

  /** Where what is mentioned can be ranked, there is no loop to raise. */
  lemma RankExcludesLoops(c: Conf, deps: Dependents, rank: seq<nat>, loop: seq<SymId>)
    requires Ranked(c, rank) && DepsBuilt(c, deps)
    ensures !IsLoop(deps, loop)
  {
    if IsLoop(deps, loop) {
      var e := MentionEdges(c);
      LoopIsPath(c, deps, loop, e);
      RankOfMentions(c, rank);
      PathRanks(e, rank, [loop[0]] + Reversed(loop), |loop|);
    }
  }

  // ---------------------------------------------------------------- the check

  /** The check over all defined symbols. It raises exactly when the dependents graph has a loop; what it raises is
      a loop, in order; and if it does not raise, the symbols have finished after all their dependents. */
  method CheckDepLoops(kc: Kconfig) returns (loop: Option<seq<SymId>>, ghost order: seq<SymId>)
    requires kc.Shape() && DepsBuilt(kc.conf, kc.DepsNow())
    requires forall i :: 0 <= i < |kc.syms| ==> kc.syms[i].visited == 0
    modifies kc.syms`visited
    ensures loop.Some? ==> IsLoop(kc.DepsNow(), loop.value)
    ensures loop.Some? <==> exists l :: IsLoop(kc.DepsNow(), l)
    ensures loop.None? ==> Finished(kc.DepsNow(), order)
    ensures loop.None? ==> forall i :: 0 <= i < |kc.syms| && kc.conf.defs[i].defined ==> i in order
  {
    ghost var deps := kc.DepsNow();
    forall k | 0 <= k < |kc.uniqueDefinedSyms| ensures kc.uniqueDefinedSyms[k] < |deps| {
      assert kc.uniqueDefinedSyms[k] in kc.uniqueDefinedSyms;
    }
    StartSearch(kc.conf, deps, VisNow(kc));
    loop, order := SearchAll(kc, deps);
    assert kc.DepsNow() == deps;
    if loop.None? {
      forall l ensures !IsLoop(deps, l) {
        forall j, i | 0 <= j < |deps| && i in deps[j] ensures i in order { assert DependsOn(kc.conf, i, j); }
        OrderExcludesLoops(deps, order, l);
      }
    }
  }

  lemma StartSearch(c: Conf, deps: Dependents, vis: Colours)
    requires DepsBuilt(c, deps) && |vis| == |deps| && forall i :: 0 <= i < |vis| ==> vis[i] == 0
    ensures Searching(deps, vis, [], [])
  {
    forall j, i | 0 <= j < |deps| && i in deps[j] ensures i < |deps| { assert DependsOn(c, i, j); }
  }

  method SearchAll(kc: Kconfig, ghost deps: Dependents) returns (loop: Option<seq<SymId>>, ghost order: seq<SymId>)
    requires kc.Distinct() && kc.DepsNow() == deps && Searching(deps, VisNow(kc), [], [])
    requires forall k :: 0 <= k < |kc.uniqueDefinedSyms| ==> kc.uniqueDefinedSyms[k] < |deps|
    modifies kc.syms`visited
    ensures loop.Some? ==> IsLoop(deps, loop.value)
    ensures loop.None? ==> Finished(deps, order) && AllIn(IdSet(kc.uniqueDefinedSyms), order)
  {
    order := [];
    ghost var done: set<SymId> := {};
    for k := 0 to |kc.uniqueDefinedSyms|
      invariant kc.DepsNow() == deps && Searching(deps, VisNow(kc), [], order)
      invariant AllIn(done, order) && done == IdSet(kc.uniqueDefinedSyms[..k])
    {
      var sym := kc.uniqueDefinedSyms[k];
      ghost var before := order;
      var r;
      r, order := CheckDepLoopSym(kc, sym, deps, [], order);
      if r.Raised? {
        return Some(r.loop), order;
      }
      OneMoreIn(done, before, sym, order);
      done := done + {sym};
      assert kc.uniqueDefinedSyms[..k + 1] == kc.uniqueDefinedSyms[..k] + [sym];
    }
    assert kc.uniqueDefinedSyms[..|kc.uniqueDefinedSyms|] == kc.uniqueDefinedSyms;
    loop := None;
  }

  // ---------------------------------------------------------------- a whole session

  datatype SessionResult = LoopFound(loop: seq<SymId>) | Answers(answers: seq<Answer>)

  ghost predicate HasLoop(deps: Dependents) {
    exists l :: IsLoop(deps, l)
  }

  /** For the given user values all rules have a solution in which MODULES is not computed from itself. */
  ghost predicate NotCircular(c: Conf, users: Users) {
    exists env :: Solution(c, users, env) && !Circular(LookEdges(c, users, env), c.modules)
  }

  /** So it is at every point of a run. */
  ghost predicate NeverCircular(c: Conf, ops: seq<Op>)
    requires OpsInRange(ops, |c.defs|)
  {
    forall k :: 0 <= k <= |ops| ==> NotCircular(c, UsersAfterAll(c, NoUsers(c), ops[..k]))
  }

  lemma NeverCircularRuns(c: Conf, deps: Dependents, order: seq<SymId>, ops: seq<Op>)
    requires ConfOk(c) && DepsBuilt(c, deps) && Finished(deps, order) && OpsInRange(ops, |c.defs|)
    requires forall k :: 0 <= k < |c.defs| && c.defs[k].defined ==> k in order
    requires NeverCircular(c, ops)
    ensures AllWellFounded(c, NoUsers(c), ops)
  {
    forall k | 0 <= k <= |ops| ensures WellFounded(c, UsersAfterAll(c, NoUsers(c), ops[..k])) {
      var users := UsersAfterAll(c, NoUsers(c), ops[..k]);
      assert NotCircular(c, users);
      var env :| Solution(c, users, env) && !Circular(LookEdges(c, users, env), c.modules);
      LooksAreWellFounded(c, deps, order, users, env);
    }
  }

  /** What Kconfig does with the symbols after the menu tree is finalized: dependents, then the loop check. */
  method Prepare(kc: Kconfig) returns (loop: Option<seq<SymId>>, ghost order: seq<SymId>)
    requires kc.Shape() && kc.Untouched()
    modifies kc.syms`dependents, kc.syms`visited
    ensures DepsBuilt(kc.conf, kc.DepsNow()) && kc.DepsNow() == DepsOf(kc.conf, kc.uniqueDefinedSyms)
    ensures loop.Some? ==> IsLoop(kc.DepsNow(), loop.value)
    ensures loop.Some? <==> HasLoop(kc.DepsNow())
    ensures loop.None? ==> Finished(kc.DepsNow(), order)
    ensures loop.None? ==> forall i :: 0 <= i < |kc.syms| && kc.conf.defs[i].defined ==> i in order
  {
    kc.BuildDep();
    ghost var deps := kc.DepsNow();
    DepsAreUnique(kc.conf, deps, kc.uniqueDefinedSyms);
    loop, order := CheckDepLoops(kc);
    assert kc.DepsNow() == deps;
  }

  /** Sets up a configuration and serves a run of operations on it. A loop in the dependents graph, and nothing else, is
      reported; without one all answers are those from scratch, as long as MODULES is never computed from itself. */
  method Session(conf: Conf, uniqueDefinedSyms: seq<SymId>, ops: seq<Op>) returns (result: SessionResult)
    requires ConfOk(conf) && OpsInRange(ops, |conf.defs|)
    requires forall i :: i in uniqueDefinedSyms ==> i < |conf.defs| && conf.defs[i].defined
    requires forall i :: 0 <= i < |conf.defs| && conf.defs[i].defined ==> i in uniqueDefinedSyms
    requires !HasLoop(DepsOf(conf, uniqueDefinedSyms)) ==> NeverCircular(conf, ops)
    ensures result.LoopFound? ==> IsLoop(DepsOf(conf, uniqueDefinedSyms), result.loop)
    ensures result.LoopFound? <==> HasLoop(DepsOf(conf, uniqueDefinedSyms))
    ensures result.Answers? ==> AllWellFounded(conf, NoUsers(conf), ops)
    ensures result.Answers? ==> result.answers == RunFromScratch(conf, NoUsers(conf), ops)
  {
    var kc := new Kconfig(conf, uniqueDefinedSyms);
    var loop;
    ghost var order;
    loop, order := Prepare(kc);
    if loop.Some? {
      result := LoopFound(loop.value);
    } else {
      NeverCircularRuns(conf, kc.DepsNow(), order, ops);
      var answers := Serve(kc, ops);
      result := Answers(answers);
    }
  }

  /** Serves a run right after the preparations. */
  method Serve(kc: Kconfig, ops: seq<Op>) returns (answers: seq<Answer>)
    requires kc.Shape() && kc.NothingCached() && DepsBuilt(kc.conf, kc.DepsNow())
    requires OpsInRange(ops, |kc.syms|) && AllWellFounded(kc.conf, NoUsers(kc.conf), ops)
    modifies kc.syms`userValue, kc.syms`cachedVis, kc.syms`cachedTri, kc.syms`cachedStr
    ensures answers == RunFromScratch(kc.conf, NoUsers(kc.conf), ops)
  {
    StartsSettled(kc, ops);
    answers := kc.Run(ops);
  }

  ghost function NoUsers(c: Conf): (u: Users)
    ensures |u| == |c.defs|
  {
    seq(|c.defs|, _ => NoUser)
  }

  lemma StartsSettled(kc: Kconfig, ops: seq<Op>)
    requires kc.Shape() && kc.NothingCached()
    requires OpsInRange(ops, |kc.syms|) && AllWellFounded(kc.conf, NoUsers(kc.conf), ops)
    ensures kc.UsersNow() == NoUsers(kc.conf) && kc.Settled()
  {
    var users := kc.UsersNow();
    assert users == NoUsers(kc.conf);
    assert ops[..0] == [];
    assert WellFounded(kc.conf, UsersAfterAll(kc.conf, users, ops[..0]));
    FreshCoherent(kc.conf, users, Values(kc.conf, users), kc.SlotsNow());
  }

  lemma DepsAreUnique(c: Conf, deps: Dependents, ids: seq<SymId>)
    requires DepsBuilt(c, deps) && forall i :: 0 <= i < |c.defs| && c.defs[i].defined ==> i in ids
    ensures deps == DepsOf(c, ids)
  {
    DepsOfAll(c, ids);
    forall j | 0 <= j < |deps| ensures deps[j] == DepsOf(c, ids)[j] {
      assert forall i :: i in deps[j] <==> DependsOn(c, i, j);
      assert forall i :: i in DepsOf(c, ids)[j] <==> DependsOn(c, i, j);
    }
  }
}
