/** Which node ends up below which: the menus that the finalized tree has and the file does not, told from the
    conditions of the nodes alone. */
module KconfigNesting {
  import opened KconfigExpr
  import opened KconfigGrammar
  import opened KconfigForest

  /** Node j directly follows node i among the children of the same node. */
  predicate NextIn(f: Forest, i: nat, j: nat) {
    f.Cons? && ((f.id == i && f.rest.Cons? && f.rest.id == j) || NextIn(f.kids, i, j) || NextIn(f.rest, i, j))
  }

  /** Node j is one of the children of node i. */
  predicate ChildOf(f: Forest, i: nat, j: nat) {
    f.Cons? && ((f.id == i && j in TopIds(f.kids)) || ChildOf(f.kids, i, j) || ChildOf(f.rest, i, j))
  }

  // ---------------------------------------------------------------- the conditions that nest

  /** A condition that symbol s has to meet: s itself, s = m, s = y, s != n, and, although it is met without s, s !=
      y. */
  predicate Demands(c: Names, e: Expr, s: SymId) {
    || e == Sym(s)
    || e == Rel(Equal, s, c.m) || e == Rel(Equal, c.m, s)
    || e == Rel(Equal, s, c.y) || e == Rel(Equal, c.y, s)
    || e == Rel(Unequal, s, c.n) || e == Rel(Unequal, c.n, s)
    || e == Rel(Unequal, s, c.y) || e == Rel(Unequal, c.y, s)
  }

  /** One of the conditions joined by the topmost && is such a demand. */
  predicate DemandsPart(c: Names, e: Expr, s: SymId) {
    exists k :: 0 <= k < |Operands(e, true)| && Demands(c, Operands(e, true)[k], s)
  }

  lemma {:induction false} DependsOnIsDemand(c: Names, e: Expr, s: SymId)
    ensures DependsOn(c, e, s) <==> DemandsPart(c, e, s)
  {
    if e.And? {
      DependsOnIsDemand(c, e.left, s);
      DependsOnIsDemand(c, e.right, s);
      PartsOfBoth(c, Operands(e.left, true), Operands(e.right, true), s);
      assert Operands(e, true) == Operands(e.left, true) + Operands(e.right, true);
    } else {
      assert Operands(e, true) == [e];
      assert Operands(e, true)[0] == e;
      assert DemandsPart(c, e, s) <==> Demands(c, e, s);
    }
  }

  lemma PartsOfBoth(c: Names, a: seq<Expr>, b: seq<Expr>, s: SymId)
    ensures (exists k :: 0 <= k < |a + b| && Demands(c, (a + b)[k], s))
            <==> (exists k :: 0 <= k < |a| && Demands(c, a[k], s)) || (exists k :: 0 <= k < |b| && Demands(c, b[k], s))
  {
    forall k | 0 <= k < |a| && Demands(c, a[k], s) ensures Demands(c, (a + b)[k], s) {}
    forall k | 0 <= k < |b| && Demands(c, b[k], s) ensures Demands(c, (a + b)[|a| + k], s) {}
  }

  /** The condition under which node j can be seen, that is of its prompt or else its dependencies, demands symbol s. */
  predicate ShownUnder(c: Names, infos: seq<Info>, at: seq<Attr>, s: SymId, j: nat)
    requires j < |infos| == |at|
  {
    if infos[j].hasPrompt then DemandsPart(c, at[j].prompt, s) else DemandsPart(c, at[j].dep, s)
  }

  /** A symbol that shows a prompt, followed by a node that is not an if. */
  predicate Couple(infos: seq<Info>, i: nat, j: nat) {
    i < |infos| && j < |infos| && infos[i].item.SymItem? && infos[i].hasPrompt && !infos[j].item.IfItem?
  }

  predicate Nests(c: Names, infos: seq<Info>, at: seq<Attr>, i: nat, j: nat)
    requires Couple(infos, i, j) && |at| == |infos|
  {
    ShownUnder(c, infos, at, infos[i].item.id, j)
  }

  // ---------------------------------------------------------------- where the nodes go

  lemma {:induction false} NextIds(f: Forest, i: nat, j: nat)
    requires NextIn(f, i, j)
    ensures i in Ids(f) && j in Ids(f)
  {
    if NextIn(f.kids, i, j) { NextIds(f.kids, i, j); }
    if NextIn(f.rest, i, j) { NextIds(f.rest, i, j); }
  }

  lemma {:induction false} ChildIds(f: Forest, i: nat, j: nat)
    requires ChildOf(f, i, j)
    ensures i in Ids(f) && j in Ids(f)
  {
    TopIdsAreIds(f.kids);
    if ChildOf(f.kids, i, j) { ChildIds(f.kids, i, j); }
    if ChildOf(f.rest, i, j) { ChildIds(f.rest, i, j); }
  }

  lemma {:induction false} ChildOfAppend(a: Forest, b: Forest, i: nat, j: nat)
    ensures ChildOf(Append(a, b), i, j) <==> ChildOf(a, i, j) || ChildOf(b, i, j)
  {
    if a.Cons? { ChildOfAppend(a.rest, b, i, j); }
  }

  /** Neither flattening nor dropping ifs takes a child from a node with a prompt. */
  lemma {:induction false} FlattenNests(infos: seq<Info>, f: Forest, i: nat, j: nat)
    requires Within(f, |infos|) && i < |infos| && infos[i].hasPrompt
    ensures ChildOf(Flatten(infos, f), i, j) <==> ChildOf(f, i, j)
    decreases Size(f)
  {
    if f.Cons? {
      if f.kids.Cons? && !infos[f.id].hasPrompt {
        AppendFacts(f.kids, f.rest, |infos|);
        ChildOfAppend(f.kids, f.rest, i, j);
        FlattenNests(infos, Append(f.kids, f.rest), i, j);
      } else {
        FlattenNests(infos, f.rest, i, j);
      }
    }
  }

  lemma {:induction false} RemoveIfsNests(infos: seq<Info>, f: Forest, i: nat, j: nat)
    requires Flat(infos, f) && IfsBare(infos, f) && i < |infos| && infos[i].hasPrompt
    ensures ChildOf(RemoveIfs(infos, f), i, j) <==> ChildOf(f, i, j)
  {
    if f.Cons? { RemoveIfsNests(infos, f.rest, i, j); }
  }

  lemma TidyNests(infos: seq<Info>, f: Forest, i: nat, j: nat)
    requires KidsClean(infos, f) && IfsBare(infos, f) && i < |infos| && infos[i].hasPrompt
    ensures ChildOf(Tidy(infos, f), i, j) <==> ChildOf(f, i, j)
    ensures f.Cons? && !infos[f.id].item.IfItem? ==> f.id in TopIds(Tidy(infos, f))
  {
    FlattenKeeps(infos, f);
    FlattenNests(infos, f, i, j);
    RemoveIfsNests(infos, Flatten(infos, f), i, j);
  }

  /** What has become of the couple i, j of a chain of which `done` is finished and `rest` is yet to come: it still
      comes, or it has been decided. */
  predicate Placed(c: Names, infos: seq<Info>, rest: Forest, done: Forest, at: seq<Attr>, i: nat, j: nat)
    requires Couple(infos, i, j) && |at| == |infos|
  {
    || NextIn(rest, i, j)
    || (&& i !in Ids(rest) && (j in Ids(rest) ==> j in TopIds(rest))
        && (ChildOf(done, i, j) <==> Nests(c, infos, at, i, j)))
  }

  lemma {:induction false} FinalizeNests(
    c: Names, infos: seq<Info>, f: Forest, at: seq<Attr>, vis: Expr, i: nat, j: nat)
    requires f.Cons? && AsParsed(infos, f) && |at| == |infos| && Distinct(f)
    requires Couple(infos, i, j) && NextIn(f, i, j)
    ensures var s := Finalize(c, infos, f, at, vis);
            Placed(c, infos, s.f.rest, Cons(f.id, s.f.kids, Nil), s.at, i, j)
    decreases Size(f), 1
  {
    var info := infos[f.id];
    if info.item.SymItem? {
      var t := Take(c, infos, info.item.id, f.rest, at, vis);
      TakeKeepsOrder(c, infos, info.item.id, f.rest, at, vis);
      TidyNests(infos, t.taken, i, j);
      if f.id == i && f.rest.id == j {
        HeadIsPlaced(c, infos, f, at, vis, j);
      } else {
        NextIds(f.rest, i, j);
        TakeNests(c, infos, info.item.id, f.rest, at, vis, i, j);
      }
    } else if NextIn(f.rest, i, j) {
    } else {
      NextIds(f.kids, i, j);
      var below := VisibleBelow(c, info, vis);
      var at1 := GiveAll(c, infos, f.kids, at, at[f.id].dep, below);
      FinalizeAllNests(c, infos, f.kids, at1, below, i, j);
      FinalizeAllKeepsOrder(c, infos, f.kids, at1, below);
      TidyNests(infos, FinalizeAll(c, infos, f.kids, at1, below).f, i, j);
    }
  }

  /** The symbol at the head of the chain takes the node after it exactly if that demands the symbol. */
  lemma {:induction false} HeadIsPlaced(c: Names, infos: seq<Info>, f: Forest, at: seq<Attr>, vis: Expr, j: nat)
    requires f.Cons? && AsParsed(infos, f) && |at| == |infos| && Distinct(f)
    requires Couple(infos, f.id, j) && f.rest.Cons? && f.rest.id == j
    ensures var s := Finalize(c, infos, f, at, vis);
            Placed(c, infos, s.f.rest, Cons(f.id, s.f.kids, Nil), s.at, f.id, j)
  {
    var sym := infos[f.id].item.id;
    var t := Take(c, infos, sym, f.rest, at, vis);
    TakeKeepsOrder(c, infos, sym, f.rest, at, vis);
    TakeKeepsTop(c, infos, sym, f.rest, at, vis);
    TakeDistinct(c, infos, sym, f.rest, at, vis);
    TidyNests(infos, t.taken, f.id, j);
    DependsOnIsDemand(c, if infos[j].hasPrompt then at[j].prompt else at[j].dep, sym);
    assert Nests(c, infos, t.at, f.id, j) <==> AutoDep(c, infos, at, sym, j);
    if AutoDep(c, infos, at, sym, j) {
      assert t.taken.Cons? && t.taken.id == j;
    }
  }

  lemma {:induction false} TakeNests(
    c: Names, infos: seq<Info>, s: SymId, f: Forest, at: seq<Attr>, vis: Expr, i: nat, j: nat)
    requires AsParsed(infos, f) && |at| == |infos| && Distinct(f)
    requires Couple(infos, i, j) && NextIn(f, i, j)
    ensures var t := Take(c, infos, s, f, at, vis); Placed(c, infos, t.left, t.taken, t.at, i, j)
    decreases Size(f), 2
  {
    if f.Cons? && AutoDep(c, infos, at, s, f.id) {
      var one := Finalize(c, infos, f, at, vis);
      var more := Take(c, infos, s, one.f.rest, one.at, vis);
      FinalizeNests(c, infos, f, at, vis, i, j);
      FinalizeKeepsOrder(c, infos, f, at, vis);
      FinalizeDistinct(c, infos, f, at, vis);
      if NextIn(one.f.rest, i, j) { TakeNests(c, infos, s, one.f.rest, one.at, vis, i, j); }
      TakeKeepsTop(c, infos, s, one.f.rest, one.at, vis);
      TakeDistinct(c, infos, s, one.f.rest, one.at, vis);
      TakeLeavesTail(c, infos, s, one.f.rest, one.at, vis);
      JoinPlaced(c, infos, one.f, one.at, more.taken, more.left, more.at, i, j);
    }
  }

  /** What was decided for the first node stays so while the rest of the chain is finished. */
  lemma {:induction false} JoinPlaced(c: Names, infos: seq<Info>, f: Forest, at: seq<Attr>, taken: Forest, left: Forest,
      at': seq<Attr>, i: nat, j: nat)
    requires f.Cons? && Distinct(f) && |at| == |at'| == |infos| && Couple(infos, i, j)
    requires Placed(c, infos, f.rest, Cons(f.id, f.kids, Nil), at, i, j)
    requires NextIn(f.rest, i, j) ==> Placed(c, infos, left, taken, at', i, j)
    requires left.Nil? || IsTail(left, f.rest)
    requires Ids(taken) <= Ids(f.rest) && TopSame(f.rest, at, at')
    ensures Placed(c, infos, left, Cons(f.id, f.kids, taken), at', i, j)
  {
    if left.Cons? { TailTop(left, f.rest); }
    if NextIn(f.rest, i, j) {
      NextIds(f.rest, i, j);
      if ChildOf(f.kids, i, j) { ChildIds(f.kids, i, j); }
    } else {
      if ChildOf(taken, i, j) { ChildIds(taken, i, j); }
      assert at'[j] == at[j];
      assert Nests(c, infos, at', i, j) <==> Nests(c, infos, at, i, j);
      assert ChildOf(Cons(f.id, f.kids, taken), i, j) <==> ChildOf(Cons(f.id, f.kids, Nil), i, j);
    }
  }

  lemma {:induction false} FinalizeAllNests(
    c: Names, infos: seq<Info>, f: Forest, at: seq<Attr>, vis: Expr, i: nat, j: nat)
    requires AsParsed(infos, f) && |at| == |infos| && Distinct(f)
    requires Couple(infos, i, j) && NextIn(f, i, j)
    ensures var s := FinalizeAll(c, infos, f, at, vis);
            ChildOf(s.f, i, j) <==> Nests(c, infos, s.at, i, j)
    decreases Size(f), 3
  {
    var one := Finalize(c, infos, f, at, vis);
    var more := FinalizeAll(c, infos, one.f.rest, one.at, vis);
    FinalizeNests(c, infos, f, at, vis, i, j);
    FinalizeKeepsOrder(c, infos, f, at, vis);
    FinalizeDistinct(c, infos, f, at, vis);
    if NextIn(one.f.rest, i, j) { FinalizeAllNests(c, infos, one.f.rest, one.at, vis, i, j); }
    FinalizeAllKeepsTop(c, infos, one.f.rest, one.at, vis);
    FinalizeAllDistinct(c, infos, one.f.rest, one.at, vis);
    JoinPlaced(c, infos, one.f, one.at, more.f, Nil, more.at, i, j);
  }

  /** The implicit menus of a finalized tree g, told from the conditions its nodes have in the end: a node that
      followed a symbol with a prompt is now a child of that symbol exactly if the condition under which it can be
      seen demands the symbol. */
  ghost predicate AllNested(c: Names, infos: seq<Info>, f: Forest, g: Forest, at: seq<Attr>) {
    |at| == |infos|
    && forall i: nat, j: nat :: Couple(infos, i, j) && NextIn(f, i, j) ==>
         (ChildOf(g, i, j) <==> Nests(c, infos, at, i, j))
  }

  lemma TreeNests(c: Names, infos: seq<Info>, f: Forest, at: seq<Attr>, vis: Expr)
    requires f.Cons? && f.rest.Nil? && Distinct(f) && AsParsed(infos, f) && |at| == |infos|
    ensures var s := Finalize(c, infos, f, at, vis); AllNested(c, infos, f.kids, s.f.kids, s.at)
  {
    var s := Finalize(c, infos, f, at, vis);
    FinalizeLeavesTail(c, infos, f, at, vis);
    forall i: nat, j: nat | Couple(infos, i, j) && NextIn(f.kids, i, j)
      ensures ChildOf(s.f.kids, i, j) <==> Nests(c, infos, s.at, i, j)
    {
      NextIds(f.kids, i, j);
      FinalizeNests(c, infos, f, at, vis, i, j);
      assert ChildOf(Cons(f.id, s.f.kids, Nil), i, j) <==> ChildOf(s.f.kids, i, j);
    }
  }

  // ---------------------------------------------------------------- from the written conditions to the final ones

  /** Joining two conditions keeps what each of them demands, unless all comes to n. */
  lemma {:induction false} JoinedDemands(c: Names, a: Expr, b: Expr, s: SymId)
    requires s != c.y
    ensures (DemandsPart(c, a, s) || DemandsPart(c, b, s)) && MakeAnd(c, a, b) != Sym(c.n) ==>
            DemandsPart(c, MakeAnd(c, a, b), s)
  {
    var e := MakeAnd(c, a, b);
    PartsOfBoth(c, Operands(a, true), Operands(b, true), s);
    if e == And(a, b) {
      assert Operands(e, true) == Operands(a, true) + Operands(b, true);
    } else {
      assert Operands(Sym(c.y), true) == [Sym(c.y)];
    }
  }

  /** What a written condition demands the final one demands as well, unless that has come to n; and a prompt demands
      what the dependencies of its node do. */
  predicate StillDemands(c: Names, info: Info, written: Attr, final: Attr, s: SymId) {
    && (DemandsPart(c, written.dep, s) ==> final.dep == Sym(c.n) || DemandsPart(c, final.dep, s))
    && (info.hasPrompt && (DemandsPart(c, written.prompt, s) || DemandsPart(c, written.dep, s)) ==>
          final.prompt == Sym(c.n) || DemandsPart(c, final.prompt, s))
  }

  lemma GivenStillDemands(c: Names, info: Info, a: Attr, base: Expr, vis: Expr, s: SymId)
    requires s != c.y
    ensures StillDemands(c, info, a, Given(c, info, a, base, vis), s)
  {
    var dep := MakeAnd(c, a.dep, base);
    JoinedDemands(c, a.dep, base, s);
    JoinedDemands(c, vis, dep, s);
    JoinedDemands(c, a.prompt, MakeAnd(c, vis, dep), s);
    JoinedDemands(c, a.prompt, dep, s);
  }

  lemma {:induction false} SpreadStillDemands(c: Names, infos: seq<Info>, f: Forest, at0: seq<Attr>, at: seq<Attr>,
      base: Expr, vis: Expr, j: nat, s: SymId)
    requires Within(f, |infos|) && Distinct(f) && j in Ids(f) && |at0| == |at| == |infos| && s != c.y
    requires Primed(c, infos, f, at0, at, base, vis)
    ensures j < |infos| && StillDemands(c, infos[j], at0[j], Spread(c, infos, f, at, vis)[j], s)
    decreases Size(f)
  {
    var at1 := SpreadBelow(c, infos, f, at, vis);
    SpreadBelowFrame(c, infos, f, at, vis);
    SpreadFrame(c, infos, f.rest, at1, vis);
    if j == f.id {
      GivenStillDemands(c, infos[j], at0[j], base, vis, s);
    } else if j in Ids(f.kids) {
      var dep, below := at[f.id].dep, VisibleBelow(c, infos[f.id], vis);
      GiveAllPrimes(c, infos, f.kids, at0, at, dep, below);
      SpreadStillDemands(c, infos, f.kids, at0, GiveAll(c, infos, f.kids, at, dep, below), dep, below, j, s);
    } else {
      PrimedFrame(c, infos, f.rest, at0, at, at1, base, vis);
      SpreadStillDemands(c, infos, f.rest, at0, at1, base, vis, j, s);
    }
  }

  /** For a whole tree: the written demands stay. */
  ghost predicate AllStillDemand(c: Names, infos: seq<Info>, f: Forest, at0: seq<Attr>, at: seq<Attr>) {
    && |at0| == |at| == |infos| && Within(f, |infos|)
    && forall j, s :: j in Ids(f) && j < |infos| && s != c.y ==> StillDemands(c, infos[j], at0[j], at[j], s)
  }

  lemma TreeStillDemands(c: Names, infos: seq<Info>, f: Forest, at: seq<Attr>, vis: Expr)
    requires f.Cons? && f.rest.Nil? && Distinct(f) && AsParsed(infos, f) && |at| == |infos|
    requires infos[f.id].item.MenuItem?
    ensures AllStillDemand(c, infos, f.kids, at, Finalize(c, infos, f, at, vis).at)
  {
    var at' := Finalize(c, infos, f, at, vis).at;
    var below := VisibleBelow(c, infos[f.id], vis);
    var at1 := GiveAll(c, infos, f.kids, at, at[f.id].dep, below);
    FinalizeAllSpreads(c, infos, f.kids, at1, below);
    GiveAllPrimes(c, infos, f.kids, at, at, at[f.id].dep, below);
    forall j, s | j in Ids(f.kids) && j < |infos| && s != c.y ensures StillDemands(c, infos[j], at[j], at'[j], s) {
      SpreadStillDemands(c, infos, f.kids, at, at1, at[f.id].dep, below, j, s);
    }
  }
}
