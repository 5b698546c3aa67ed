/** The menu tree as a value: what finalizing it computes, and what that keeps. A forest is a chain of sibling nodes,
    each with the chain of its children; this is the shape that the fields list and next describe. */
module KconfigForest {
  import opened KconfigExpr
  import opened KconfigGrammar
  import opened Numbers
  import opened Seqs

  datatype Item = SymItem(id: SymId) | MenuItem | CommentItem | IfItem

  /** What never changes in a node. */
  datatype Info = Info(item: Item, hasPrompt: bool, visibility: Expr)

  /** The conditions that get the dependencies of the enclosing nodes: the node's own 'depends on', the condition of its
      prompt, and those of its defaults, ranges, selects and implies. */
  datatype Attr = Attr(dep: Expr, prompt: Expr, conds: seq<Expr>)

  datatype Forest = Nil | Cons(id: nat, kids: Forest, rest: Forest)

  function Ids(f: Forest): set<nat> {
    if f.Nil? then {} else {f.id} + Ids(f.kids) + Ids(f.rest)
  }

  function TopIds(f: Forest): set<nat> {
    if f.Nil? then {} else {f.id} + TopIds(f.rest)
  }

  predicate Distinct(f: Forest) {
    f.Cons? ==>
      && f.id !in Ids(f.kids) && f.id !in Ids(f.rest)
      && Ids(f.kids) !! Ids(f.rest) && Distinct(f.kids) && Distinct(f.rest)
  }

  predicate Within(f: Forest, n: nat) {
    f.Cons? ==> f.id < n && Within(f.kids, n) && Within(f.rest, n)
  }

  function Size(f: Forest): nat {
    if f.Nil? then 0 else 1 + Size(f.kids) + Size(f.rest)
  }

  function Append(a: Forest, b: Forest): Forest {
    if a.Nil? then b else Cons(a.id, a.kids, Append(a.rest, b))
  }

  function Preorder(f: Forest): seq<nat> {
    if f.Nil? then [] else [f.id] + Preorder(f.kids) + Preorder(f.rest)
  }

  /** The nodes other than 'if' nodes, in preorder. */
  function Shown(infos: seq<Info>, f: Forest): seq<nat>
    requires Within(f, |infos|)
  {
    if f.Nil? then [] else Alone(infos[f.id], f.id) + Shown(infos, f.kids) + Shown(infos, f.rest)
  }

  function Alone(info: Info, i: nat): seq<nat> {
    if info.item.IfItem? then [] else [i]
  }

  /** As the parser leaves it: only menus and ifs have children, and ifs have no prompt. */
  predicate AsParsed(infos: seq<Info>, f: Forest) {
    && Within(f, |infos|)
    && (f.Cons? ==>
        && (infos[f.id].item.SymItem? || infos[f.id].item.CommentItem? ==> f.kids.Nil?)
        && (infos[f.id].item.IfItem? ==> !infos[f.id].hasPrompt)
        && AsParsed(infos, f.kids) && AsParsed(infos, f.rest))
  }

  /** As finalizing leaves it: no ifs, and no children below a node that shows no prompt. */
  predicate Clean(infos: seq<Info>, f: Forest) {
    && Within(f, |infos|)
    && (f.Cons? ==>
        && !infos[f.id].item.IfItem?
        && (f.kids.Cons? ==> infos[f.id].hasPrompt)
        && Clean(infos, f.kids) && Clean(infos, f.rest))
  }

  // ---------------------------------------------------------------- dependencies

  /** _expr_depends_on(). The 'and' binds tighter than the 'or': sym != y counts as well. */
  predicate DependsOn(c: Names, e: Expr, s: SymId) {
    match e
    case Sym(x) => x == s
    case And(l, r) => DependsOn(c, l, s) || DependsOn(c, r, s)
    case Rel(rel, a, b) =>
      && (rel == Equal || rel == Unequal)
      && (a == s || b == s)
      && var other := if b == s then a else b;
         (rel == Equal && other == c.m) || other == c.y || (rel == Unequal && other == c.n)
    case _ => false
  }

  /** The test as its comment has it, with sym != y left out. */
  predicate GatedBy(c: Names, e: Expr, s: SymId) {
    match e
    case Sym(x) => x == s
    case And(l, r) => GatedBy(c, l, s) || GatedBy(c, r, s)
    case Rel(rel, a, b) =>
      && (a == s || b == s)
      && var other := if b == s then a else b;
         (rel == Equal && (other == c.m || other == c.y)) || (rel == Unequal && other == c.n)
    case _ => false
  }

  /** Some operand of the topmost && chain that the code accepts is n. */
  predicate AcceptedIsOff(c: Names, ty: Typing, env: Env, e: Expr, s: SymId)
    requires |ty.types| == |env| && InRange(e, |env|)
  {
    match e
    case And(l, r) => AcceptedIsOff(c, ty, env, l, s) || AcceptedIsOff(c, ty, env, r, s)
    case _ => DependsOn(c, e, s) && Meaning(ty, env, e) == 0
  }

  /** What an automatic menu relies on: an expression that depends on a bool or tristate symbol is n while the symbol is
      n. While it is, what the code accepts is n exactly where the comment would have accepted it too. */
  lemma {:induction false} DependingIsOff(c: Names, ty: Typing, env: Env, e: Expr, s: SymId)
    requires Constants(c, ty, env) && InRange(e, |env|) && s < |env| && IsBoolTri(ty.types[s]) && env[s].tri == 0
    requires s != c.m && s != c.y && s != c.n
    ensures AcceptedIsOff(c, ty, env, e, s) <==> GatedBy(c, e, s)
    ensures GatedBy(c, e, s) ==> DependsOn(c, e, s) && Meaning(ty, env, e) == 0
  {
    if e.And? {
      DependingIsOff(c, ty, env, e.left, s);
      DependingIsOff(c, ty, env, e.right, s);
    }
  }

  /** With sym != y alone the test is wrong: it passes, and the expression is y exactly when the symbol is not. */
  lemma NotYIsNotOff(c: Names, ty: Typing, env: Env, s: SymId)
    requires Constants(c, ty, env) && s < |env| && IsBoolTri(ty.types[s])
    ensures DependsOn(c, Rel(Unequal, s, c.y), s)
    ensures Meaning(ty, env, Rel(Unequal, s, c.y)) == if env[s].tri == 2 then 0 else 2
  {
  }

  predicate AutoDep(c: Names, infos: seq<Info>, at: seq<Attr>, s: SymId, j: nat)
    requires j < |infos| == |at|
  {
    DependsOn(c, if infos[j].hasPrompt then at[j].prompt else at[j].dep, s)
  }

  /** What one child gets from its parent. */
  function Given(c: Names, info: Info, a: Attr, base: Expr, vis: Expr): Attr {
    var dep := MakeAnd(c, a.dep, base);
    if info.item.SymItem? then
      Attr(dep, if info.hasPrompt then MakeAnd(c, a.prompt, MakeAnd(c, vis, dep)) else a.prompt,
          WithDep(c, a.conds, dep))
    else
      Attr(dep, if info.hasPrompt then MakeAnd(c, a.prompt, dep) else a.prompt, a.conds)
  }

  function WithDep(c: Names, conds: seq<Expr>, dep: Expr): seq<Expr> {
    seq(|conds|, i requires 0 <= i < |conds| => MakeAnd(c, conds[i], dep))
  }

  /** _propagate_deps(): one step down, to all children f. */
  function GiveAll(c: Names, infos: seq<Info>, f: Forest, at: seq<Attr>, base: Expr, vis: Expr): (at': seq<Attr>)
    requires Within(f, |infos|) && |at| == |infos|
    ensures |at'| == |at|
  {
    if f.Nil? then at
    else GiveAll(c, infos, f.rest, at[f.id := Given(c, infos[f.id], at[f.id], base, vis)], base, vis)
  }

  function VisibleBelow(c: Names, info: Info, vis: Expr): Expr {
    if info.item.MenuItem? then MakeAnd(c, vis, info.visibility) else vis
  }

  // ---------------------------------------------------------------- finalizing

  /** _flatten() */
  function Flatten(infos: seq<Info>, f: Forest): (g: Forest)
    requires Within(f, |infos|)
    ensures Within(g, |infos|) && Size(g) == Size(f) && g.Nil? == f.Nil?
    decreases Size(f)
  {
    if f.Nil? then Nil
    else if f.kids.Cons? && !infos[f.id].hasPrompt then
      AppendFacts(f.kids, f.rest, |infos|);
      Cons(f.id, Nil, Flatten(infos, Append(f.kids, f.rest)))
    else Cons(f.id, f.kids, Flatten(infos, f.rest))
  }

  /** _remove_ifs() */
  function RemoveIfs(infos: seq<Info>, f: Forest): (g: Forest)
    requires Within(f, |infos|)
    ensures Within(g, |infos|) && Size(g) <= Size(f)
  {
    if f.Nil? then Nil
    else if infos[f.id].item.IfItem? then RemoveIfs(infos, f.rest)
    else Cons(f.id, f.kids, RemoveIfs(infos, f.rest))
  }

  function Tidy(infos: seq<Info>, f: Forest): (g: Forest)
    requires Within(f, |infos|)
    ensures Within(g, |infos|) && Size(g) <= Size(f)
  {
    RemoveIfs(infos, Flatten(infos, f))
  }

  datatype Step = Step(f: Forest, at: seq<Attr>)

  predicate StepOk(infos: seq<Info>, s: Step, size: nat) {
    |s.at| == |infos| && Within(s.f, |infos|) && Size(s.f) <= size
  }

  /** _finalize_node() on the first node of a chain, which for a symbol may take siblings out of the chain. */
  function Finalize(c: Names, infos: seq<Info>, f: Forest, at: seq<Attr>, vis: Expr): (s: Step)
    requires f.Cons? && Within(f, |infos|) && |at| == |infos|
    ensures StepOk(infos, s, Size(f)) && s.f.Cons? && s.f.id == f.id
    decreases Size(f), 1
  {
    var info := infos[f.id];
    if info.item.SymItem? then
      var t := Take(c, infos, info.item.id, f.rest, at, vis);
      if t.taken.Nil? then Step(f, at)
      else Step(Cons(f.id, Tidy(infos, t.taken), t.left), t.at)
    else if f.kids.Cons? then
      var below := VisibleBelow(c, info, vis);
      var all := FinalizeAll(c, infos, f.kids, GiveAll(c, infos, f.kids, at, at[f.id].dep, below), below);
      Step(Cons(f.id, Tidy(infos, all.f), f.rest), all.at)
    else Step(f, at)
  }

  datatype Taken = Taken(taken: Forest, left: Forest, at: seq<Attr>)

  /** The siblings that become the submenu of symbol s, and those that remain. */
  function Take(c: Names, infos: seq<Info>, s: SymId, f: Forest, at: seq<Attr>, vis: Expr): (t: Taken)
    requires Within(f, |infos|) && |at| == |infos|
    ensures |t.at| == |infos| && Within(t.taken, |infos|) && Within(t.left, |infos|)
    ensures Size(t.taken) + Size(t.left) <= Size(f)
    decreases Size(f), 2
  {
    if f.Cons? && AutoDep(c, infos, at, s, f.id) then
      var one := Finalize(c, infos, f, at, vis);
      var more := Take(c, infos, s, one.f.rest, one.at, vis);
      Taken(Cons(one.f.id, one.f.kids, more.taken), more.left, more.at)
    else Taken(Nil, f, at)
  }

  /** One node of the chain after the other. */
  function FinalizeAll(c: Names, infos: seq<Info>, f: Forest, at: seq<Attr>, vis: Expr): (s: Step)
    requires Within(f, |infos|) && |at| == |infos|
    ensures StepOk(infos, s, Size(f))
    decreases Size(f), 3
  {
    if f.Nil? then Step(Nil, at) else
    var one := Finalize(c, infos, f, at, vis);
    var more := FinalizeAll(c, infos, one.f.rest, one.at, vis);
    Step(Cons(one.f.id, one.f.kids, more.f), more.at)
  }

  // ---------------------------------------------------------------- order, ifs and flat nodes

  lemma {:induction false} AppendFacts(a: Forest, b: Forest, n: nat)
    requires Within(a, n) && Within(b, n)
    ensures Within(Append(a, b), n) && Size(Append(a, b)) == Size(a) + Size(b)
    ensures Ids(Append(a, b)) == Ids(a) + Ids(b)
    ensures Distinct(a) && Distinct(b) && Ids(a) !! Ids(b) ==> Distinct(Append(a, b))
  {
    if a.Cons? { AppendFacts(a.rest, b, n); }
  }

  lemma {:induction false} ShownOfAppend(infos: seq<Info>, a: Forest, b: Forest)
    requires Within(a, |infos|) && Within(b, |infos|) && Within(Append(a, b), |infos|)
    ensures Shown(infos, Append(a, b)) == Shown(infos, a) + Shown(infos, b)
  {
    if a.Cons? { ShownOfAppend(infos, a.rest, b); }
  }

  /** Splitting the chain after a node splits what it shows. */
  lemma ShownAfter(infos: seq<Info>, i: nat, kids: Forest, t: Forest, l: Forest, x: Forest)
    requires i < |infos| && Within(kids, |infos|) && Within(t, |infos|) && Within(l, |infos|) && Within(x, |infos|)
    requires Shown(infos, t) + Shown(infos, l) == Shown(infos, x)
    ensures Shown(infos, Cons(i, kids, t)) + Shown(infos, l) == Shown(infos, Cons(i, kids, x))
  {
    Reassociate(Alone(infos[i], i) + Shown(infos, kids), Shown(infos, t), Shown(infos, l));
  }

  /** A part that follows a node directly may as well be below it. */
  lemma ShownBelow(infos: seq<Info>, i: nat, t: Forest, l: Forest, x: Forest)
    requires i < |infos| && Within(t, |infos|) && Within(l, |infos|) && Within(x, |infos|)
    requires Shown(infos, t) + Shown(infos, l) == Shown(infos, x)
    ensures Shown(infos, Cons(i, t, l)) == Shown(infos, Cons(i, Nil, x))
  {
    var one := Alone(infos[i], i);
    Reassociate(one, Shown(infos, t), Shown(infos, l));
    assert Shown(infos, Nil) == [] && one + [] == one;
  }

  /** Every child list in the chain is clean; the chain itself may still hold ifs and nodes to flatten. */
  predicate KidsClean(infos: seq<Info>, f: Forest) {
    Within(f, |infos|) && (f.Cons? ==> Clean(infos, f.kids) && KidsClean(infos, f.rest))
  }

  /** Nodes without prompt have no children. */
  predicate Flat(infos: seq<Info>, f: Forest) {
    Within(f, |infos|) && (f.Cons? ==> (f.kids.Cons? ==> infos[f.id].hasPrompt) && Flat(infos, f.rest))
  }

  /** No if in the chain has a prompt. */
  predicate IfsBare(infos: seq<Info>, f: Forest) {
    Within(f, |infos|)
    && (f.Cons? ==> (infos[f.id].item.IfItem? ==> !infos[f.id].hasPrompt) && IfsBare(infos, f.rest))
  }

  lemma {:induction false} CleanOfAppend(infos: seq<Info>, a: Forest, b: Forest)
    requires Within(a, |infos|) && Within(b, |infos|)
    ensures Clean(infos, a) && KidsClean(infos, b) ==> KidsClean(infos, Append(a, b))
    ensures Clean(infos, a) && IfsBare(infos, b) ==> IfsBare(infos, Append(a, b))
  {
    if a.Cons? { CleanOfAppend(infos, a.rest, b); }
    AppendFacts(a, b, |infos|);
  }

  lemma {:induction false} FlattenKeeps(infos: seq<Info>, f: Forest)
    requires KidsClean(infos, f) && IfsBare(infos, f)
    ensures var g := Flatten(infos, f);
            KidsClean(infos, g) && IfsBare(infos, g) && Flat(infos, g) && Shown(infos, g) == Shown(infos, f)
    decreases Size(f)
  {
    if f.Cons? {
      if f.kids.Cons? && !infos[f.id].hasPrompt {
        var up := Append(f.kids, f.rest);
        AppendFacts(f.kids, f.rest, |infos|);
        CleanOfAppend(infos, f.kids, f.rest);
        ShownOfAppend(infos, f.kids, f.rest);
        FlattenKeeps(infos, up);
        assert Shown(infos, Flatten(infos, up)) == Shown(infos, f.kids) + Shown(infos, f.rest);
        ShownBelow(infos, f.id, f.kids, f.rest, up);
      } else {
        FlattenKeeps(infos, f.rest);
      }
    }
  }

  lemma {:induction false} RemoveIfsCleans(infos: seq<Info>, f: Forest)
    requires KidsClean(infos, f) && IfsBare(infos, f) && Flat(infos, f)
    ensures var g := RemoveIfs(infos, f); Clean(infos, g) && Shown(infos, g) == Shown(infos, f)
  {
    if f.Cons? { RemoveIfsCleans(infos, f.rest); }
  }

  lemma {:induction false} TidyCleans(infos: seq<Info>, f: Forest)
    requires KidsClean(infos, f) && IfsBare(infos, f)
    ensures var g := Tidy(infos, f); Clean(infos, g) && Shown(infos, g) == Shown(infos, f)
  {
    FlattenKeeps(infos, f);
    RemoveIfsCleans(infos, Flatten(infos, f));
  }

  /** Finalizing the first node keeps the order of all nodes that are not ifs, leaves clean children below it, and
      leaves the rest of the chain as parsed. */
  lemma {:induction false} FinalizeKeepsOrder(c: Names, infos: seq<Info>, f: Forest, at: seq<Attr>, vis: Expr)
    requires f.Cons? && AsParsed(infos, f) && |at| == |infos|
    ensures var g := Finalize(c, infos, f, at, vis).f;
            && AsParsed(infos, g.rest) && Clean(infos, g.kids)
            && Shown(infos, g) == Shown(infos, f)
    decreases Size(f), 1
  {
    var info := infos[f.id];
    if info.item.SymItem? {
      var t := Take(c, infos, info.item.id, f.rest, at, vis);
      TakeKeepsOrder(c, infos, info.item.id, f.rest, at, vis);
      TidyCleans(infos, t.taken);
      ShownBelow(infos, f.id, Tidy(infos, t.taken), t.left, f.rest);
    } else if f.kids.Cons? {
      var below := VisibleBelow(c, info, vis);
      var at1 := GiveAll(c, infos, f.kids, at, at[f.id].dep, below);
      FinalizeAllKeepsOrder(c, infos, f.kids, at1, below);
      TidyCleans(infos, FinalizeAll(c, infos, f.kids, at1, below).f);
    }
  }

  lemma {:induction false} TakeKeepsOrder(c: Names, infos: seq<Info>, s: SymId, f: Forest, at: seq<Attr>, vis: Expr)
    requires AsParsed(infos, f) && |at| == |infos|
    ensures var t := Take(c, infos, s, f, at, vis);
            && KidsClean(infos, t.taken) && IfsBare(infos, t.taken) && AsParsed(infos, t.left)
            && Shown(infos, t.taken) + Shown(infos, t.left) == Shown(infos, f)
    decreases Size(f), 2
  {
    if f.Cons? && AutoDep(c, infos, at, s, f.id) {
      var one := Finalize(c, infos, f, at, vis);
      FinalizeKeepsOrder(c, infos, f, at, vis);
      var more := Take(c, infos, s, one.f.rest, one.at, vis);
      TakeKeepsOrder(c, infos, s, one.f.rest, one.at, vis);
      ShownAfter(infos, one.f.id, one.f.kids, more.taken, more.left, one.f.rest);
    }
  }

  lemma {:induction false} FinalizeAllKeepsOrder(c: Names, infos: seq<Info>, f: Forest, at: seq<Attr>, vis: Expr)
    requires AsParsed(infos, f) && |at| == |infos|
    ensures var g := FinalizeAll(c, infos, f, at, vis).f;
            KidsClean(infos, g) && IfsBare(infos, g) && Shown(infos, g) == Shown(infos, f)
    decreases Size(f), 3
  {
    if f.Cons? {
      var one := Finalize(c, infos, f, at, vis);
      FinalizeKeepsOrder(c, infos, f, at, vis);
      FinalizeAllKeepsOrder(c, infos, one.f.rest, one.at, vis);
    }
  }

  lemma {:induction false} CleanShowsAll(infos: seq<Info>, f: Forest)
    requires Clean(infos, f)
    ensures Shown(infos, f) == Preorder(f)
  {
    if f.Cons? {
      CleanShowsAll(infos, f.kids);
      CleanShowsAll(infos, f.rest);
    }
  }

  // ---------------------------------------------------------------- no node is doubled

  lemma {:induction false} FlattenDistinct(infos: seq<Info>, f: Forest)
    requires Within(f, |infos|) && Distinct(f)
    ensures Distinct(Flatten(infos, f)) && Ids(Flatten(infos, f)) == Ids(f)
    decreases Size(f)
  {
    if f.Cons? {
      if f.kids.Cons? && !infos[f.id].hasPrompt {
        AppendFacts(f.kids, f.rest, |infos|);
        FlattenDistinct(infos, Append(f.kids, f.rest));
      } else {
        FlattenDistinct(infos, f.rest);
      }
    }
  }

  lemma {:induction false} RemoveIfsDistinct(infos: seq<Info>, f: Forest)
    requires Within(f, |infos|) && Distinct(f)
    ensures Distinct(RemoveIfs(infos, f)) && Ids(RemoveIfs(infos, f)) <= Ids(f)
  {
    if f.Cons? { RemoveIfsDistinct(infos, f.rest); }
  }

  lemma TidyDistinct(infos: seq<Info>, f: Forest)
    requires Within(f, |infos|) && Distinct(f)
    ensures Distinct(Tidy(infos, f)) && Ids(Tidy(infos, f)) <= Ids(f)
  {
    FlattenDistinct(infos, f);
    RemoveIfsDistinct(infos, Flatten(infos, f));
  }

  lemma {:induction false} FinalizeDistinct(c: Names, infos: seq<Info>, f: Forest, at: seq<Attr>, vis: Expr)
    requires f.Cons? && Within(f, |infos|) && |at| == |infos| && Distinct(f)
    ensures var g := Finalize(c, infos, f, at, vis).f; Distinct(g) && Ids(g) <= Ids(f)
    decreases Size(f), 1
  {
    var info := infos[f.id];
    if info.item.SymItem? {
      TakeDistinct(c, infos, info.item.id, f.rest, at, vis);
      TidyDistinct(infos, Take(c, infos, info.item.id, f.rest, at, vis).taken);
    } else if f.kids.Cons? {
      var below := VisibleBelow(c, info, vis);
      var at1 := GiveAll(c, infos, f.kids, at, at[f.id].dep, below);
      FinalizeAllDistinct(c, infos, f.kids, at1, below);
      TidyDistinct(infos, FinalizeAll(c, infos, f.kids, at1, below).f);
    }
  }

  lemma {:induction false} TakeDistinct(c: Names, infos: seq<Info>, s: SymId, f: Forest, at: seq<Attr>, vis: Expr)
    requires Within(f, |infos|) && |at| == |infos| && Distinct(f)
    ensures var t := Take(c, infos, s, f, at, vis);
            Distinct(t.taken) && Distinct(t.left) && Ids(t.taken) !! Ids(t.left) && Ids(t.taken) + Ids(t.left) <= Ids(f)
    decreases Size(f), 2
  {
    if f.Cons? && AutoDep(c, infos, at, s, f.id) {
      var one := Finalize(c, infos, f, at, vis);
      FinalizeDistinct(c, infos, f, at, vis);
      TakeDistinct(c, infos, s, one.f.rest, one.at, vis);
    }
  }

  lemma {:induction false} FinalizeAllDistinct(c: Names, infos: seq<Info>, f: Forest, at: seq<Attr>, vis: Expr)
    requires Within(f, |infos|) && |at| == |infos| && Distinct(f)
    ensures var g := FinalizeAll(c, infos, f, at, vis).f; Distinct(g) && Ids(g) <= Ids(f)
    decreases Size(f), 3
  {
    if f.Cons? {
      var one := Finalize(c, infos, f, at, vis);
      FinalizeDistinct(c, infos, f, at, vis);
      FinalizeAllDistinct(c, infos, one.f.rest, one.at, vis);
    }
  }

  // ---------------------------------------------------------------- which siblings a submenu takes

  predicate IsTail(t: Forest, f: Forest) {
    t == f || (f.Cons? && IsTail(t, f.rest))
  }

  lemma {:induction false} TailOfTail(t: Forest, u: Forest, f: Forest)
    requires IsTail(t, u) && IsTail(u, f)
    ensures IsTail(t, f)
  {
    if u != f { TailOfTail(t, u, f.rest); }
  }

  /** The rest of a chain holds a node of the chain only in the chain itself, never below. */
  lemma {:induction false} TailTop(t: Forest, f: Forest)
    requires IsTail(t, f) && Distinct(f)
    ensures TopIds(t) <= TopIds(f) && Ids(t) <= Ids(f)
    ensures forall i :: i in TopIds(f) && i in Ids(t) ==> i in TopIds(t)
  {
    TopIdsAreIds(f);
    if t != f { TailTop(t, f.rest); }
  }

  lemma {:induction false} TopIdsAreIds(f: Forest)
    ensures TopIds(f) <= Ids(f)
  {
    if f.Cons? { TopIdsAreIds(f.rest); }
  }

  /** Finalizing the first node uses up a stretch of the chain. */
  lemma {:induction false} FinalizeLeavesTail(c: Names, infos: seq<Info>, f: Forest, at: seq<Attr>, vis: Expr)
    requires f.Cons? && Within(f, |infos|) && |at| == |infos|
    ensures IsTail(Finalize(c, infos, f, at, vis).f.rest, f.rest)
    decreases Size(f), 1
  {
    if infos[f.id].item.SymItem? { TakeLeavesTail(c, infos, infos[f.id].item.id, f.rest, at, vis); }
  }

  lemma {:induction false} TakeLeavesTail(c: Names, infos: seq<Info>, s: SymId, f: Forest, at: seq<Attr>, vis: Expr)
    requires Within(f, |infos|) && |at| == |infos|
    ensures IsTail(Take(c, infos, s, f, at, vis).left, f)
    decreases Size(f), 2
  {
    if f.Cons? && AutoDep(c, infos, at, s, f.id) {
      var one := Finalize(c, infos, f, at, vis);
      FinalizeLeavesTail(c, infos, f, at, vis);
      TakeLeavesTail(c, infos, s, one.f.rest, one.at, vis);
      TailOfTail(Take(c, infos, s, one.f.rest, one.at, vis).left, one.f.rest, f.rest);
    }
  }

  /** The conditions of the nodes of a chain are as final before the chain is finalized as after. */
  predicate TopSame(f: Forest, at: seq<Attr>, at': seq<Attr>) {
    |at| == |at'| && forall i :: 0 <= i < |at| && (i !in Ids(f) || i in TopIds(f)) ==> at'[i] == at[i]
  }

  lemma {:induction false} FinalizeKeepsTop(c: Names, infos: seq<Info>, f: Forest, at: seq<Attr>, vis: Expr)
    requires f.Cons? && Within(f, |infos|) && |at| == |infos| && Distinct(f)
    ensures TopSame(f, at, Finalize(c, infos, f, at, vis).at)
    decreases Size(f), 1
  {
    var info := infos[f.id];
    TopIdsAreIds(f.rest);
    TopIdsAreIds(f.kids);
    if info.item.SymItem? {
      TakeKeepsTop(c, infos, info.item.id, f.rest, at, vis);
    } else if f.kids.Cons? {
      var below := VisibleBelow(c, info, vis);
      var at1 := GiveAll(c, infos, f.kids, at, at[f.id].dep, below);
      GiveAllFrame(c, infos, f.kids, at, at[f.id].dep, below);
      FinalizeAllKeepsTop(c, infos, f.kids, at1, below);
    }
  }

  lemma {:induction false} TakeKeepsTop(c: Names, infos: seq<Info>, s: SymId, f: Forest, at: seq<Attr>, vis: Expr)
    requires Within(f, |infos|) && |at| == |infos| && Distinct(f)
    ensures TopSame(f, at, Take(c, infos, s, f, at, vis).at)
    decreases Size(f), 2
  {
    if f.Cons? && AutoDep(c, infos, at, s, f.id) {
      var one := Finalize(c, infos, f, at, vis);
      FinalizeKeepsTop(c, infos, f, at, vis);
      FinalizeDistinct(c, infos, f, at, vis);
      FinalizeLeavesTail(c, infos, f, at, vis);
      TailTop(one.f.rest, f.rest);
      TakeKeepsTop(c, infos, s, one.f.rest, one.at, vis);
    }
  }

  lemma {:induction false} FinalizeAllKeepsTop(c: Names, infos: seq<Info>, f: Forest, at: seq<Attr>, vis: Expr)
    requires Within(f, |infos|) && |at| == |infos| && Distinct(f)
    ensures TopSame(f, at, FinalizeAll(c, infos, f, at, vis).at)
    decreases Size(f), 3
  {
    if f.Cons? {
      var one := Finalize(c, infos, f, at, vis);
      FinalizeKeepsTop(c, infos, f, at, vis);
      FinalizeDistinct(c, infos, f, at, vis);
      FinalizeLeavesTail(c, infos, f, at, vis);
      TailTop(one.f.rest, f.rest);
      FinalizeAllKeepsTop(c, infos, one.f.rest, one.at, vis);
    }
  }

  /** Each node of the submenu depends on the symbol, and the sibling that follows, if there is one, does not. */
  predicate IsMaximal(c: Names, infos: seq<Info>, s: SymId, f: Forest, at: seq<Attr>, taken: Forest, left: Forest)
    requires |at| == |infos|
  {
    && TopIds(taken) <= TopIds(f) && (left.Cons? ==> left.id in TopIds(f))
    && (forall i :: i in TopIds(taken) && i < |at| ==> AutoDep(c, infos, at, s, i))
    && (left.Cons? && left.id < |at| ==> !AutoDep(c, infos, at, s, left.id))
  }

  lemma MaximalStep(c: Names, infos: seq<Info>, s: SymId, f: Forest, at: seq<Attr>, g: Forest, at': seq<Attr>,
      kids: Forest, taken: Forest, left: Forest)
    requires |at| == |at'| == |infos| && f.Cons? && f.id < |at| && AutoDep(c, infos, at, s, f.id)
    requires TopIds(g) <= TopIds(f) && IsMaximal(c, infos, s, g, at', taken, left)
    requires forall i :: i in TopIds(f) && i < |at| ==> at'[i] == at[i]
    ensures IsMaximal(c, infos, s, f, at, Cons(f.id, kids, taken), left)
  {
    forall i | i in TopIds(taken) && i < |at| ensures AutoDep(c, infos, at, s, i) {
      assert AutoDep(c, infos, at', s, i);
    }
  }

  /** The submenu of a symbol is a maximal run: each of its nodes depends on the symbol, and the sibling that follows
      it, if there is one, does not. */
  lemma {:induction false} TakeIsMaximal(c: Names, infos: seq<Info>, s: SymId, f: Forest, at: seq<Attr>, vis: Expr)
    requires Within(f, |infos|) && |at| == |infos| && Distinct(f)
    ensures var t := Take(c, infos, s, f, at, vis);
            IsMaximal(c, infos, s, f, at, t.taken, t.left)
    decreases Size(f)
  {
    if f.Cons? && AutoDep(c, infos, at, s, f.id) {
      var one := Finalize(c, infos, f, at, vis);
      var more := Take(c, infos, s, one.f.rest, one.at, vis);
      FinalizeKeepsTop(c, infos, f, at, vis);
      FinalizeDistinct(c, infos, f, at, vis);
      FinalizeLeavesTail(c, infos, f, at, vis);
      TailTop(one.f.rest, f.rest);
      TakeIsMaximal(c, infos, s, one.f.rest, one.at, vis);
      MaximalStep(c, infos, s, f, at, one.f.rest, one.at, one.f.kids, more.taken, more.left);
    }
  }

  // ---------------------------------------------------------------- what the conditions come to mean

  /** The attributes below the chain f once everything is finalized, computed on the tree as parsed: implicit
      submenus, flattening and the removal of ifs leave no trace in them. */
  function Spread(c: Names, infos: seq<Info>, f: Forest, at: seq<Attr>, vis: Expr): (at': seq<Attr>)
    requires Within(f, |infos|) && |at| == |infos|
    ensures |at'| == |at|
    decreases Size(f), 1
  {
    if f.Nil? then at else Spread(c, infos, f.rest, SpreadBelow(c, infos, f, at, vis), vis)
  }

  function SpreadBelow(c: Names, infos: seq<Info>, f: Forest, at: seq<Attr>, vis: Expr): (at': seq<Attr>)
    requires f.Cons? && Within(f, |infos|) && |at| == |infos|
    ensures |at'| == |at|
    decreases Size(f), 0
  {
    var below := VisibleBelow(c, infos[f.id], vis);
    if f.kids.Nil? then at
    else Spread(c, infos, f.kids, GiveAll(c, infos, f.kids, at, at[f.id].dep, below), below)
  }

  lemma {:induction false} FinalizeSpreads(c: Names, infos: seq<Info>, f: Forest, at: seq<Attr>, vis: Expr)
    requires f.Cons? && AsParsed(infos, f) && |at| == |infos|
    ensures var s := Finalize(c, infos, f, at, vis);
            Spread(c, infos, s.f.rest, s.at, vis) == Spread(c, infos, f, at, vis)
    decreases Size(f), 1
  {
    var info := infos[f.id];
    if info.item.SymItem? {
      assert SpreadBelow(c, infos, f, at, vis) == at;
      TakeSpreads(c, infos, info.item.id, f.rest, at, vis);
    } else if f.kids.Cons? {
      var below := VisibleBelow(c, info, vis);
      FinalizeAllSpreads(c, infos, f.kids, GiveAll(c, infos, f.kids, at, at[f.id].dep, below), below);
    }
  }

  lemma {:induction false} TakeSpreads(c: Names, infos: seq<Info>, s: SymId, f: Forest, at: seq<Attr>, vis: Expr)
    requires AsParsed(infos, f) && |at| == |infos|
    ensures var t := Take(c, infos, s, f, at, vis);
            Spread(c, infos, t.left, t.at, vis) == Spread(c, infos, f, at, vis)
    decreases Size(f), 2
  {
    if f.Cons? && AutoDep(c, infos, at, s, f.id) {
      var one := Finalize(c, infos, f, at, vis);
      FinalizeKeepsOrder(c, infos, f, at, vis);
      FinalizeSpreads(c, infos, f, at, vis);
      TakeSpreads(c, infos, s, one.f.rest, one.at, vis);
    }
  }

  lemma {:induction false} FinalizeAllSpreads(c: Names, infos: seq<Info>, f: Forest, at: seq<Attr>, vis: Expr)
    requires AsParsed(infos, f) && |at| == |infos|
    ensures FinalizeAll(c, infos, f, at, vis).at == Spread(c, infos, f, at, vis)
    decreases Size(f), 3
  {
    if f.Cons? {
      var one := Finalize(c, infos, f, at, vis);
      FinalizeKeepsOrder(c, infos, f, at, vis);
      FinalizeSpreads(c, infos, f, at, vis);
      FinalizeAllSpreads(c, infos, one.f.rest, one.at, vis);
    }
  }

  predicate AttrIn(a: Attr, n: nat) {
    InRange(a.dep, n) && InRange(a.prompt, n) && forall i :: 0 <= i < |a.conds| ==> InRange(a.conds[i], n)
  }

  /** All expressions of the tree are about known symbols. */
  predicate Known(infos: seq<Info>, at: seq<Attr>, n: nat) {
    && |infos| == |at|
    && forall i :: 0 <= i < |at| ==> AttrIn(at[i], n) && InRange(infos[i].visibility, n)
  }

  lemma GivenKnown(c: Names, info: Info, a: Attr, base: Expr, vis: Expr, n: nat)
    requires AttrIn(a, n) && InRange(base, n) && InRange(vis, n) && c.n < n && c.y < n
    ensures AttrIn(Given(c, info, a, base, vis), n)
  {
  }

  /** A condition with a dependency d and, for the prompts of symbols, a visibility v added. */
  predicate Gated(ty: Typing, env: Env, info: Info, a0: Attr, a: Attr, d: Tri, v: Tri)
    requires |ty.types| == |env| && AttrIn(a0, |env|) && AttrIn(a, |env|)
  {
    var limit := if info.item.SymItem? then Min(v, d) else d;
    && Meaning(ty, env, a.dep) == d
    && (info.hasPrompt ==> Meaning(ty, env, a.prompt) == Min(Meaning(ty, env, a0.prompt), limit))
    && (info.item.SymItem? ==> CondsGated(ty, env, a0.conds, a.conds, d))
    && (!info.item.SymItem? ==> a.conds == a0.conds)
  }

  predicate CondsGated(ty: Typing, env: Env, conds0: seq<Expr>, conds: seq<Expr>, d: Tri)
    requires |ty.types| == |env|
    requires forall i :: 0 <= i < |conds0| ==> InRange(conds0[i], |env|)
    requires forall i :: 0 <= i < |conds| ==> InRange(conds[i], |env|)
  {
    && |conds| == |conds0|
    && forall k :: 0 <= k < |conds| ==> Meaning(ty, env, conds[k]) == Min(Meaning(ty, env, conds0[k]), d)
  }

  lemma WithDepIsGated(c: Names, ty: Typing, env: Env, conds: seq<Expr>, dep: Expr)
    requires Constants(c, ty, env) && InRange(dep, |env|)
    requires forall i :: 0 <= i < |conds| ==> InRange(conds[i], |env|)
    ensures var r := WithDep(c, conds, dep);
            (forall i :: 0 <= i < |r| ==> InRange(r[i], |env|)) && CondsGated(ty, env, conds, r, Meaning(ty, env, dep))
  {
    forall k | 0 <= k < |conds|
      ensures InRange(MakeAnd(c, conds[k], dep), |env|)
      ensures Meaning(ty, env, MakeAnd(c, conds[k], dep)) == Min(Meaning(ty, env, conds[k]), Meaning(ty, env, dep))
    {
      MakeAndMeaning(c, ty, env, conds[k], dep);
    }
  }

  lemma GivenIsGated(c: Names, ty: Typing, env: Env, info: Info, a: Attr, base: Expr, vis: Expr)
    requires Constants(c, ty, env) && AttrIn(a, |env|) && InRange(base, |env|) && InRange(vis, |env|)
    ensures var g := Given(c, info, a, base, vis);
            AttrIn(g, |env|)
            && Gated(ty, env, info, a, g, Min(Meaning(ty, env, a.dep), Meaning(ty, env, base)), Meaning(ty, env, vis))
  {
    GivenKnown(c, info, a, base, vis, |env|);
    var g := Given(c, info, a, base, vis);
    MakeAndMeaning(c, ty, env, a.dep, base);
    MakeAndMeaning(c, ty, env, vis, g.dep);
    MakeAndMeaning(c, ty, env, a.prompt, MakeAnd(c, vis, g.dep));
    MakeAndMeaning(c, ty, env, a.prompt, g.dep);
    WithDepIsGated(c, ty, env, a.conds, g.dep);
  }

  lemma {:induction false} GiveAllFrame(c: Names, infos: seq<Info>, f: Forest, at: seq<Attr>, base: Expr, vis: Expr)
    requires Within(f, |infos|) && |at| == |infos|
    ensures forall i :: 0 <= i < |at| && i !in TopIds(f) ==> GiveAll(c, infos, f, at, base, vis)[i] == at[i]
  {
    if f.Cons? {
      GiveAllFrame(c, infos, f.rest, at[f.id := Given(c, infos[f.id], at[f.id], base, vis)], base, vis);
    }
  }

  /** at is at0 with the step of _propagate_deps() done for the nodes of the chain f, and for no node below them. */
  predicate Primed(c: Names, infos: seq<Info>, f: Forest, at0: seq<Attr>, at: seq<Attr>, base: Expr, vis: Expr)
    requires Within(f, |infos|) && |at0| == |at| == |infos|
  {
    f.Cons? ==>
      && at[f.id] == Given(c, infos[f.id], at0[f.id], base, vis)
      && (forall i :: i in Ids(f.kids) && i < |at| ==> at[i] == at0[i])
      && Primed(c, infos, f.rest, at0, at, base, vis)
  }

  lemma {:induction false} PrimedFrame(c: Names, infos: seq<Info>, f: Forest, at0: seq<Attr>, at: seq<Attr>,
      at': seq<Attr>, base: Expr, vis: Expr)
    requires Within(f, |infos|) && |at0| == |at| == |at'| == |infos|
    requires Primed(c, infos, f, at0, at, base, vis)
    requires forall i :: i in Ids(f) && i < |at| ==> at'[i] == at[i]
    ensures Primed(c, infos, f, at0, at', base, vis)
  {
    if f.Cons? {
      WithinIds(f, |infos|);
      PrimedFrame(c, infos, f.rest, at0, at, at', base, vis);
    }
  }

  lemma {:induction false} WithinIds(f: Forest, n: nat)
    requires Within(f, n)
    ensures forall i :: i in Ids(f) ==> i < n
  {
    if f.Cons? {
      WithinIds(f.kids, n);
      WithinIds(f.rest, n);
    }
  }

  lemma {:induction false} GiveAllPrimes(c: Names, infos: seq<Info>, f: Forest, at0: seq<Attr>, at: seq<Attr>,
      base: Expr, vis: Expr)
    requires Within(f, |infos|) && |at0| == |at| == |infos| && Distinct(f)
    requires forall i :: i in Ids(f) && i < |at| ==> at[i] == at0[i]
    ensures Primed(c, infos, f, at0, GiveAll(c, infos, f, at, base, vis), base, vis)
  {
    if f.Cons? {
      var at1 := at[f.id := Given(c, infos[f.id], at[f.id], base, vis)];
      GiveAllPrimes(c, infos, f.rest, at0, at1, base, vis);
      GiveAllFrame(c, infos, f.rest, at1, base, vis);
      TopIdsAreIds(f.rest);
    }
  }

  /** Spreading below a chain changes only nodes below it. */
  lemma {:induction false} SpreadFrame(c: Names, infos: seq<Info>, f: Forest, at: seq<Attr>, vis: Expr)
    requires Within(f, |infos|) && |at| == |infos| && Distinct(f)
    ensures forall i :: 0 <= i < |at| && i !in Ids(f) ==> Spread(c, infos, f, at, vis)[i] == at[i]
    ensures forall i :: 0 <= i < |at| && i in TopIds(f) ==> Spread(c, infos, f, at, vis)[i] == at[i]
    decreases Size(f), 1
  {
    if f.Cons? {
      SpreadBelowFrame(c, infos, f, at, vis);
      SpreadFrame(c, infos, f.rest, SpreadBelow(c, infos, f, at, vis), vis);
      TopIdsAreIds(f.rest);
    }
  }

  lemma {:induction false} SpreadBelowFrame(c: Names, infos: seq<Info>, f: Forest, at: seq<Attr>, vis: Expr)
    requires f.Cons? && Within(f, |infos|) && |at| == |infos| && Distinct(f)
    ensures forall i :: 0 <= i < |at| && i !in Ids(f.kids) ==> SpreadBelow(c, infos, f, at, vis)[i] == at[i]
    decreases Size(f), 0
  {
    var below := VisibleBelow(c, infos[f.id], vis);
    GiveAllFrame(c, infos, f.kids, at, at[f.id].dep, below);
    TopIdsAreIds(f.kids);
    SpreadFrame(c, infos, f.kids, GiveAll(c, infos, f.kids, at, at[f.id].dep, below), below);
  }

  /** The minimum of the written dependencies of node j and of all nodes above it in f. */
  function DepAlong(ty: Typing, env: Env, infos: seq<Info>, f: Forest, at: seq<Attr>, j: nat): Tri
    requires j in Ids(f) && Within(f, |at|) && |ty.types| == |env| && Known(infos, at, |env|)
  {
    var own := Meaning(ty, env, at[f.id].dep);
    if j == f.id then own
    else if j in Ids(f.kids) then Min(own, DepAlong(ty, env, infos, f.kids, at, j))
    else DepAlong(ty, env, infos, f.rest, at, j)
  }

  /** The minimum of the 'visible if' conditions of the menus above node j in f. */
  function VisAlong(ty: Typing, env: Env, infos: seq<Info>, f: Forest, at: seq<Attr>, j: nat): Tri
    requires j in Ids(f) && Within(f, |at|) && |ty.types| == |env| && Known(infos, at, |env|)
  {
    if j == f.id then 2
    else if j in Ids(f.kids) then
      var more := VisAlong(ty, env, infos, f.kids, at, j);
      if infos[f.id].item.MenuItem? then Min(Meaning(ty, env, infos[f.id].visibility), more) else more
    else VisAlong(ty, env, infos, f.rest, at, j)
  }

  /** Dependency propagation means conjunction: every condition of node j comes out as its written value limited by
      base, by the dependencies of j and of everything around it, and for prompts of symbols also by vis and every
      enclosing 'visible if'. */
  lemma {:induction false} SpreadGates(c: Names, ty: Typing, env: Env, infos: seq<Info>, f: Forest, at0: seq<Attr>,
      at: seq<Attr>, base: Expr, vis: Expr, j: nat)
    requires Constants(c, ty, env) && Within(f, |infos|) && Distinct(f) && j in Ids(f)
    requires Known(infos, at0, |env|) && |at| == |infos| && InRange(base, |env|) && InRange(vis, |env|)
    requires Primed(c, infos, f, at0, at, base, vis)
    ensures j < |infos| && AttrIn(Spread(c, infos, f, at, vis)[j], |env|)
    ensures Gated(ty, env, infos[j], at0[j], Spread(c, infos, f, at, vis)[j],
              Min(Meaning(ty, env, base), DepAlong(ty, env, infos, f, at0, j)),
              Min(Meaning(ty, env, vis), VisAlong(ty, env, infos, f, at0, j)))
    decreases Size(f)
  {
    var at1 := SpreadBelow(c, infos, f, at, vis);
    SpreadBelowFrame(c, infos, f, at, vis);
    SpreadFrame(c, infos, f.rest, at1, vis);
    GivenIsGated(c, ty, env, infos[f.id], at0[f.id], base, vis);
    if j == f.id {
    } else if j in Ids(f.kids) {
      GatedBelow(c, ty, env, infos, f, at0, at, base, vis, j);
    } else {
      PrimedFrame(c, infos, f.rest, at0, at, at1, base, vis);
      SpreadGates(c, ty, env, infos, f.rest, at0, at1, base, vis, j);
    }
  }

  lemma {:induction false} GatedBelow(c: Names, ty: Typing, env: Env, infos: seq<Info>, f: Forest, at0: seq<Attr>,
      at: seq<Attr>, base: Expr, vis: Expr, j: nat)
    requires Constants(c, ty, env) && f.Cons? && Within(f, |infos|) && Distinct(f) && j in Ids(f.kids)
    requires Known(infos, at0, |env|) && |at| == |infos| && InRange(base, |env|) && InRange(vis, |env|)
    requires Primed(c, infos, f, at0, at, base, vis)
    ensures j < |infos| && AttrIn(SpreadBelow(c, infos, f, at, vis)[j], |env|)
    ensures Gated(ty, env, infos[j], at0[j], SpreadBelow(c, infos, f, at, vis)[j],
              Min(Meaning(ty, env, base), DepAlong(ty, env, infos, f, at0, j)),
              Min(Meaning(ty, env, vis), VisAlong(ty, env, infos, f, at0, j)))
    decreases Size(f), 0
  {
    var info := infos[f.id];
    var below, dep := VisibleBelow(c, info, vis), at[f.id].dep;
    GivenIsGated(c, ty, env, info, at0[f.id], base, vis);
    MakeAndMeaning(c, ty, env, vis, info.visibility);
    GiveAllPrimes(c, infos, f.kids, at0, at, dep, below);
    SpreadGates(c, ty, env, infos, f.kids, at0, GiveAll(c, infos, f.kids, at, dep, below), dep, below, j);
  }

  /** The whole of it for node j of a tree: top is the top node, kids the chain of its children as parsed, at0 the
      attributes as parsed and at the finalized ones. */
  predicate Conjoined(ty: Typing, env: Env, infos: seq<Info>, top: nat, kids: Forest, at0: seq<Attr>, at: seq<Attr>,
      j: nat) {
    && |ty.types| == |env| && Within(kids, |infos|) && top < |infos| && j < |infos| && j in Ids(kids)
    && |at| == |infos| && Known(infos, at0, |env|) && AttrIn(at[j], |env|)
    && Gated(ty, env, infos[j], at0[j], at[j],
             Min(Meaning(ty, env, at0[top].dep), DepAlong(ty, env, infos, kids, at0, j)),
             Min(Meaning(ty, env, infos[top].visibility), VisAlong(ty, env, infos, kids, at0, j)))
  }

  /** Finalizing a tree, below its top menu. */
  lemma TreeConjoins(c: Names, ty: Typing, env: Env, infos: seq<Info>, top: nat, kids: Forest, at0: seq<Attr>, j: nat)
    requires top < |infos| && infos[top].item.MenuItem? && AsParsed(infos, kids) && Distinct(kids) && j in Ids(kids)
    requires Constants(c, ty, env) && Known(infos, at0, |env|)
    ensures Conjoined(ty, env, infos, top, kids, at0, Finalize(c, infos, Cons(top, kids, Nil), at0, Sym(c.y)).at, j)
  {
    var below := VisibleBelow(c, infos[top], Sym(c.y));
    var at1 := GiveAll(c, infos, kids, at0, at0[top].dep, below);
    WithinIds(kids, |infos|);
    assert kids.Cons?;
    MakeAndMeaning(c, ty, env, Sym(c.y), infos[top].visibility);
    FinalizeAllSpreads(c, infos, kids, at1, below);
    GiveAllPrimes(c, infos, kids, at0, at0, at0[top].dep, below);
    SpreadGates(c, ty, env, infos, kids, at0, at1, at0[top].dep, below, j);
  }

  lemma {:induction false} PreorderFacts(f: Forest)
    requires Distinct(f)
    ensures NoDouble(Preorder(f)) && forall x :: x in Preorder(f) <==> x in Ids(f)
  {
    if f.Cons? {
      PreorderFacts(f.kids);
      PreorderFacts(f.rest);
      var k, r := Preorder(f.kids), Preorder(f.rest);
      forall x ensures x in Preorder(f) <==> x in Ids(f) {
        assert x in [f.id] + k + r <==> x == f.id || x in k || x in r;
      }
      NoDoubleJoined(f.id, k, r);
    }
  }

  lemma NoDoubleJoined(x: nat, k: seq<nat>, r: seq<nat>)
    requires NoDouble(k) && NoDouble(r) && x !in k && x !in r && forall y :: y in k ==> y !in r
    ensures NoDouble([x] + k + r)
  {
    var s := [x] + k + r;
    forall i, j | 0 <= i < j < |s| ensures s[i] != s[j] {
      if 1 <= i <= |k| < j { assert s[i] in k && s[j] in r; }
    }
  }
}
