/** The menu tree in memory: nodes that are relinked in place through next, list and parent. */
module KconfigMenu {
  import opened KconfigExpr
  import opened Options
  import opened KconfigGrammar
  import opened KconfigForest
  import opened KconfigNesting
  import opened Seqs

  /** A reference to a node, by its number; None where kconfiglib has None. */
  type Ref = Option<nat>

  datatype Links = Links(next: Ref, list: Ref, parent: Ref)

  type Heap = seq<Links>

  // ---------------------------------------------------------------- chains of nodes

  /** From r on, the next fields lead through the chain f to e; all its nodes have parent p, and their list fields
      hold their children, with right parents, all the way down. */
  ghost predicate Seg(h: Heap, r: Ref, p: Ref, f: Forest, e: Ref)
    decreases f
  {
    if f.Nil? then r == e
    else
      && r == Some(f.id) && f.id < |h| && h[f.id].parent == p
      && Seg(h, h[f.id].list, Some(f.id), f.kids, None)
      && Seg(h, h[f.id].next, p, f.rest, e)
  }

  lemma {:induction false} SegWithin(h: Heap, r: Ref, p: Ref, f: Forest, e: Ref)
    requires Seg(h, r, p, f, e)
    ensures Within(f, |h|)
    decreases f
  {
    if f.Cons? {
      SegWithin(h, h[f.id].list, Some(f.id), f.kids, None);
      SegWithin(h, h[f.id].next, p, f.rest, e);
    }
  }

  predicate SameOn(h: Heap, h': Heap, s: set<nat>) {
    |h| == |h'| && forall i :: i in s && i < |h| ==> h'[i] == h[i]
  }

  predicate SameOff(h: Heap, h': Heap, s: set<nat>) {
    |h| == |h'| && forall i :: 0 <= i < |h| && i !in s ==> h'[i] == h[i]
  }

  lemma SameOffTwice(h: Heap, h1: Heap, h2: Heap, s: set<nat>)
    requires SameOff(h, h1, s) && SameOff(h1, h2, s)
    ensures SameOff(h, h2, s)
  {
  }

  lemma {:induction false} SegFrame(h: Heap, h': Heap, r: Ref, p: Ref, f: Forest, e: Ref)
    requires Seg(h, r, p, f, e) && SameOn(h, h', Ids(f))
    ensures Seg(h', r, p, f, e)
    decreases f
  {
    if f.Cons? {
      SegFrame(h, h', h[f.id].list, Some(f.id), f.kids, None);
      SegFrame(h, h', h[f.id].next, p, f.rest, e);
    }
  }

  lemma {:induction false} SegAppend(h: Heap, r: Ref, p: Ref, a: Forest, m: Ref, b: Forest, e: Ref)
    requires Seg(h, r, p, a, m) && Seg(h, m, p, b, e)
    ensures Seg(h, r, p, Append(a, b), e)
    decreases a
  {
    if a.Cons? { SegAppend(h, h[a.id].next, p, a.rest, m, b, e); }
  }

  function Last(f: Forest): nat
    requires f.Cons?
  {
    if f.rest.Nil? then f.id else Last(f.rest)
  }

  lemma {:induction false} LastOfAppend(a: Forest, b: Forest)
    requires b.Cons?
    ensures Append(a, b).Cons? && Last(Append(a, b)) == Last(b)
  {
    if a.Cons? { LastOfAppend(a.rest, b); }
  }

  lemma {:induction false} LastIsTop(f: Forest)
    requires f.Cons?
    ensures Last(f) in Ids(f)
  {
    if f.rest.Cons? { LastIsTop(f.rest); }
  }

  lemma {:induction false} AppendAgain(a: Forest, b: Forest, d: Forest)
    ensures Append(Append(a, b), d) == Append(a, Append(b, d))
    ensures Append(a, Nil) == a
  {
    if a.Cons? { AppendAgain(a.rest, b, d); }
  }

  /** Assigning the next field of the last node of a chain moves the end of the chain. */
  lemma {:induction false} SegRetarget(h: Heap, h': Heap, r: Ref, p: Ref, f: Forest, e: Ref, e': Ref)
    requires Seg(h, r, p, f, e) && f.Cons? && Distinct(f) && Last(f) < |h|
    requires h' == h[Last(f) := h[Last(f)].(next := e')]
    ensures Seg(h', r, p, f, e')
    decreases f
  {
    if f.rest.Nil? {
      SegFrame(h, h', h[f.id].list, Some(f.id), f.kids, None);
    } else {
      LastIsTop(f.rest);
      SegFrame(h, h', h[f.id].list, Some(f.id), f.kids, None);
      SegRetarget(h, h', h[f.id].next, p, f.rest, e, e');
    }
  }

  /** Two chains without a node in common, and without a node twice. */
  predicate Apart(a: Forest, b: Forest) {
    Distinct(a) && Distinct(b) && Ids(a) !! Ids(b)
  }

  /** Moving the first node of todo, with kids k now, to the end of done. */
  function Snoc(done: Forest, i: nat, k: Forest): Forest { Append(done, Cons(i, k, Nil)) }

  lemma SnocMoves(done: Forest, i: nat, k: Forest, rest: Forest, n: nat)
    requires Apart(done, Cons(i, k, rest)) && Within(done, n) && Within(Cons(i, k, rest), n)
    ensures Apart(Snoc(done, i, k), rest) && Within(Snoc(done, i, k), n)
    ensures Ids(Snoc(done, i, k)) + Ids(rest) == Ids(done) + Ids(Cons(i, k, rest))
    ensures Append(Snoc(done, i, k), rest) == Append(done, Cons(i, k, rest))
    ensures Last(Snoc(done, i, k)) == i
  {
    var one := Cons(i, k, Nil);
    assert Ids(one) == {i} + Ids(k) && Distinct(one);
    AppendAgain(done, one, rest);
    AppendFacts(done, one, n);
    LastOfAppend(done, one);
  }

  lemma SegSnoc(h: Heap, r: Ref, p: Ref, done: Forest, i: nat, k: Forest)
    requires Seg(h, r, p, done, Some(i)) && i < |h| && h[i].parent == p && Seg(h, h[i].list, Some(i), k, None)
    ensures Seg(h, r, p, Snoc(done, i, k), h[i].next)
  {
    SegAppend(h, r, p, done, Some(i), Cons(i, k, Nil), h[i].next);
  }

  /** Halfway through giving the children of i the parent p: the chain from r is lifted, the rest is left. */
  ghost predicate Lifting(h: Heap, i: nat, p: Ref, kids: Forest, lifted: Forest, left: Forest) {
    && Apart(lifted, left) && Within(lifted, |h|) && Within(left, |h|)
    && i < |h| && i !in Ids(kids) && Ids(lifted) + Ids(left) == Ids(kids) && Append(lifted, left) == kids
    && left.Cons?
    && Seg(h, h[i].list, p, lifted, Some(left.id)) && Seg(h, Some(left.id), Some(i), left, None)
  }

  lemma LiftStep(h: Heap, h': Heap, i: nat, p: Ref, kids: Forest, lifted: Forest, left: Forest)
    requires Lifting(h, i, p, kids, lifted, left)
    requires h' == h[left.id := h[left.id].(parent := p)]
    ensures left.rest.Cons? ==> h[left.id].next == Some(left.rest.id)
    ensures left.rest.Cons? ==> Lifting(h', i, p, kids, Snoc(lifted, left.id, left.kids), left.rest)
    ensures left.rest.Nil? ==> h[left.id].next == None && Last(kids) == left.id && Seg(h', h[i].list, p, kids, None)
  {
    var last := left.id;
    SegFrame(h, h', h[i].list, p, lifted, Some(last));
    SegFrame(h, h', h[last].list, Some(last), left.kids, None);
    SegFrame(h, h', h[last].next, Some(i), left.rest, None);
    SegSnoc(h', h[i].list, p, lifted, last, left.kids);
    SnocMoves(lifted, last, left.kids, left.rest, |h|);
  }

  /** With the children of i in place under its parent, three assignments link them in after i. */
  lemma LiftLinks(h: Heap, h': Heap, i: nat, p: Ref, kids: Forest, rest: Forest)
    requires kids.Cons? && Distinct(Cons(i, kids, rest)) && Within(Cons(i, kids, rest), |h|)
    requires h[i].parent == p && Seg(h, h[i].list, p, kids, None) && Seg(h, h[i].next, p, rest, None)
    requires Last(kids) < |h|
    requires h' == h[Last(kids) := h[Last(kids)].(next := h[i].next)][i := Links(h[i].list, None, p)]
    ensures Seg(h', Some(i), p, Cons(i, Nil, Append(kids, rest)), None)
  {
    LastIsTop(kids);
    var h1 := h[Last(kids) := h[Last(kids)].(next := h[i].next)];
    SegRetarget(h, h1, h[i].list, p, kids, None, h[i].next);
    SegFrame(h, h1, h[i].next, p, rest, None);
    SegAppend(h1, h[i].list, p, kids, h[i].next, rest, None);
    AppendFacts(kids, rest, |h|);
    SegFrame(h1, h', h[i].list, p, Append(kids, rest), None);
  }

  lemma LastWithin(f: Forest, n: nat)
    requires f.Cons? && Within(f, n)
    ensures Last(f) in Ids(f) && Last(f) < n
  {
    LastIsTop(f);
    WithinIds(f, n);
  }

  function FlattenOne(infos: seq<Info>, f: Forest): Forest
    requires f.Cons? && f.id < |infos|
  {
    if f.kids.Cons? && !infos[f.id].hasPrompt then Cons(f.id, Nil, Append(f.kids, f.rest)) else f
  }

  lemma FlattenOneFacts(infos: seq<Info>, f: Forest)
    requires f.Cons? && Within(f, |infos|) && Distinct(f)
    ensures var g := FlattenOne(infos, f);
            && g.Cons? && g.id == f.id && Within(g, |infos|) && Distinct(g) && Ids(g) == Ids(f)
            && Size(g.rest) < Size(f) && Flatten(infos, f) == Cons(f.id, g.kids, Flatten(infos, g.rest))
  {
    AppendFacts(f.kids, f.rest, |infos|);
  }

  function First(f: Forest): Ref { if f.Nil? then None else Some(f.id) }

  lemma SegEnds(h: Heap, r: Ref, p: Ref, f: Forest)
    requires Seg(h, r, p, f, None)
    ensures r == First(f)
  {
  }

  /** Halfway through _flatten(): the chain from first is flat up to cur. */
  ghost predicate Flattening(h: Heap, first: Ref, p: Ref, infos: seq<Info>, f: Forest, done: Forest, cur: Ref,
      todo: Forest) {
    && |h| == |infos| && Apart(done, todo) && Within(done, |h|) && Within(todo, |h|) && Within(f, |h|)
    && Ids(done) + Ids(todo) == Ids(f) && Append(done, Flatten(infos, todo)) == Flatten(infos, f)
    && Seg(h, first, p, done, cur) && Seg(h, cur, p, todo, None)
  }

  lemma FlattenStep(h: Heap, h': Heap, first: Ref, p: Ref, infos: seq<Info>, f: Forest, done: Forest, todo: Forest,
      flat: Forest)
    requires todo.Cons? && flat.Cons? && Flattening(h, first, p, infos, f, done, Some(todo.id), todo)
    requires flat == FlattenOne(infos, todo)
    requires SameOff(h, h', Ids(todo)) && Seg(h', Some(todo.id), p, flat, None)
    ensures Flattening(h', first, p, infos, f, Snoc(done, todo.id, flat.kids), h'[todo.id].next, flat.rest)
    ensures Size(flat.rest) < Size(todo)
  {
    var i := todo.id;
    FlattenOneFacts(infos, todo);
    SegFrame(h, h', first, p, done, Some(i));
    SegSnoc(h', first, p, done, i, flat.kids);
    SnocMoves(done, i, flat.kids, flat.rest, |h|);
    AppendAgain(done, Cons(i, flat.kids, Nil), Flatten(infos, flat.rest));
  }

  /** The chain from its first node on that is not an if. */
  function PastIfs(infos: seq<Info>, f: Forest): (g: Forest)
    requires Within(f, |infos|)
    ensures Within(g, |infos|) && Size(g) <= Size(f)
  {
    if f.Cons? && infos[f.id].item.IfItem? then PastIfs(infos, f.rest) else f
  }

  lemma {:induction false} PastIfsFacts(infos: seq<Info>, f: Forest)
    requires Within(f, |infos|)
    ensures var g := PastIfs(infos, f);
            && Ids(g) <= Ids(f) && (Distinct(f) ==> Distinct(g)) && RemoveIfs(infos, g) == RemoveIfs(infos, f)
            && (g.Cons? ==> !infos[g.id].item.IfItem?)
  {
    if f.Cons? && infos[f.id].item.IfItem? { PastIfsFacts(infos, f.rest); }
  }

  /** Halfway through _remove_ifs(): no ifs in the chain up to cur, and none at cur. */
  ghost predicate Removing(h: Heap, first: Ref, p: Ref, infos: seq<Info>, f: Forest, done: Forest, cur: Ref,
      todo: Forest) {
    && |h| == |infos| && Apart(done, todo) && Within(done, |h|) && Within(todo, |h|) && Within(f, |h|)
    && Ids(done) + Ids(todo) <= Ids(f) && Append(done, RemoveIfs(infos, todo)) == RemoveIfs(infos, f)
    && (todo.Cons? ==> !infos[todo.id].item.IfItem?)
    && Seg(h, first, p, done, cur) && Seg(h, cur, p, todo, None)
  }

  lemma RemoveStep(h: Heap, h': Heap, first: Ref, p: Ref, infos: seq<Info>, f: Forest, done: Forest, todo: Forest,
      next: Ref)
    requires todo.Cons? && Removing(h, first, p, infos, f, done, Some(todo.id), todo)
    requires Seg(h, next, p, PastIfs(infos, todo.rest), None)
    requires h' == h[todo.id := h[todo.id].(next := next)]
    ensures Removing(h', first, p, infos, f, Snoc(done, todo.id, todo.kids), next, PastIfs(infos, todo.rest))
  {
    var i, rest := todo.id, PastIfs(infos, todo.rest);
    PastIfsFacts(infos, todo.rest);
    SegFrame(h, h', first, p, done, Some(i));
    SegFrame(h, h', h[i].list, Some(i), todo.kids, None);
    SegFrame(h, h', next, p, rest, None);
    SegSnoc(h', first, p, done, i, todo.kids);
    SnocMoves(done, i, todo.kids, rest, |h|);
    AppendAgain(done, Cons(i, todo.kids, Nil), RemoveIfs(infos, rest));
  }

  /** Between two nodes of a chain that is being finalized: todo is still as parsed. */
  ghost predicate Finalizing(h: Heap, first: Ref, p: Ref, infos: seq<Info>, f: Forest, done: Forest, cur: Ref,
      todo: Forest) {
    && |h| == |infos| && Apart(done, todo) && Within(done, |h|) && Within(todo, |h|) && AsParsed(infos, todo)
    && Ids(done) + Ids(todo) <= Ids(f) && Size(todo) <= Size(f)
    && Seg(h, first, p, done, cur) && Seg(h, cur, p, todo, None)
  }

  /** The first node of todo has been finalized, which has made of todo the chain g. */
  lemma FinalizeStep(h: Heap, h': Heap, first: Ref, p: Ref, infos: seq<Info>, f: Forest, done: Forest, todo: Forest,
      g: Forest)
    requires todo.Cons? && g.Cons? && g.id == todo.id && Finalizing(h, first, p, infos, f, done, Some(todo.id), todo)
    requires Within(g, |infos|) && AsParsed(infos, g.rest) && Distinct(g) && Ids(g) <= Ids(todo)
        && Size(g) <= Size(todo)
    requires SameOff(h, h', Ids(todo)) && Seg(h', Some(todo.id), p, g, None)
    ensures Finalizing(h', first, p, infos, f, Snoc(done, g.id, g.kids), h'[g.id].next, g.rest)
  {
    SegFrame(h, h', first, p, done, Some(g.id));
    SegSnoc(h', first, p, done, g.id, g.kids);
    SnocMoves(done, g.id, g.kids, g.rest, |h|);
  }

  /** What is still to be computed of the result. */
  ghost predicate Remains(c: Names, infos: seq<Info>, vis: Expr, result: Step, done: Forest, todo: Forest,
      at: seq<Attr>) {
    && |at| == |infos| && Within(todo, |infos|)
    && var more := FinalizeAll(c, infos, todo, at, vis);
       result == Step(Append(done, more.f), more.at)
  }

  lemma RemainsStep(c: Names, infos: seq<Info>, vis: Expr, result: Step, done: Forest, todo: Forest, at: seq<Attr>)
    returns (one: Step)
    requires Remains(c, infos, vis, result, done, todo, at) && todo.Cons? && AsParsed(infos, todo) && Distinct(todo)
    ensures one == Finalize(c, infos, todo, at, vis)
    ensures Remains(c, infos, vis, result, Snoc(done, one.f.id, one.f.kids), one.f.rest, one.at)
    ensures AsParsed(infos, one.f.rest) && Distinct(one.f) && Ids(one.f) <= Ids(todo)
  {
    one := Finalize(c, infos, todo, at, vis);
    FinalizeKeepsOrder(c, infos, todo, at, vis);
    FinalizeDistinct(c, infos, todo, at, vis);
    AppendAgain(done, Cons(one.f.id, one.f.kids, Nil), FinalizeAll(c, infos, one.f.rest, one.at, vis).f);
  }

  /** Collecting a submenu: done follows node, with node as parent, and ends with cur; todo comes next. */
  ghost predicate Taking(h: Heap, node: nat, p: Ref, infos: seq<Info>, f: Forest, done: Forest, cur: nat,
      todo: Forest) {
    && |h| == |infos| && Apart(done, todo) && Within(done, |h|) && Within(todo, |h|) && AsParsed(infos, todo)
    && Ids(done) + Ids(todo) <= Ids(f) && Size(todo) <= Size(f) && node !in Ids(f) && node < |h|
    && cur == (if done.Nil? then node else Last(done)) && cur < |h| && h[cur].next == First(todo)
    && Seg(h, h[node].next, Some(node), done, h[cur].next) && Seg(h, h[cur].next, p, todo, None)
  }

  lemma TakingStart(h: Heap, node: nat, p: Ref, infos: seq<Info>, f: Forest)
    requires |h| == |infos| && node < |h| && node !in Ids(f) && Distinct(f) && AsParsed(infos, f)
    requires Seg(h, h[node].next, p, f, None)
    ensures Taking(h, node, p, infos, f, Nil, node, f)
  {
  }

  /** The first node of todo has been finalized, which has made of todo the chain g, and then been given its parent. */
  lemma TakeStep(h: Heap, h1: Heap, h2: Heap, node: nat, p: Ref, infos: seq<Info>, f: Forest, done: Forest, cur: nat,
      todo: Forest, g: Forest)
    requires todo.Cons? && g.Cons? && g.id == todo.id && Taking(h, node, p, infos, f, done, cur, todo)
    requires Within(g, |infos|) && AsParsed(infos, g.rest) && Distinct(g) && Ids(g) <= Ids(todo)
        && Size(g) <= Size(todo)
    requires SameOff(h, h1, Ids(todo)) && Seg(h1, Some(todo.id), p, g, None)
    requires h2 == h1[g.id := h1[g.id].(parent := Some(node))]
    ensures Taking(h2, node, p, infos, f, Snoc(done, g.id, g.kids), g.id, g.rest)
    ensures h2[cur].next == Some(g.id) && SameOff(h, h2, Ids(todo))
  {
    var i := g.id;
    if done.Cons? { LastIsTop(done); }
    SegFrame(h, h2, h[node].next, Some(node), done, Some(i));
    SegFrame(h1, h2, h1[i].list, Some(i), g.kids, None);
    SegFrame(h1, h2, h1[i].next, p, g.rest, None);
    SegSnoc(h2, h[node].next, Some(node), done, i, g.kids);
    SnocMoves(done, i, g.kids, g.rest, |h|);
  }

  lemma TiltLinks(h: Heap, h': Heap, node: nat, p: Ref, infos: seq<Info>, f: Forest, taken: Forest, cur: nat,
      left: Forest)
    requires cur != node && Taking(h, node, p, infos, f, taken, cur, left)
    requires h' == h[node := Links(h[cur].next, h[node].next, h[node].parent)][cur := h[cur].(next := None)]
    ensures Seg(h', h[node].next, Some(node), taken, None) && Seg(h', h[cur].next, p, left, None)
    ensures cur in Ids(taken)
  {
    LastIsTop(taken);
    var h1 := h[cur := h[cur].(next := None)];
    SegRetarget(h, h1, h[node].next, Some(node), taken, h[cur].next, None);
    SegFrame(h1, h', h[node].next, Some(node), taken, None);
    SegFrame(h, h', h[cur].next, p, left, None);
  }

  ghost predicate ToTake(c: Names, infos: seq<Info>, s: SymId, vis: Expr, result: Taken, done: Forest, todo: Forest,
      at: seq<Attr>) {
    && |at| == |infos| && Within(todo, |infos|)
    && var more := Take(c, infos, s, todo, at, vis);
       result == Taken(Append(done, more.taken), more.left, more.at)
  }

  lemma ToTakeStops(c: Names, infos: seq<Info>, s: SymId, vis: Expr, result: Taken, done: Forest, todo: Forest,
      at: seq<Attr>)
    requires ToTake(c, infos, s, vis, result, done, todo, at)
    requires todo.Nil? || !AutoDep(c, infos, at, s, todo.id)
    ensures result == Taken(done, todo, at)
  {
    AppendAgain(done, Nil, Nil);
  }

  lemma TakenNothing(h: Heap, node: nat, p: Ref, infos: seq<Info>, f: Forest, taken: Forest, cur: nat, left: Forest)
    requires Taking(h, node, p, infos, f, taken, cur, left)
    ensures taken.Nil? <==> cur == node
    ensures taken.Nil? ==> Seg(h, h[node].next, p, left, None)
  {
    if taken.Cons? { LastIsTop(taken); }
  }

  lemma ToTakeStep(c: Names, infos: seq<Info>, s: SymId, vis: Expr, result: Taken, done: Forest, todo: Forest,
      at: seq<Attr>)
    returns (one: Step)
    requires ToTake(c, infos, s, vis, result, done, todo, at)
    requires todo.Cons? && AsParsed(infos, todo) && Distinct(todo) && AutoDep(c, infos, at, s, todo.id)
    ensures one == Finalize(c, infos, todo, at, vis)
    ensures ToTake(c, infos, s, vis, result, Snoc(done, one.f.id, one.f.kids), one.f.rest, one.at)
    ensures AsParsed(infos, one.f.rest) && Distinct(one.f) && Ids(one.f) <= Ids(todo)
  {
    one := Finalize(c, infos, todo, at, vis);
    FinalizeKeepsOrder(c, infos, todo, at, vis);
    FinalizeDistinct(c, infos, todo, at, vis);
    AppendAgain(done, Cons(one.f.id, one.f.kids, Nil), Take(c, infos, s, one.f.rest, one.at, vis).taken);
  }

  lemma FinalizedTree(c: Names, infos: seq<Info>, top: nat, kids: Forest, at: seq<Attr>)
    requires top < |infos| == |at| && infos[top].item.MenuItem? && top !in Ids(kids) && Distinct(kids)
    requires AsParsed(infos, kids)
    ensures var s := Finalize(c, infos, Cons(top, kids, Nil), at, Sym(c.y));
            && s.f.rest.Nil? && Distinct(s.f.kids) && top !in Ids(s.f.kids) && Clean(infos, s.f.kids)
            && Preorder(s.f.kids) == Shown(infos, kids)
  {
    var f := Cons(top, kids, Nil);
    var g := Finalize(c, infos, f, at, Sym(c.y)).f;
    FinalizeDistinct(c, infos, f, at, Sym(c.y));
    FinalizeKeepsOrder(c, infos, f, at, Sym(c.y));
    CleanShowsAll(infos, g.kids);
    ShownOfTop(infos, top, kids);
    ShownOfTop(infos, top, g.kids);
  }

  lemma ShownOfTop(infos: seq<Info>, top: nat, kids: Forest)
    requires top < |infos| && infos[top].item.MenuItem? && Within(kids, |infos|)
    ensures Shown(infos, Cons(top, kids, Nil)) != []
    ensures Shown(infos, Cons(top, kids, Nil))[1..] == Shown(infos, kids)
  {
    var k := Shown(infos, kids);
    assert Shown(infos, Nil) == [] && ([top] + k + [])[1..] == k;
  }

  /** A position in the tree: rests holds what comes after the node among its siblings, then what comes after its
      parent, and so on up to the top. */
  ghost predicate Walk(h: Heap, i: nat, rests: seq<Forest>)
    decreases |rests|
  {
    && i < |h| && rests != [] && Seg(h, h[i].next, h[i].parent, rests[0], None)
    && if |rests| == 1 then h[i].parent.None? && rests[0].Nil?
       else h[i].parent.Some? && Walk(h, h[i].parent.value, rests[1..])
  }

  function After(rests: seq<Forest>): seq<nat> {
    if rests == [] then [] else Preorder(rests[0]) + After(rests[1..])
  }

  /** What is still to be visited below a node and after it. */
  function Ahead(kids: Forest, rests: seq<Forest>): seq<nat> {
    Preorder(kids) + After(rests)
  }

  lemma WalkDown(h: Heap, i: nat, kids: Forest, rests: seq<Forest>)
    requires Walk(h, i, rests) && kids.Cons? && Seg(h, h[i].list, Some(i), kids, None)
    ensures Walk(h, kids.id, [kids.rest] + rests)
    ensures Ahead(kids, rests) == [kids.id] + Ahead(kids.kids, [kids.rest] + rests)
  {
    AheadDown(kids, rests);
    var more := [kids.rest] + rests;
    assert more[1..] == rests;
  }

  lemma AheadDown(f: Forest, rests: seq<Forest>)
    requires f.Cons?
    ensures Ahead(f, rests) == [f.id] + Ahead(f.kids, [f.rest] + rests)
  {
    var more := [f.rest] + rests;
    assert more[1..] == rests;
    var a, b, d := Preorder(f.kids), Preorder(f.rest), After(rests);
    assert After(more) == b + d;
    assert [f.id] + a + b + d == [f.id] + (a + (b + d));
  }

  lemma WalkOn(h: Heap, i: nat, rests: seq<Forest>)
    requires Walk(h, i, rests) && rests[0].Cons?
    ensures Walk(h, rests[0].id, [rests[0].rest] + rests[1..])
    ensures After(rests) == [rests[0].id] + Ahead(rests[0].kids, [rests[0].rest] + rests[1..])
  {
    AheadDown(rests[0], rests[1..]);
    var more := [rests[0].rest] + rests[1..];
    assert more[1..] == rests[1..];
  }

  class MenuNode {
    const number: nat
    const info: Info
    var dep: Expr
    var prompt: Expr
    var conds: seq<Expr>
    var next: Ref
    var list: Ref
    var parent: Ref

    constructor (number: nat, info: Info, a: Attr, l: Links)
      ensures this.number == number && this.info == info && dep == a.dep && prompt == a.prompt && conds == a.conds
      ensures next == l.next && list == l.list && parent == l.parent
    {
      this.number, this.info, dep, prompt, conds := number, info, a.dep, a.prompt, a.conds;
      next, list, parent := l.next, l.list, l.parent;
    }
  }

  class Menus {
    const nodes: seq<MenuNode>
    const names: Names
    /** The parts of the nodes that stay as they are. */
    ghost const infos: seq<Info>

    constructor (nodes: seq<MenuNode>, names: Names)
      requires forall i :: 0 <= i < |nodes| ==> nodes[i].number == i
      ensures this.nodes == nodes && this.names == names && Ok()
    {
      this.nodes, this.names := nodes, names;
      this.infos := seq(|nodes|, i requires 0 <= i < |nodes| => nodes[i].info);
    }

    /** References are node numbers. */
    ghost predicate Ok() {
      |infos| == |nodes| && forall i :: 0 <= i < |nodes| ==> nodes[i].number == i && nodes[i].info == infos[i]
    }

    ghost function LinksNow(): (h: Heap)
      reads nodes
      ensures |h| == |nodes|
      ensures forall i {:trigger h[i]} :: 0 <= i < |h| ==> h[i] == Links(nodes[i].next, nodes[i].list, nodes[i].parent)
    {
      seq(|nodes|, i requires 0 <= i < |nodes| reads nodes => Links(nodes[i].next, nodes[i].list, nodes[i].parent))
    }

    ghost function AttrsNow(): (at: seq<Attr>)
      reads nodes
      ensures |at| == |nodes|
      ensures forall i {:trigger at[i]} :: 0 <= i < |at| ==>
                at[i] == Attr(nodes[i].dep, nodes[i].prompt, nodes[i].conds)
    {
      seq(|nodes|, i requires 0 <= i < |nodes| reads nodes => Attr(nodes[i].dep, nodes[i].prompt, nodes[i].conds))
    }

    method SetNext(i: nat, r: Ref)
      requires Ok() && i < |nodes|
      modifies {nodes[i]}`next
      ensures LinksNow() == old(LinksNow())[i := old(LinksNow())[i].(next := r)] && AttrsNow() == old(AttrsNow())
    {
      nodes[i].next := r;
    }

    method SetList(i: nat, r: Ref)
      requires Ok() && i < |nodes|
      modifies {nodes[i]}`list
      ensures LinksNow() == old(LinksNow())[i := old(LinksNow())[i].(list := r)] && AttrsNow() == old(AttrsNow())
    {
      nodes[i].list := r;
    }

    method SetParent(i: nat, r: Ref)
      requires Ok() && i < |nodes|
      modifies {nodes[i]}`parent
      ensures LinksNow() == old(LinksNow())[i := old(LinksNow())[i].(parent := r)] && AttrsNow() == old(AttrsNow())
    {
      nodes[i].parent := r;
    }

    // ---------------------------------------------------------------- _propagate_deps()

    method AddDep(conds: seq<Expr>, dep: Expr) returns (r: seq<Expr>)
      ensures r == WithDep(names, conds, dep)
    {
      r := [];
      for i := 0 to |conds|
        invariant |r| == i && forall k :: 0 <= k < i ==> r[k] == MakeAnd(names, conds[k], dep)
      {
        r := r + [MakeAnd(names, conds[i], dep)];
      }
    }

    method PropagateTo(cur: nat, base: Expr, vis: Expr)
      requires Ok() && cur < |nodes|
      modifies {nodes[cur]}`dep, {nodes[cur]}`prompt, {nodes[cur]}`conds
      ensures LinksNow() == old(LinksNow())
      ensures AttrsNow() ==
              old(AttrsNow())[cur := Given(names, infos[cur], old(AttrsNow())[cur], base, vis)]
    {
      var node := nodes[cur];
      var dep := MakeAnd(names, node.dep, base);
      node.dep := dep;
      if node.info.item.SymItem? {
        if node.info.hasPrompt {
          node.prompt := MakeAnd(names, node.prompt, MakeAnd(names, vis, dep));
        }
        var conds := AddDep(node.conds, dep);
        node.conds := conds;
      } else if node.info.hasPrompt {
        node.prompt := MakeAnd(names, node.prompt, dep);
      }
    }

    method PropagateDeps(node: nat, vis: Expr, ghost f: Forest)
      requires Ok() && node < |nodes| && Within(f, |nodes|) && node !in Ids(f)
      requires Seg(LinksNow(), LinksNow()[node].list, Some(node), f, None)
      modifies nodes
      ensures LinksNow() == old(LinksNow())
      ensures AttrsNow() == GiveAll(names, infos, f, old(AttrsNow()), old(AttrsNow())[node].dep, vis)
    {
      var base := nodes[node].dep;
      var cur := nodes[node].list;
      ghost var todo := f;
      while cur.Some?
        invariant LinksNow() == old(LinksNow())
        invariant Within(todo, |nodes|) && Seg(LinksNow(), cur, Some(node), todo, None)
        invariant GiveAll(names, infos, todo, AttrsNow(), base, vis)
                  == GiveAll(names, infos, f, old(AttrsNow()), base, vis)
        decreases todo
      {
        PropagateTo(cur.value, base, vis);
        cur := nodes[cur.value].next;
        todo := todo.rest;
      }
    }

    // ---------------------------------------------------------------- _flatten()

    /** Gives the children of node i its own parent, and links them in after it. */
    method LiftKids(i: nat, ghost p: Ref, ghost kids: Forest, ghost rest: Forest)
      requires Ok() && kids.Cons? && Seg(LinksNow(), Some(i), p, Cons(i, kids, rest), None)
      requires Distinct(Cons(i, kids, rest)) && Within(Cons(i, kids, rest), |nodes|)
      modifies nodes
      ensures Seg(LinksNow(), Some(i), p, Cons(i, Nil, Append(kids, rest)), None)
      ensures SameOff(old(LinksNow()), LinksNow(), {i} + Ids(kids)) && AttrsNow() == old(AttrsNow())
    {
      var last := LiftParents(i, p, kids);
      ghost var h := LinksNow();
      assert Seg(h, h[i].next, p, rest, None) by { SegFrame(old(LinksNow()), h, h[i].next, p, rest, None); }
      LinkAfter(i, last, p, kids, rest);
    }

    method LinkAfter(i: nat, last: nat, ghost p: Ref, ghost kids: Forest, ghost rest: Forest)
      requires Ok() && kids.Cons? && last == Last(kids)
      requires Distinct(Cons(i, kids, rest)) && Within(Cons(i, kids, rest), |nodes|)
      requires var h := LinksNow();
               h[i].parent == p && Seg(h, h[i].list, p, kids, None) && Seg(h, h[i].next, p, rest, None)
      modifies nodes
      ensures Seg(LinksNow(), Some(i), p, Cons(i, Nil, Append(kids, rest)), None)
      ensures SameOff(old(LinksNow()), LinksNow(), {i} + Ids(kids)) && AttrsNow() == old(AttrsNow())
    {
      LastWithin(kids, |nodes|);
      SetNext(last, nodes[i].next);
      SetNext(i, nodes[i].list);
      SetList(i, None);
      LiftLinks(old(LinksNow()), LinksNow(), i, p, kids, rest);
    }

    method LiftParents(i: nat, ghost p: Ref, ghost kids: Forest) returns (last: nat)
      requires Ok() && i < |nodes| && nodes[i].parent == p && kids.Cons? && i !in Ids(kids) && Distinct(kids)
      requires Within(kids, |nodes|) && Seg(LinksNow(), nodes[i].list, Some(i), kids, None)
      modifies nodes
      ensures Seg(LinksNow(), nodes[i].list, p, kids, None) && last == Last(kids)
      ensures SameOff(old(LinksNow()), LinksNow(), Ids(kids)) && AttrsNow() == old(AttrsNow())
    {
      last := nodes[i].list.value;
      ghost var lifted, left, h := Nil, kids, LinksNow();
      while true
        invariant h == LinksNow() && SameOff(old(LinksNow()), h, Ids(kids)) && AttrsNow() == old(AttrsNow())
        invariant Lifting(h, i, p, kids, lifted, left) && left.id == last
        decreases left
      {
        SetParent(last, nodes[i].parent);
        ghost var h' := LinksNow();
        LiftStep(h, h', i, p, kids, lifted, left);
        h := h';
        if nodes[last].next.None? {
          break;
        }
        lifted := Snoc(lifted, last, left.kids);
        left := left.rest;
        last := nodes[last].next.value;
      }
    }

    method FlattenNode(i: nat, ghost p: Ref, ghost f: Forest)
      requires Ok() && f.Cons? && f.id == i && Distinct(f) && Within(f, |nodes|) && Seg(LinksNow(), Some(i), p, f, None)
      modifies nodes
      ensures Seg(LinksNow(), Some(i), p, FlattenOne(infos, f), None)
      ensures SameOff(old(LinksNow()), LinksNow(), Ids(f)) && AttrsNow() == old(AttrsNow())
    {
      SegEnds(LinksNow(), nodes[i].list, Some(i), f.kids);
      if nodes[i].list.Some? && !nodes[i].info.hasPrompt {
        LiftKids(i, p, f.kids, f.rest);
      }
    }

    /** _flatten(), from the first node of a chain. */
    method FlattenFrom(first: Ref, ghost p: Ref, ghost f: Forest)
      requires Ok() && Distinct(f) && Within(f, |nodes|) && Seg(LinksNow(), first, p, f, None)
      modifies nodes
      ensures Seg(LinksNow(), first, p, Flatten(infos, f), None)
      ensures SameOff(old(LinksNow()), LinksNow(), Ids(f)) && AttrsNow() == old(AttrsNow())
    {
      var cur := first;
      ghost var done, todo, h := Nil, f, LinksNow();
      while cur.Some?
        invariant h == LinksNow() && SameOff(old(LinksNow()), h, Ids(f)) && AttrsNow() == old(AttrsNow())
        invariant Flattening(h, first, p, infos, f, done, cur, todo)
        decreases Size(todo)
      {
        var i := cur.value;
        ghost var flat := FlattenOne(infos, todo);
        FlattenNode(i, p, todo);
        FlattenStep(h, LinksNow(), first, p, infos, f, done, todo, flat);
        h := LinksNow();
        done := Snoc(done, i, flat.kids);
        todo := flat.rest;
        cur := nodes[i].next;
      }
      AppendAgain(done, Nil, Nil);
    }

    // ---------------------------------------------------------------- _remove_ifs()

    method SkipIfs(first: Ref, ghost p: Ref, ghost f: Forest) returns (r: Ref)
      requires Ok() && Within(f, |nodes|) && Seg(LinksNow(), first, p, f, None)
      ensures Seg(LinksNow(), r, p, PastIfs(infos, f), None)
    {
      r := first;
      ghost var todo := f;
      while r.Some? && nodes[r.value].info.item.IfItem?
        invariant Within(todo, |nodes|) && Seg(LinksNow(), r, p, todo, None)
        invariant PastIfs(infos, todo) == PastIfs(infos, f)
        decreases todo
      {
        r := nodes[r.value].next;
        todo := todo.rest;
      }
    }

    method DropIfsAfter(i: nat, ghost p: Ref, ghost f: Forest) returns (next: Ref)
      requires Ok() && i < |nodes| && Within(f, |nodes|) && Seg(LinksNow(), nodes[i].next, p, f, None)
      modifies nodes
      ensures Seg(old(LinksNow()), next, p, PastIfs(infos, f), None)
      ensures LinksNow() == old(LinksNow())[i := old(LinksNow())[i].(next := next)] && AttrsNow() == old(AttrsNow())
    {
      next := SkipIfs(nodes[i].next, p, f);
      SetNext(i, next);
    }

    /** The second loop of _remove_ifs(), from a node that stays. */
    method RemoveIfsFrom(first: Ref, ghost p: Ref, ghost f: Forest)
      requires Ok() && Distinct(f) && Within(f, |nodes|) && Seg(LinksNow(), first, p, f, None)
      requires f.Cons? ==> !infos[f.id].item.IfItem?
      modifies nodes
      ensures Seg(LinksNow(), first, p, RemoveIfs(infos, f), None)
      ensures SameOff(old(LinksNow()), LinksNow(), Ids(f)) && AttrsNow() == old(AttrsNow())
    {
      var cur := first;
      ghost var done, todo, h := Nil, f, LinksNow();
      while cur.Some?
        invariant h == LinksNow() && SameOff(old(LinksNow()), h, Ids(f)) && AttrsNow() == old(AttrsNow())
        invariant Removing(h, first, p, infos, f, done, cur, todo)
        decreases Size(todo)
      {
        var i := cur.value;
        var next := DropIfsAfter(i, p, todo.rest);
        RemoveStep(h, LinksNow(), first, p, infos, f, done, todo, next);
        h := LinksNow();
        done := Snoc(done, i, todo.kids);
        todo := PastIfs(infos, todo.rest);
        cur := next;
      }
      AppendAgain(done, Nil, Nil);
    }

    /** _remove_ifs() */
    method RemoveIfsBelow(node: nat, ghost f: Forest)
      requires Ok() && node < |nodes| && Distinct(f) && Within(f, |nodes|) && node !in Ids(f)
      requires Seg(LinksNow(), nodes[node].list, Some(node), f, None)
      modifies nodes
      ensures Seg(LinksNow(), nodes[node].list, Some(node), RemoveIfs(infos, f), None)
      ensures SameOff(old(LinksNow()), LinksNow(), Ids(f) + {node}) && AttrsNow() == old(AttrsNow())
      ensures nodes[node].next == old(nodes[node].next) && nodes[node].parent == old(nodes[node].parent)
    {
      PastIfsFacts(infos, f);
      var cur := SkipIfs(nodes[node].list, Some(node), f);
      SetList(node, cur);
      SegFrame(old(LinksNow()), LinksNow(), cur, Some(node), PastIfs(infos, f), None);
      RemoveIfsFrom(cur, Some(node), PastIfs(infos, f));
    }

    /** Both clean-ups of one level. */
    method TidyBelow(node: nat, ghost f: Forest)
      requires Ok() && node < |nodes| && Distinct(f) && Within(f, |nodes|) && node !in Ids(f)
      requires Seg(LinksNow(), nodes[node].list, Some(node), f, None)
      modifies nodes
      ensures Seg(LinksNow(), nodes[node].list, Some(node), Tidy(infos, f), None)
      ensures SameOff(old(LinksNow()), LinksNow(), Ids(f) + {node}) && AttrsNow() == old(AttrsNow())
      ensures nodes[node].next == old(nodes[node].next) && nodes[node].parent == old(nodes[node].parent)
    {
      FlattenDistinct(infos, f);
      FlattenFrom(nodes[node].list, Some(node), f);
      RemoveIfsBelow(node, Flatten(infos, f));
    }

    // ---------------------------------------------------------------- _finalize_node()

    /** Finalizes node, the first of the chain f. */
    method FinalizeNode(node: nat, ghost p: Ref, ghost f: Forest, vis: Expr)
      requires Ok() && f.Cons? && f.id == node && Distinct(f) && AsParsed(infos, f)
      requires Seg(LinksNow(), Some(node), p, f, None)
      modifies nodes
      ensures Seg(LinksNow(), Some(node), p, Finalize(names, infos, f, old(AttrsNow()), vis).f, None)
      ensures AttrsNow() == Finalize(names, infos, f, old(AttrsNow()), vis).at
      ensures SameOff(old(LinksNow()), LinksNow(), Ids(f))
      decreases Size(f), 1
    {
      SegEnds(LinksNow(), nodes[node].list, Some(node), f.kids);
      if nodes[node].info.item.SymItem? {
        FinalizeSym(node, nodes[node].info.item.id, p, f, vis);
      } else if nodes[node].list.Some? {
        FinalizeMenu(node, p, f, vis);
      }
    }

    method FinalizeMenu(node: nat, ghost p: Ref, ghost f: Forest, vis: Expr)
      requires Ok() && f.Cons? && f.id == node && Distinct(f) && AsParsed(infos, f)
      requires Seg(LinksNow(), Some(node), p, f, None)
      modifies nodes
      ensures var below := VisibleBelow(names, infos[node], vis);
              var at1 := GiveAll(names, infos, f.kids, old(AttrsNow()), old(AttrsNow())[node].dep, below);
              var all := FinalizeAll(names, infos, f.kids, at1, below);
              Seg(LinksNow(), Some(node), p, Cons(node, Tidy(infos, all.f), f.rest), None) && AttrsNow() == all.at
      ensures SameOff(old(LinksNow()), LinksNow(), Ids(f))
      decreases Size(f), 0
    {
      ghost var h0 := LinksNow();
      var below := vis;
      if nodes[node].info.item.MenuItem? {
        below := MakeAnd(names, vis, nodes[node].info.visibility);
      }
      PropagateDeps(node, below, f.kids);
      FinalizeBelow(node, f.kids, below);
      SegFrame(h0, LinksNow(), h0[node].next, p, f.rest, None);
    }

    /** All levels below a menu or if, once it has propagated its dependencies. */
    method FinalizeBelow(node: nat, ghost f: Forest, vis: Expr)
      requires Ok() && node < |nodes| && Distinct(f) && AsParsed(infos, f) && node !in Ids(f)
      requires Seg(LinksNow(), nodes[node].list, Some(node), f, None)
      modifies nodes
      ensures var all := FinalizeAll(names, infos, f, old(AttrsNow()), vis);
              Seg(LinksNow(), nodes[node].list, Some(node), Tidy(infos, all.f), None) && AttrsNow() == all.at
      ensures SameOff(old(LinksNow()), LinksNow(), Ids(f) + {node})
      ensures nodes[node].next == old(nodes[node].next) && nodes[node].parent == old(nodes[node].parent)
      decreases Size(f), 4
    {
      ghost var h0, at := LinksNow(), AttrsNow();
      FinalizeKids(node, f, vis);
      FinalizeAllDistinct(names, infos, f, at, vis);
      assert LinksNow()[node] == h0[node];
      TidyBelow(node, FinalizeAll(names, infos, f, at, vis).f);
    }

    /** The children of a menu or if, one after the other. */
    method FinalizeKids(node: nat, ghost f: Forest, vis: Expr)
      requires Ok() && node < |nodes| && Distinct(f) && AsParsed(infos, f) && node !in Ids(f)
      requires Seg(LinksNow(), nodes[node].list, Some(node), f, None)
      modifies nodes
      ensures Seg(LinksNow(), nodes[node].list, Some(node), FinalizeAll(names, infos, f, old(AttrsNow()), vis).f, None)
      ensures AttrsNow() == FinalizeAll(names, infos, f, old(AttrsNow()), vis).at
      ensures SameOff(old(LinksNow()), LinksNow(), Ids(f))
      decreases Size(f), 3
    {
      var cur := nodes[node].list;
      ghost var done, todo, h := Nil, f, LinksNow();
      ghost var result := FinalizeAll(names, infos, f, AttrsNow(), vis);
      while cur.Some?
        invariant h == LinksNow() && SameOff(old(LinksNow()), h, Ids(f)) && node < |h|
        invariant Finalizing(h, h[node].list, Some(node), infos, f, done, cur, todo)
        invariant Remains(names, infos, vis, result, done, todo, AttrsNow())
        decreases Size(todo)
      {
        ghost var one := FinalizeNext(cur.value, h[node].list, Some(node), f, done, todo, result, vis);
        h := LinksNow();
        done := Snoc(done, one.id, one.kids);
        todo := one.rest;
        cur := nodes[cur.value].next;
      }
      AppendAgain(done, Nil, Nil);
    }

    method FinalizeNext(cur: nat, ghost first: Ref, ghost p: Ref, ghost f: Forest, ghost done: Forest,
        ghost todo: Forest, ghost result: Step, vis: Expr)
      returns (ghost one: Forest)
      requires Ok() && todo.Cons? && Finalizing(LinksNow(), first, p, infos, f, done, Some(cur), todo)
      requires Remains(names, infos, vis, result, done, todo, AttrsNow())
      modifies nodes
      ensures SameOff(old(LinksNow()), LinksNow(), Ids(todo)) && one.Cons? && one.id == cur
          && Size(one.rest) < Size(todo)
      ensures Finalizing(LinksNow(), first, p, infos, f, Snoc(done, cur, one.kids), LinksNow()[cur].next, one.rest)
      ensures Remains(names, infos, vis, result, Snoc(done, cur, one.kids), one.rest, AttrsNow())
      decreases Size(todo), 2
    {
      ghost var h := LinksNow();
      ghost var step := RemainsStep(names, infos, vis, result, done, todo, AttrsNow());
      one := step.f;
      FinalizeNode(cur, p, todo, vis);
      FinalizeStep(h, LinksNow(), first, p, infos, f, done, todo, one);
    }

    predicate DependsNow(s: SymId, j: nat): (b: bool)
      requires Ok() && j < |nodes|
      reads nodes
      ensures b == AutoDep(names, infos, AttrsNow(), s, j)
    {
      DependsOn(names, if nodes[j].info.hasPrompt then nodes[j].prompt else nodes[j].dep, s)
    }

    /** Is there a next sibling, and does it depend on symbol s? */
    predicate NextDepends(cur: nat, s: SymId)
      requires Ok() && cur < |nodes| && (nodes[cur].next.Some? ==> nodes[cur].next.value < |nodes|)
      reads nodes
    {
      nodes[cur].next.Some? && DependsNow(s, nodes[cur].next.value)
    }

    /** The submenu of symbol s at node has been collected as far as cur, in `taken`; `left` are the siblings behind
        it. */
    ghost predicate CollectedIn(node: nat, s: SymId, p: Ref, f: Forest, vis: Expr, result: Taken, cur: nat,
        taken: Forest, left: Forest)
      reads nodes
    {
      && Ok() && Taking(LinksNow(), node, p, infos, f, taken, cur, left)
      && ToTake(names, infos, s, vis, result, taken, left, AttrsNow())
    }

    /** The same, with n nodes left. */
    ghost predicate Collecting(node: nat, s: SymId, p: Ref, f: Forest, vis: Expr, result: Taken, cur: nat, n: nat)
      reads nodes
    {
      exists taken, left :: CollectedIn(node, s, p, f, vis, result, cur, taken, left) && Size(left) == n <= Size(f)
    }

    lemma CollectingNext(node: nat, s: SymId, p: Ref, f: Forest, vis: Expr, result: Taken, cur: nat, n: nat)
      requires Collecting(node, s, p, f, vis, result, cur, n)
      ensures Ok() && cur < |nodes| && n <= Size(f)
      ensures nodes[cur].next.Some? ==> nodes[cur].next.value < |nodes|
    {
      var taken, left :| CollectedIn(node, s, p, f, vis, result, cur, taken, left) && Size(left) == n <= Size(f);
      assert LinksNow()[cur].next == First(left);
    }

    /** The loop that collects the implicit submenu of symbol s at node; the answer is the last node collected. */
    method TakeSubmenu(node: nat, s: SymId, ghost p: Ref, ghost f: Forest, vis: Expr, ghost result: Taken)
      returns (cur: nat, ghost n: nat)
      requires Collecting(node, s, p, f, vis, result, node, Size(f))
      modifies nodes
      ensures Collecting(node, s, p, f, vis, result, cur, n) && SameOff(old(LinksNow()), LinksNow(), Ids(f))
      ensures Ok() && cur < |nodes| && (nodes[cur].next.Some? ==> nodes[cur].next.value < |nodes|)
          && !NextDepends(cur, s)
      decreases Size(f), 3
    {
      cur, n := node, Size(f);
      CollectingNext(node, s, p, f, vis, result, cur, n);
      ghost var h := LinksNow();
      while NextDepends(cur, s)
        invariant Collecting(node, s, p, f, vis, result, cur, n) && Ok() && cur < |nodes| && n <= Size(f)
        invariant nodes[cur].next.Some? ==> nodes[cur].next.value < |nodes|
        invariant h == LinksNow() && SameOff(old(LinksNow()), h, Ids(f))
        decreases n
      {
        cur, n := TakeNext(node, s, p, f, cur, n, result, vis);
        CollectingNext(node, s, p, f, vis, result, cur, n);
        SameOffTwice(old(LinksNow()), h, LinksNow(), Ids(f));
        h := LinksNow();
      }
    }

    method TakeNext(node: nat, s: SymId, ghost p: Ref, ghost f: Forest, cur: nat, ghost n: nat, ghost result: Taken,
        vis: Expr)
      returns (next: nat, ghost n': nat)
      requires Collecting(node, s, p, f, vis, result, cur, n) && Ok() && cur < |nodes|
      requires (nodes[cur].next.Some? ==> nodes[cur].next.value < |nodes|) && NextDepends(cur, s)
      modifies nodes
      ensures SameOff(old(LinksNow()), LinksNow(), Ids(f)) && n' < n
      ensures Collecting(node, s, p, f, vis, result, next, n')
      decreases n, 2
    {
      ghost var done, todo :|
        CollectedIn(node, s, p, f, vis, result, cur, done, todo) && Size(todo) == n <= Size(f);
      ghost var h := LinksNow();
      assert h[cur].next == First(todo);
      ghost var step := ToTakeStep(names, infos, s, vis, result, done, todo, AttrsNow());
      ghost var one := step.f;
      next := nodes[cur].next.value;
      FinalizeNode(next, p, todo, vis);
      ghost var h1 := LinksNow();
      SetParent(next, Some(node));
      TakeStep(h, h1, LinksNow(), node, p, infos, f, done, cur, todo, one);
      n' := Size(one.rest);
      assert CollectedIn(node, s, p, f, vis, result, next, Snoc(done, one.id, one.kids), one.rest);
    }

    /** When no further sibling depends on the symbol, everything has been collected. */
    lemma AllCollected(node: nat, s: SymId, p: Ref, f: Forest, vis: Expr, result: Taken, cur: nat, n: nat)
      requires Collecting(node, s, p, f, vis, result, cur, n) && Ok() && cur < |nodes|
      requires (nodes[cur].next.Some? ==> nodes[cur].next.value < |nodes|) && !NextDepends(cur, s)
      ensures Taking(LinksNow(), node, p, infos, f, result.taken, cur, result.left) && result.at == AttrsNow()
    {
      var taken, left :| CollectedIn(node, s, p, f, vis, result, cur, taken, left) && Size(left) == n <= Size(f);
      assert LinksNow()[cur].next == First(left);
      ToTakeStops(names, infos, s, vis, result, taken, left, AttrsNow());
    }

    lemma CollectingStart(node: nat, s: SymId, p: Ref, f: Forest, vis: Expr, result: Taken)
      requires Ok() && node < |nodes| && node !in Ids(f) && Distinct(f) && AsParsed(infos, f)
      requires Seg(LinksNow(), LinksNow()[node].next, p, f, None) && result == Take(names, infos, s, f, AttrsNow(), vis)
      ensures Collecting(node, s, p, f, vis, result, node, Size(f))
    {
      TakingStart(LinksNow(), node, p, infos, f);
      assert CollectedIn(node, s, p, f, vis, result, node, Nil, f);
    }

    method FinalizeSym(node: nat, s: SymId, ghost p: Ref, ghost f: Forest, vis: Expr)
      requires Ok() && f.Cons? && f.id == node && Distinct(f) && AsParsed(infos, f)
      requires Seg(LinksNow(), Some(node), p, f, None)
      modifies nodes
      ensures var t := Take(names, infos, s, f.rest, old(AttrsNow()), vis);
              AttrsNow() == t.at
              && Seg(LinksNow(), Some(node), p, if t.taken.Nil? then f else Cons(node, Tidy(infos, t.taken), t.left),
                  None)
      ensures SameOff(old(LinksNow()), LinksNow(), Ids(f))
      decreases Size(f), 0
    {
      ghost var t := Take(names, infos, s, f.rest, AttrsNow(), vis);
      CollectingStart(node, s, p, f.rest, vis, t);
      var cur;
      ghost var n;
      cur, n := TakeSubmenu(node, s, p, f.rest, vis, t);
      AllCollected(node, s, p, f.rest, vis, t, cur, n);
      SegFrame(old(LinksNow()), LinksNow(), LinksNow()[node].list, Some(node), f.kids, None);
      AdoptAny(node, p, f, t, cur);
    }

    /** If anything has been collected, it becomes the children of node. */
    method AdoptAny(node: nat, ghost p: Ref, ghost f: Forest, ghost t: Taken, cur: nat)
      requires Ok() && f.Cons? && f.id == node < |nodes| && cur < |nodes| && nodes[node].parent == p
      requires Taking(LinksNow(), node, p, infos, f.rest, t.taken, cur, t.left)
      requires t.taken.Nil? ==> t.left == f.rest && Seg(LinksNow(), LinksNow()[node].list, Some(node), f.kids, None)
      modifies nodes
      ensures Seg(LinksNow(), Some(node), p, if t.taken.Nil? then f else Cons(node, Tidy(infos, t.taken), t.left), None)
      ensures SameOff(old(LinksNow()), LinksNow(), Ids(f)) && AttrsNow() == old(AttrsNow())
    {
      TakenNothing(LinksNow(), node, p, infos, f.rest, t.taken, cur, t.left);
      if cur != node {
        Adopt(node, p, f.rest, t.taken, cur, t.left);
      }
    }

    method Adopt(node: nat, ghost p: Ref, ghost f: Forest, ghost taken: Forest, cur: nat, ghost left: Forest)
      requires Ok() && cur < |nodes| && cur != node && Taking(LinksNow(), node, p, infos, f, taken, cur, left)
      requires nodes[node].parent == p
      modifies nodes
      ensures Seg(LinksNow(), Some(node), p, Cons(node, Tidy(infos, taken), left), None)
      ensures SameOff(old(LinksNow()), LinksNow(), Ids(f) + {node}) && AttrsNow() == old(AttrsNow())
    {
      TiltUp(node, p, f, taken, cur, left);
      ghost var h := LinksNow();
      TidyBelow(node, taken);
      SegFrame(h, LinksNow(), h[node].next, p, left, None);
    }

    /** The collected nodes become the children of node. */
    method TiltUp(node: nat, ghost p: Ref, ghost f: Forest, ghost taken: Forest, cur: nat, ghost left: Forest)
      requires Ok() && cur < |nodes| && cur != node && Taking(LinksNow(), node, p, infos, f, taken, cur, left)
      modifies nodes
      ensures Seg(LinksNow(), nodes[node].list, Some(node), taken, None)
          && Seg(LinksNow(), nodes[node].next, p, left, None)
      ensures SameOff(old(LinksNow()), LinksNow(), Ids(taken) + {node}) && AttrsNow() == old(AttrsNow())
      ensures nodes[node].parent == old(nodes[node].parent)
    {
      SetList(node, nodes[node].next);
      SetNext(node, nodes[cur].next);
      SetNext(cur, None);
      ghost var h, h' := old(LinksNow()), LinksNow();
      assert h' == h[node := Links(h[cur].next, h[node].next, h[node].parent)][cur := h[cur].(next := None)];
      assert h'[node] == Links(nodes[node].next, nodes[node].list, nodes[node].parent);
      TiltLinks(h, h', node, p, infos, f, taken, cur, left);
    }

    /** Finalizes the whole tree. What is left is every node that is not an if, in the order of the file, with right
        links and parents; and every condition has come to mean the conjunction that it stands in. */
    method FinalizeTree(top: nat, ghost kids: Forest) returns (ghost g: Forest)
      requires Ok() && top < |nodes| && infos[top].item.MenuItem? && top !in Ids(kids)
      requires Distinct(kids) && AsParsed(infos, kids)
      requires Seg(LinksNow(), Some(top), None, Cons(top, kids, Nil), None)
      modifies nodes
      ensures Seg(LinksNow(), Some(top), None, Cons(top, g, Nil), None)
      ensures Distinct(g) && top !in Ids(g) && Clean(infos, g) && Preorder(g) == Shown(infos, kids)
      ensures forall ty: Typing, env: Env, j: nat ::
                Constants(names, ty, env) && Known(infos, old(AttrsNow()), |env|) && j in Ids(kids) ==>
                Conjoined(ty, env, infos, top, kids, old(AttrsNow()), AttrsNow(), j)
      ensures AllNested(names, infos, kids, g, AttrsNow())
      ensures AllStillDemand(names, infos, kids, old(AttrsNow()), AttrsNow())
    {
      ghost var at0, f := AttrsNow(), Cons(top, kids, Nil);
      ghost var all := Finalize(names, infos, f, at0, Sym(names.y));
      FinalizeNode(top, None, f, Sym(names.y));
      g := all.f.kids;
      FinalizedTree(names, infos, top, kids, at0);
      forall ty: Typing, env: Env, j: nat |
        Constants(names, ty, env) && Known(infos, at0, |env|) && j in Ids(kids)
        ensures Conjoined(ty, env, infos, top, kids, at0, AttrsNow(), j)
      {
        TreeConjoins(names, ty, env, infos, top, kids, at0, j);
      }
      TreeNests(names, infos, f, at0, Sym(names.y));
      TreeStillDemands(names, infos, f, at0, Sym(names.y));
    }

    // ---------------------------------------------------------------- node_iter()

    /** Goes up until there is a next node. */
    method Climb(node: nat, ghost rests: seq<Forest>) returns (r: Ref, ghost left: seq<Forest>)
      requires Ok() && Walk(LinksNow(), node, rests) && rests[0].Nil?
      ensures r.None? ==> After(rests) == []
      ensures r.Some? ==> r.value < |nodes| && nodes[r.value].next.Some? && Walk(LinksNow(), r.value, left)
      ensures r.Some? ==> left[0].Cons? && After(left) == After(rests)
    {
      var cur := node;
      left := rests;
      while nodes[cur].parent.Some?
        invariant Walk(LinksNow(), cur, left) && left[0].Nil? && After(left) == After(rests)
        decreases |left|
      {
        cur := nodes[cur].parent.value;
        left := left[1..];
        SegEnds(LinksNow(), nodes[cur].next, nodes[cur].parent, left[0]);
        if nodes[cur].next.Some? {
          return Some(cur), left;
        }
      }
      r := None;
    }

    /** The node after node, if there is one. */
    method NextNode(node: nat, ghost kids: Forest, ghost rests: seq<Forest>)
      returns (r: Ref, ghost kids': Forest, ghost rests': seq<Forest>)
      requires Ok() && Walk(LinksNow(), node, rests) && Seg(LinksNow(), nodes[node].list, Some(node), kids, None)
      ensures r.None? ==> Ahead(kids, rests) == []
      ensures r.Some? ==> r.value < |nodes| && Walk(LinksNow(), r.value, rests')
      ensures r.Some? ==> Seg(LinksNow(), nodes[r.value].list, r, kids', None)
      ensures r.Some? ==> Ahead(kids, rests) == [r.value] + Ahead(kids', rests')
    {
      kids', rests' := kids, rests;
      SegEnds(LinksNow(), nodes[node].list, Some(node), kids);
      SegEnds(LinksNow(), nodes[node].next, nodes[node].parent, rests[0]);
      if nodes[node].list.Some? {
        WalkDown(LinksNow(), node, kids, rests);
        return nodes[node].list, kids.kids, [kids.rest] + rests;
      }
      assert Ahead(kids, rests) == After(rests);
      var from: Ref := Some(node);
      if nodes[node].next.None? {
        from, rests' := Climb(node, rests);
      }
      if from.None? { return None, kids', rests'; }
      WalkOn(LinksNow(), from.value, rests');
      return nodes[from.value].next, rests'[0].kids, [rests'[0].rest] + rests'[1..];
    }

    /** Yields every node below the top once, in preorder; or only the first node of each symbol, and all others. */
    method NodeIter(top: nat, uniqueSyms: bool, ghost g: Forest) returns (out: seq<nat>)
      requires Ok() && Seg(LinksNow(), Some(top), None, Cons(top, g, Nil), None) && Distinct(g)
      ensures out == Yielded(infos, uniqueSyms, Preorder(g)).out && NoDouble(Preorder(g))
    {
      out := [];
      var visited: set<SymId> := {};
      var node: Ref := Some(top);
      ghost var kids, rests, done := g, [Nil], [];
      assert Ahead(g, [Nil]) == Preorder(g);
      while true
        invariant node.Some? && Walk(LinksNow(), node.value, rests)
        invariant Seg(LinksNow(), nodes[node.value].list, node, kids, None)
        invariant Preorder(g) == done + Ahead(kids, rests)
        invariant Yields(out, visited) == Yielded(infos, uniqueSyms, done)
        decreases |Preorder(g)| - |done|
      {
        ghost var ahead, before := Ahead(kids, rests), done;
        node, kids, rests := NextNode(node.value, kids, rests);
        if node.None? { break; }
        assert done + ahead == done + [node.value] + Ahead(kids, rests);
        done := done + [node.value];
        assert done[..|done| - 1] == before;
        out, visited := Yield(node.value, uniqueSyms, out, visited);
      }
      assert done == Preorder(g);
      PreorderFacts(g);
    }

    method Yield(node: nat, uniqueSyms: bool, out: seq<nat>, visited: set<SymId>)
      returns (out': seq<nat>, visited': set<SymId>)
      requires Ok() && node < |nodes|
      ensures Yields(out', visited') == YieldedNext(infos, uniqueSyms, Yields(out, visited), node)
    {
      out', visited' := out, visited;
      if uniqueSyms && nodes[node].info.item.SymItem? {
        if nodes[node].info.item.id in visited {
          return;
        }
        visited' := visited + {nodes[node].info.item.id};
      }
      out' := out + [node];
    }
  }

  // ---------------------------------------------------------------- what the walk yields

  /** The nodes yielded, and the symbols marked as visited. */
  datatype Yields = Yields(out: seq<nat>, visited: set<SymId>)

  predicate IsSym(infos: seq<Info>, i: nat) { i < |infos| && infos[i].item.SymItem? }

  function YieldedNext(infos: seq<Info>, uniqueSyms: bool, y: Yields, i: nat): Yields {
    if !uniqueSyms || !IsSym(infos, i) then y.(out := y.out + [i])
    else if infos[i].item.id in y.visited then y
    else Yields(y.out + [i], y.visited + {infos[i].item.id})
  }

  function Yielded(infos: seq<Info>, uniqueSyms: bool, ids: seq<nat>): Yields {
    if ids == [] then Yields([], {})
    else YieldedNext(infos, uniqueSyms, Yielded(infos, uniqueSyms, ids[..|ids| - 1]), ids[|ids| - 1])
  }

  lemma {:induction false} AllYielded(infos: seq<Info>, ids: seq<nat>)
    ensures Yielded(infos, false, ids).out == ids
  {
    if ids != [] {
      AllYielded(infos, ids[..|ids| - 1]);
      assert ids == ids[..|ids| - 1] + [ids[|ids| - 1]];
    }
  }

  /** No earlier node is of the same symbol. */
  predicate IsFirst(infos: seq<Info>, ids: seq<nat>, k: nat)
    requires k < |ids|
  {
    IsSym(infos, ids[k]) ==>
      forall j :: 0 <= j < k && IsSym(infos, ids[j]) ==> infos[ids[j]].item.id != infos[ids[k]].item.id
  }

  function Firsts(infos: seq<Info>, ids: seq<nat>, n: nat): seq<nat>
    requires n <= |ids|
  {
    if n == 0 then [] else Firsts(infos, ids, n - 1) + (if IsFirst(infos, ids, n - 1) then [ids[n - 1]] else [])
  }

  ghost predicate Marked(infos: seq<Info>, ids: seq<nat>, n: nat, visited: set<SymId>)
    requires n <= |ids|
  {
    forall s :: s in visited <==> SymAmong(infos, ids, n, s)
  }

  predicate SymAmong(infos: seq<Info>, ids: seq<nat>, n: nat, s: SymId)
    requires n <= |ids|
  {
    exists j :: 0 <= j < n && IsSym(infos, ids[j]) && infos[ids[j]].item.id == s
  }

  lemma AmongNext(infos: seq<Info>, ids: seq<nat>, n: nat, s: SymId)
    requires n < |ids|
    ensures SymAmong(infos, ids, n + 1, s)
            <==> SymAmong(infos, ids, n, s) || (IsSym(infos, ids[n]) && infos[ids[n]].item.id == s)
  {
  }

  /** With unique symbols the walk yields, in order, exactly the nodes that have no earlier node of the same symbol. */
  lemma {:induction false} FirstsYielded(infos: seq<Info>, ids: seq<nat>, n: nat)
    requires n <= |ids|
    ensures Yielded(infos, true, ids[..n]).out == Firsts(infos, ids, n)
    ensures Marked(infos, ids, n, Yielded(infos, true, ids[..n]).visited)
  {
    if n != 0 {
      FirstsYielded(infos, ids, n - 1);
      assert ids[..n][..n - 1] == ids[..n - 1] && ids[..n][n - 1] == ids[n - 1];
      var visited := Yielded(infos, true, ids[..n]).visited;
      forall s ensures s in visited <==> SymAmong(infos, ids, n, s) { AmongNext(infos, ids, n - 1, s); }
    }
  }
}
