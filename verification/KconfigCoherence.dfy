/** What the cached values of a configuration promise, as a property of cache contents alone. */
module KconfigCoherence {
  import opened KconfigExpr
  import opened Options
  import opened KconfigValue
  import opened KconfigAssignable

  /** The caches of one symbol. `vis` doubles as the flag that says whether anything is cached. */
  datatype Slot = Slot(vis: Option<Tri>, tri: Option<Tri>, str: Option<string>)

  const EMPTY := Slot(None, None, None)

  type Slots = seq<Slot>

  predicate HasVal(d: SymDef, s: Slot) {
    if IsBoolTri(d.typ) then s.tri.Some? else s.str.Some?
  }

  /** Symbols whose value is cached or can never change. */
  ghost function Known(c: Conf, slots: Slots): set<SymId>
    requires |slots| == |c.defs|
  {
    set i | 0 <= i < |slots| && (Fixed(c.defs[i]) || HasVal(c.defs[i], slots[i]))
  }

  ghost function Seen(slots: Slots): set<SymId> {
    set i | 0 <= i < |slots| && slots[i].vis.Some?
  }

  /** What is cached for a symbol is its value from scratch, and everything read on the way is still known. The
      second part is what makes it safe to stop an invalidation at a symbol with nothing cached. */
  ghost predicate SlotOk(c: Conf, user: User, env: Env, known: set<SymId>, d: SymDef, v: Val, s: Slot)
    requires Fits(c, env) && DefOk(d, |env|)
  {
    && (s.vis.Some? ==> s.vis.value == VisOf(c, env, d) && VisReads(c, env, d) <= known)
    && (s.tri.Some? ==> s.tri.value == v.tri)
    && (s.str.Some? ==> s.str.value == v.str)
    && (d.constTri.Some? ==> s.tri.Some?)
    && (!Fixed(d) && HasVal(d, s) ==> s.vis.Some? && ValReads(c, user, env, d) <= known)
    && (!Fixed(d) && IsBoolTri(d.typ) && s.str.Some? ==> s.tri.Some?)
  }

  ghost predicate Coherent(c: Conf, users: Users, env: Env, slots: Slots) {
    && Solution(c, users, env) && |slots| == |env|
    && forall i :: 0 <= i < |slots| ==> SlotFits(c, users, env, slots, i)
  }

  ghost predicate SlotFits(c: Conf, users: Users, env: Env, slots: Slots, i: nat)
    requires Fits(c, env) && |users| == |slots| == |env| && i < |env|
  {
    SlotOk(c, users[i], env, Known(c, slots), c.defs[i], env[i], slots[i])
  }

  /** Caches are only ever filled while values are read. */
  ghost predicate Grow(c: Conf, s: Slots, s': Slots) {
    |s| == |s'| == |c.defs| && Known(c, s) <= Known(c, s') && Seen(s) <= Seen(s')
  }

  lemma StoreKeepsCoherent(c: Conf, users: Users, env: Env, slots: Slots, i: nat, s: Slot)
    requires Coherent(c, users, env, slots) && i < |slots|
    requires SlotOk(c, users[i], env, Known(c, slots), c.defs[i], env[i], s)
    requires HasVal(c.defs[i], slots[i]) ==> HasVal(c.defs[i], s)
    requires slots[i].vis.Some? ==> s.vis.Some?
    ensures Coherent(c, users, env, slots[i := s]) && Grow(c, slots, slots[i := s])
  {
    var slots' := slots[i := s];
    assert Known(c, slots) <= Known(c, slots');
    forall k | 0 <= k < |slots'|
      ensures SlotFits(c, users, env, slots', k)
    {
      assert k != i ==> SlotFits(c, users, env, slots, k);
    }
  }

  // ---------------------------------------------------------------- invalidation

  /** Symbol i depends on symbol j in the sense of the dependents sets: i is defined, and some property of i
      mentions j, which is not a constant. */
  ghost predicate DependsOn(c: Conf, i: SymId, j: SymId) {
    i < |c.defs| && j < |c.defs| && c.defs[i].defined && j in Mentions(c.defs[i]) && !c.defs[j].isConst
  }

  type Dependents = seq<set<SymId>>

  ghost predicate DepsBuilt(c: Conf, deps: Dependents) {
    && |deps| == |c.defs|
    && forall i, j :: 0 <= j < |deps| ==> (i in deps[j] <==> DependsOn(c, i, j))
  }

  /** Only defined symbols lost their caches; nothing else changed. */
  ghost predicate Cleared(c: Conf, s: Slots, s': Slots) {
    && |s| == |s'| == |c.defs|
    && forall j :: 0 <= j < |s| ==> s'[j] == s[j] || (c.defs[j].defined && s'[j] == EMPTY)
  }

  ghost predicate NoneSeen(ids: set<SymId>, s: Slots) {
    forall k :: k in ids && k < |s| ==> s[k].vis.None?
  }

  ghost predicate AllEmpty(c: Conf, s: Slots)
    requires |s| == |c.defs|
  {
    forall k :: 0 <= k < |s| && c.defs[k].defined ==> s[k] == EMPTY
  }

  /** What invalidating symbol i achieves although it stops at symbols with nothing cached: nothing is cached any
      more for any dependent of any symbol that was cleared; and if MODULES was cleared, everything was. */
  ghost predicate Swept(c: Conf, deps: Dependents, i: SymId, s: Slots, s': Slots)
    requires |deps| == |c.defs| && i < |c.defs| && c.modules < |c.defs|
  {
    && Cleared(c, s, s') && s'[i] == EMPTY
    && (forall j :: 0 <= j < |s| && (j == i || s'[j] != s[j]) ==> NoneSeen(deps[j], s'))
    && (i == c.modules || s'[c.modules] != s[c.modules] ==> AllEmpty(c, s'))
  }

  /** `sc` becomes a dependent of the non-constant symbols in `items`. */
  ghost function AddDeps(c: Conf, deps: Dependents, sc: SymId, items: set<SymId>): (r: Dependents)
    requires |deps| == |c.defs|
    ensures |r| == |deps|
  {
    seq(|deps|, j requires 0 <= j < |deps| =>
      if j in items && !c.defs[j].isConst then deps[j] + {sc} else deps[j])
  }

  lemma AddDepsTwice(c: Conf, deps: Dependents, sc: SymId, a: set<SymId>, b: set<SymId>)
    requires |deps| == |c.defs|
    ensures AddDeps(c, AddDeps(c, deps, sc, a), sc, b) == AddDeps(c, deps, sc, a + b)
  {
  }

  /** The dependents that the symbols in `ids` give rise to. */
  ghost function DepsOf(c: Conf, ids: seq<SymId>): (r: Dependents)
    ensures |r| == |c.defs|
  {
    seq(|c.defs|, j requires 0 <= j < |c.defs| => set i | i in ids && DependsOn(c, i, j))
  }

  lemma DepsOfNone(c: Conf, deps: Dependents)
    requires |deps| == |c.defs| && forall j :: 0 <= j < |deps| ==> deps[j] == {}
    ensures deps == DepsOf(c, [])
  {
    forall j | 0 <= j < |deps| ensures deps[j] == DepsOf(c, [])[j] {
      assert forall i :: i !in DepsOf(c, [])[j];
    }
  }

  lemma DepsOfAll(c: Conf, ids: seq<SymId>)
    requires forall i :: 0 <= i < |c.defs| && c.defs[i].defined ==> i in ids
    ensures DepsBuilt(c, DepsOf(c, ids))
  {
  }

  lemma DepsOfSnoc(c: Conf, ids: seq<SymId>, k: nat)
    requires k < |ids| && ids[k] < |c.defs| && c.defs[ids[k]].defined
    ensures DepsOf(c, ids[..k + 1]) == AddDeps(c, DepsOf(c, ids[..k]), ids[k], Mentions(c.defs[ids[k]]))
  {
    assert ids[..k + 1] == ids[..k] + [ids[k]];
    var q := AddDeps(c, DepsOf(c, ids[..k]), ids[k], Mentions(c.defs[ids[k]]));
    forall j | 0 <= j < |c.defs| ensures DepsOf(c, ids[..k + 1])[j] == q[j] {
      assert DepsOf(c, ids[..k])[j] == set i | i in ids[..k] && DependsOn(c, i, j);
    }
  }

  lemma ExprsItemsSnoc(es: seq<Expr>, k: nat)
    requires k < |es|
    ensures ExprsItems(es[..k + 1]) == ExprsItems(es[..k]) + Items(es[k])
  {
    var a, b := ExprsItems(es[..k + 1]), ExprsItems(es[..k]) + Items(es[k]);
    forall s | s in b ensures s in a {
      if s in Items(es[k]) { assert es[..k + 1][k] == es[k]; }
      else {
        var i :| 0 <= i < k && s in Items(es[..k][i]);
        assert es[..k + 1][i] == es[..k][i];
      }
    }
    forall s | s in a ensures s in b {
      var i :| 0 <= i <= k && s in Items(es[..k + 1][i]);
      if i < k { assert es[..k][i] == es[..k + 1][i]; }
    }
  }

  lemma PropsItemsSnoc(ps: seq<Prop>, k: nat)
    requires k < |ps|
    ensures PropsItems(ps[..k + 1]) == PropsItems(ps[..k]) + PropItems(ps[k])
  {
    var a, b := PropsItems(ps[..k + 1]), PropsItems(ps[..k]) + PropItems(ps[k]);
    forall s | s in b ensures s in a {
      if s in PropItems(ps[k]) { assert ps[..k + 1][k] == ps[k]; }
      else {
        var i :| 0 <= i < k && s in PropItems(ps[..k][i]);
        assert ps[..k + 1][i] == ps[..k][i];
      }
    }
    forall s | s in a ensures s in b {
      var i :| 0 <= i <= k && s in PropItems(ps[..k + 1][i]);
      if i < k { assert ps[..k][i] == ps[..k + 1][i]; }
    }
  }

  /** The state of a sweep from symbol i when the dependents in `done` have been dealt with. */
  ghost predicate Sweeping(c: Conf, deps: Dependents, i: SymId, done: set<SymId>, s: Slots, s': Slots)
    requires |deps| == |c.defs| && i < |c.defs| && c.modules < |c.defs|
  {
    && Cleared(c, s, s') && s'[i] == EMPTY
    && (forall j :: 0 <= j < |s| && j != i && s'[j] != s[j] ==> NoneSeen(deps[j], s'))
    && (s'[c.modules] != s[c.modules] ==> AllEmpty(c, s'))
    && NoneSeen(done, s')
  }

  lemma SweepItem(c: Conf, deps: Dependents, i: SymId, done: set<SymId>, item: SymId, s: Slots, s1: Slots, s2: Slots)
    requires DepsBuilt(c, deps) && i < |c.defs| && item < |c.defs| && c.modules < |c.defs| && i != c.modules
    requires Sweeping(c, deps, i, done, s, s1) && Swept(c, deps, item, s1, s2)
    ensures Sweeping(c, deps, i, done + {item}, s, s2)
  {
    assert s2[i] == EMPTY;
    forall j | 0 <= j < |s| && j != i && s2[j] != s[j] ensures NoneSeen(deps[j], s2) {
      if s1[j] != s[j] { assert NoneSeen(deps[j], s1); } else { assert s2[j] != s1[j]; }
    }
  }

  lemma SweepStart(c: Conf, deps: Dependents, i: SymId, s: Slots)
    requires |deps| == |c.defs| == |s| && i < |c.defs| && c.modules < |c.defs| && i != c.modules && c.defs[i].defined
    ensures Sweeping(c, deps, i, {}, s, s[i := EMPTY])
  {
  }

  lemma SweepEnd(c: Conf, deps: Dependents, i: SymId, s: Slots, s': Slots)
    requires |deps| == |c.defs| && i < |c.defs| && c.modules < |c.defs| && i != c.modules
    requires Sweeping(c, deps, i, deps[i], s, s')
    ensures Swept(c, deps, i, s, s')
  {
  }

  lemma SweptAll(c: Conf, deps: Dependents, s: Slots, s': Slots)
    requires DepsBuilt(c, deps) && c.modules < |c.defs| && c.defs[c.modules].defined
    requires Cleared(c, s, s') && AllEmpty(c, s')
    ensures Swept(c, deps, c.modules, s, s')
  {
  }

  lemma SeenShrinks(c: Conf, i: SymId, item: SymId, s: Slots, s': Slots)
    requires Cleared(c, s, s') && i < |s| && s'[i] == EMPTY && item < |s| && s'[item].vis.Some?
    ensures Seen(s') - {item} < Seen(s) - {i}
  {
    assert item in Seen(s) - {i};
  }

  /** A symbol that kept its caches cannot have read one that lost its value. */
  lemma ReadsStayKnown(c: Conf, deps: Dependents, env: Env, i: SymId, s: Slots, s': Slots, j: nat, used: set<SymId>)
    requires Fits(c, env) && DepsBuilt(c, deps) && i < |c.defs| && |s| == |s'| == |c.defs| && Swept(c, deps, i, s, s')
    requires j < |s| && s'[j].vis.Some? && s'[j] == s[j] && c.defs[j].defined
    requires used <= Mentions(c.defs[j]) + TypeReads(c, c.defs[j]) && used <= Known(c, s)
    ensures used <= Known(c, s')
  {
    forall r | r in used ensures r in Known(c, s') {
      assert r in Known(c, s);
      assert r in Mentions(c.defs[j]) && !c.defs[r].isConst ==> DependsOn(c, j, r);
    }
  }

  /** What a sweep leaves in the caches is still right after the user value of the symbol has changed. */
  lemma {:induction false} KeptValuesSame(c: Conf, rank: seq<nat>, deps: Dependents, users: Users, users': Users,
      env: Env, env': Env, i: SymId, s: Slots, s': Slots, j: nat)
    requires Grounded(c, users, env, rank) && DepsBuilt(c, deps) && i < |c.defs|
    requires Coherent(c, users, env, s) && Solution(c, users', env') && Swept(c, deps, i, s, s')
    requires forall k :: 0 <= k < |users| && k != i ==> users'[k] == users[k]
    requires j < |s| && j in Known(c, s')
    ensures env'[j] == env[j]
    decreases rank[j]
  {
    var d := c.defs[j];
    assert Solves(c, users, env, j) && Solves(c, users', env', j);
    if !Fixed(d) {
      assert s'[j] == s[j] && j != i;
      assert SlotFits(c, users, env, s, j) && Solves(c, users, env, j) && Solves(c, users', env', j);
      var used := ValReads(c, users[j], env, d);
      ReadsAreMentions(c, users[j], env, d);
      ReadsStayKnown(c, deps, env, i, s, s', j, used);
      assert GroundedAt(c, users, env, rank, j);
      forall r | r in used && r < |env| ensures env[r] == env'[r] {
        KeptValuesSame(c, rank, deps, users, users', env, env', i, s, s', r);
      }
      ValAgrees(c, users[j], env, env', d);
    }
  }

  lemma KeptSlotOk(c: Conf, deps: Dependents, users: Users, users': Users,
      env: Env, env': Env, i: SymId, s: Slots, s': Slots, j: nat)
    requires DepsBuilt(c, deps) && i < |c.defs|
    requires Coherent(c, users, env, s) && Solution(c, users', env') && Swept(c, deps, i, s, s')
    requires forall k :: 0 <= k < |users| && k != i ==> users'[k] == users[k]
    requires j < |s| && s'[j] == s[j]
    requires forall k :: k in Known(c, s') ==> env'[k] == env[k]
    ensures SlotFits(c, users', env', s', j)
  {
    var d := c.defs[j];
    assert SlotFits(c, users, env, s, j) && Solves(c, users, env, j) && Solves(c, users', env', j);
    if s[j].vis.Some? && d.defined {
      VisReadsAreMentions(c, env, d);
      ReadsStayKnown(c, deps, env, i, s, s', j, VisReads(c, env, d));
      VisAgrees(c, env, env', d);
      if !Fixed(d) && HasVal(d, s[j]) {
        assert j in Known(c, s') && j != i;
        ReadsAreMentions(c, users[j], env, d);
        ReadsStayKnown(c, deps, env, i, s, s', j, ValReads(c, users[j], env, d));
        ValAgrees(c, users[j], env, env', d);
      }
    }
  }

  /** Pruned invalidation is sound. */
  lemma SweepKeepsCoherent(c: Conf, rank: seq<nat>, deps: Dependents, users: Users, users': Users,
      env: Env, env': Env, i: SymId, s: Slots, s': Slots)
    requires Grounded(c, users, env, rank) && DepsBuilt(c, deps) && i < |c.defs|
    requires Coherent(c, users, env, s) && Solution(c, users', env') && Swept(c, deps, i, s, s')
    requires forall k :: 0 <= k < |users| && k != i ==> users'[k] == users[k]
    ensures Coherent(c, users', env', s')
  {
    forall k | k in Known(c, s') ensures env'[k] == env[k] {
      KeptValuesSame(c, rank, deps, users, users', env, env', i, s, s', k);
    }
    forall j | 0 <= j < |s'|
      ensures SlotFits(c, users', env', s', j)
    {
      if s'[j] == s[j] {
        KeptSlotOk(c, deps, users, users', env, env', i, s, s', j);
      }
    }
  }

  /** The user value of a symbol without a prompt can change without any value changing. */
  lemma NoPromptKeepsCoherent(c: Conf, users: Users, users': Users, env: Env, i: SymId, s: Slots)
    requires Coherent(c, users, env, s) && i < |c.defs| && c.defs[i].prompts == [] && |users'| == |users|
    requires forall k :: 0 <= k < |users| && k != i ==> users'[k] == users[k]
    ensures Coherent(c, users', env, s)
  {
    NoPromptNoUser(c, users[i], users'[i], env, c.defs[i]);
    forall j | 0 <= j < |s| ensures SlotFits(c, users', env, s, j) && Solves(c, users', env, j) {
      assert SlotFits(c, users, env, s, j) && Solves(c, users, env, j);
    }
  }

  /** Caches that hold nothing but the values of n, m and y are right whatever the values are. */
  lemma FreshCoherent(c: Conf, users: Users, env: Env, slots: Slots)
    requires Solution(c, users, env) && |slots| == |env|
    requires forall i :: 0 <= i < |slots| ==> slots[i] == Slot(None, c.defs[i].constTri, None)
    ensures Coherent(c, users, env, slots)
  {
    forall i | 0 <= i < |slots| ensures SlotFits(c, users, env, slots, i) {
      assert Solves(c, users, env, i);
    }
  }

  // ---------------------------------------------------------------- runs

  datatype Op =
    | SetValue(sym: SymId, value: User)
    | UnsetValue(sym: SymId)
    | ReadTri(sym: SymId)
    | ReadStr(sym: SymId)
    | ReadVis(sym: SymId)
    | ReadAssignable(sym: SymId)

  datatype Answer = Accepted(ok: bool) | Done | TriAnswer(tri: Tri) | StrAnswer(str: string)
    | TrisAnswer(tris: seq<Tri>)

  /** "n", "m" and "y" may be given as text for bool and tristate symbols. */
  function Normalized(d: SymDef, value: User): User {
    if IsBoolTri(d.typ) && value.UserStr? && (value.str == "n" || value.str == "m" || value.str == "y")
    then UserTri(if value.str == "n" then 0 else if value.str == "m" then 1 else 2)
    else value
  }

  /** The values set_value() takes for a symbol of this type. */
  predicate ValidFor(c: Conf, d: SymDef, value: User) {
    || (d.typ == Bool && value.UserTri? && value.tri != 1)
    || (d.typ == Tristate && value.UserTri?)
    || (value.UserStr? &&
        (|| d.typ == String
         || (d.typ == Int && c.parseInt(value.str, 10).Some?)
         || (d.typ == Hex && c.parseInt(value.str, 16).Some? && c.parseInt(value.str, 16).value >= 0)))
  }

  /** What an operation does to the user values, and answers, when nothing is ever cached. */
  function UsersAfter(c: Conf, users: Users, op: Op): (u: Users)
    requires op.sym < |users| == |c.defs|
    ensures |u| == |users|
  {
    match op
    case SetValue(i, value) =>
      var v := Normalized(c.defs[i], value);
      if v != users[i] && ValidFor(c, c.defs[i], v) then users[i := v] else users
    case UnsetValue(i) => users[i := NoUser]
    case _ => users
  }

  ghost function AnswerFor(c: Conf, users: Users, env: Env, op: Op): Answer
    requires Fits(c, env) && op.sym < |users| == |c.defs|
  {
    match op
    case SetValue(i, value) =>
      var v := Normalized(c.defs[i], value);
      Accepted(v == users[i] || ValidFor(c, c.defs[i], v))
    case UnsetValue(i) => Done
    case ReadTri(i) => TriAnswer(env[i].tri)
    case ReadStr(i) => StrAnswer(env[i].str)
    case ReadVis(i) => TriAnswer(VisOf(c, env, c.defs[i]))
    case ReadAssignable(i) => TrisAnswer(Assignable(c, env, c.defs[i]))
  }

  ghost predicate OpsInRange(ops: seq<Op>, n: nat) {
    forall k :: 0 <= k < |ops| ==> ops[k].sym < n
  }

  /** The user values after a run. */
  ghost function UsersAfterAll(c: Conf, users: Users, ops: seq<Op>): (u: Users)
    requires |users| == |c.defs| && OpsInRange(ops, |users|)
    ensures |u| == |users|
    decreases |ops|
  {
    if ops == [] then users
    else UsersAfter(c, UsersAfterAll(c, users, ops[..|ops| - 1]), ops[|ops| - 1])
  }

  /** After every prefix of the run, computing the values goes round in no circle. */
  ghost predicate AllWellFounded(c: Conf, users: Users, ops: seq<Op>)
    requires |users| == |c.defs| && OpsInRange(ops, |users|)
  {
    forall k :: 0 <= k <= |ops| ==> WellFounded(c, UsersAfterAll(c, users, ops[..k]))
  }

  lemma WellFoundedUpTo(c: Conf, users: Users, ops: seq<Op>, k: nat)
    requires |users| == |c.defs| && OpsInRange(ops, |users|) && AllWellFounded(c, users, ops) && k <= |ops|
    ensures AllWellFounded(c, users, ops[..k]) && WellFounded(c, UsersAfterAll(c, users, ops[..k]))
  {
    forall j | 0 <= j <= k ensures WellFounded(c, UsersAfterAll(c, users, ops[..k][..j])) {
      assert ops[..k][..j] == ops[..j];
    }
  }

  ghost function LastAnswer(c: Conf, users: Users, op: Op): Answer
    requires WellFounded(c, users) && op.sym < |users| == |c.defs|
  {
    AnswerFor(c, users, Values(c, users), op)
  }

  /** The answers of a run in which every value is computed from scratch. */
  ghost function RunFromScratch(c: Conf, users: Users, ops: seq<Op>): (answers: seq<Answer>)
    requires |users| == |c.defs| && OpsInRange(ops, |users|) && AllWellFounded(c, users, ops)
    decreases |ops|
  {
    if ops == [] then []
    else
      var before := ops[..|ops| - 1];
      WellFoundedUpTo(c, users, ops, |ops| - 1);
      RunFromScratch(c, users, before)
      + [LastAnswer(c, UsersAfterAll(c, users, before), ops[|ops| - 1])]
  }

  lemma RunSnoc(c: Conf, users: Users, ops: seq<Op>, k: nat)
    requires |users| == |c.defs| && OpsInRange(ops, |users|) && AllWellFounded(c, users, ops) && k < |ops|
    ensures AllWellFounded(c, users, ops[..k]) && AllWellFounded(c, users, ops[..k + 1])
    ensures WellFounded(c, UsersAfterAll(c, users, ops[..k])) && WellFounded(c, UsersAfterAll(c, users, ops[..k + 1]))
    ensures UsersAfterAll(c, users, ops[..k + 1]) == UsersAfter(c, UsersAfterAll(c, users, ops[..k]), ops[k])
    ensures RunFromScratch(c, users, ops[..k + 1])
            == RunFromScratch(c, users, ops[..k]) + [LastAnswer(c, UsersAfterAll(c, users, ops[..k]), ops[k])]
  {
    WellFoundedUpTo(c, users, ops, k);
    WellFoundedUpTo(c, users, ops, k + 1);
    assert ops[..k + 1][..k] == ops[..k];
  }
}
