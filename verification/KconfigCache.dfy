/** Symbols with cached values, computed on demand and invalidated when a user value changes. */
module KconfigCache {
  import opened KconfigExpr
  import opened KconfigGrammar
  import opened Numbers
  import opened Options
  import opened KconfigValue
  import opened KconfigCoherence
  import opened KconfigAssignable

  class Symbol {
    var userValue: User
    var cachedVis: Option<Tri>
    var cachedTri: Option<Tri>
    var cachedStr: Option<string>
    var dependents: set<SymId>
    var visited: nat

    constructor (constTri: Option<Tri>)
      ensures userValue == NoUser && cachedVis == None && cachedTri == constTri && cachedStr == None
      ensures dependents == {} && visited == 0
    {
      userValue := NoUser;
      cachedVis, cachedTri, cachedStr := None, constTri, None;
      dependents, visited := {}, 0;
    }
  }

  class Kconfig {
    const conf: Conf
    const syms: seq<Symbol>
    const uniqueDefinedSyms: seq<SymId>

    ghost predicate Distinct() {
      forall i, j :: 0 <= i < j < |syms| ==> syms[i] != syms[j]
    }

    /** The symbol table holds one object for each symbol of the configuration. */
    ghost predicate Shape() {
      && ConfOk(conf) && |syms| == |conf.defs| && Distinct()
      && (forall i :: i in uniqueDefinedSyms ==> i < |syms| && conf.defs[i].defined)
      && (forall i :: 0 <= i < |syms| && conf.defs[i].defined ==> i in uniqueDefinedSyms)
    }

    /** A configuration as it is right after parsing: no user values, and nothing cached but n, m and y. */
    constructor (conf: Conf, uniqueDefinedSyms: seq<SymId>)
      requires ConfOk(conf)
      requires forall i :: i in uniqueDefinedSyms ==> i < |conf.defs| && conf.defs[i].defined
      requires forall i :: 0 <= i < |conf.defs| && conf.defs[i].defined ==> i in uniqueDefinedSyms
      ensures this.conf == conf && this.uniqueDefinedSyms == uniqueDefinedSyms
      ensures Shape() && Untouched() && fresh(syms)
    {
      var ss: seq<Symbol> := [];
      for k := 0 to |conf.defs|
        invariant |ss| == k && fresh(ss)
        invariant forall i, j :: 0 <= i < j < k ==> ss[i] != ss[j]
        invariant forall i :: 0 <= i < k ==>
          ss[i].userValue == NoUser && ss[i].cachedVis == None && ss[i].cachedTri == conf.defs[i].constTri &&
          ss[i].cachedStr == None && ss[i].dependents == {} && ss[i].visited == 0
      {
        var sym := new Symbol(conf.defs[k].constTri);
        ss := ss + [sym];
      }
      this.conf, this.syms, this.uniqueDefinedSyms := conf, ss, uniqueDefinedSyms;
    }

    ghost predicate Untouched()
      requires |syms| == |conf.defs|
      reads syms
    {
      NothingCached() && forall i :: 0 <= i < |syms| ==> syms[i].dependents == {} && syms[i].visited == 0
    }

    ghost predicate NothingCached()
      requires |syms| == |conf.defs|
      reads syms
    {
      forall i :: 0 <= i < |syms| ==>
        syms[i].userValue == NoUser && syms[i].cachedVis == None && syms[i].cachedTri == conf.defs[i].constTri &&
        syms[i].cachedStr == None
    }

    ghost function SlotsNow(): (s: Slots)
      reads syms
      ensures |s| == |syms|
    {
      seq(|syms|, i requires 0 <= i < |syms| reads syms =>
        Slot(syms[i].cachedVis, syms[i].cachedTri, syms[i].cachedStr))
    }

    ghost function UsersNow(): (u: Users)
      reads syms
      ensures |u| == |syms|
    {
      seq(|syms|, i requires 0 <= i < |syms| reads syms => syms[i].userValue)
    }

    ghost predicate Ok(rank: seq<nat>, env: Env)
      reads syms
    {
      Shape() && Grounded(conf, UsersNow(), env, rank) && Coherent(conf, UsersNow(), env, SlotsNow())
    }

    /** expr_value(): evaluates left to right, skipping right operands that cannot matter. */
    method ExprValue(e: Expr, ghost bound: nat, ghost rank: seq<nat>, ghost env: Env) returns (v: Tri)
      requires Ok(rank, env) && InRange(e, |syms|)
      requires Below(rank, MeanReads(conf, env, e), bound)
      modifies syms`cachedVis, syms`cachedTri, syms`cachedStr
      ensures Ok(rank, env) && Grow(conf, old(SlotsNow()), SlotsNow())
      ensures v == Mean(conf, env, e)
      ensures MeanReads(conf, env, e) <= Known(conf, SlotsNow())
      decreases bound + 1, 1, e
    {
      match e {
        case Sym(s) => v := TriValue(s, rank, env);
        case And(l, r) =>
          v := ExprValue(l, bound, rank, env);
          if v != 0 {
            var w := ExprValue(r, bound, rank, env);
            v := Min(v, w);
          }
        case Or(l, r) =>
          v := ExprValue(l, bound, rank, env);
          if v != 2 {
            var w := ExprValue(r, bound, rank, env);
            v := Max(v, w);
          }
        case Not(x) =>
          v := ExprValue(x, bound, rank, env);
          v := 2 - v;
        case Rel(rel, a, b) =>
          var comp := CompareSyms(a, b, bound, rank, env);
          v := if Holds(rel, comp) then 2 else 0;
      }
    }

    /** The comparison in expr_value(): as strings if both are strings, else as numbers, else as strings. */
    method CompareSyms(a: SymId, b: SymId, ghost bound: nat, ghost rank: seq<nat>, ghost env: Env)
      returns (comp: int)
      requires Ok(rank, env) && a < |syms| && b < |syms| && rank[a] < bound && rank[b] < bound
      modifies syms`cachedVis, syms`cachedTri, syms`cachedStr
      ensures Ok(rank, env) && Grow(conf, old(SlotsNow()), SlotsNow())
      ensures comp == Compare(conf.parseInt, conf.defs[a].typ, env[a], conf.defs[b].typ, env[b])
      ensures {a, b} <= Known(conf, SlotsNow())
      decreases bound + 1, 0
    {
      if !(conf.defs[a].typ == String && conf.defs[b].typ == String) {
        var diff := NumDifference(a, b, bound, rank, env);
        if diff.Some? {
          return diff.value;
        }
      }
      var s := StrValue(a, rank, env);
      var t := StrValue(b, rank, env);
      comp := StrCmp(s, t);
    }

    /** The difference of the operands as numbers; None is the ValueError of an operand that is no number, after
        which the second operand may not have been looked at. */
    method NumDifference(a: SymId, b: SymId, ghost bound: nat, ghost rank: seq<nat>, ghost env: Env)
      returns (diff: Option<int>)
      requires Ok(rank, env) && a < |syms| && b < |syms| && rank[a] < bound && rank[b] < bound
      modifies syms`cachedVis, syms`cachedTri, syms`cachedStr
      ensures Ok(rank, env) && Grow(conf, old(SlotsNow()), SlotsNow())
      ensures diff == match (Num(conf.defs[a].typ, conf.parseInt, env[a]), Num(conf.defs[b].typ, conf.parseInt, env[b]))
                      case (Some(x), Some(y)) => Some(x - y)
                      case _ => None
      ensures diff.Some? ==> {a, b} <= Known(conf, SlotsNow())
      decreases bound + 1, 0, 0
    {
      diff := None;
      var x := SymToNum(a, rank, env);
      if x.Some? {
        var y := SymToNum(b, rank, env);
        if y.Some? { diff := Some(x.value - y.value); }
      }
    }

    /** _sym_to_num(); None is its ValueError. */
    method SymToNum(i: SymId, ghost rank: seq<nat>, ghost env: Env) returns (x: Option<int>)
      requires Ok(rank, env) && i < |syms|
      modifies syms`cachedVis, syms`cachedTri, syms`cachedStr
      ensures Ok(rank, env) && Grow(conf, old(SlotsNow()), SlotsNow())
      ensures x == Num(conf.defs[i].typ, conf.parseInt, env[i])
      ensures i in Known(conf, SlotsNow())
      decreases rank[i] + 1, 9
    {
      if IsBoolTri(conf.defs[i].typ) {
        var t := TriValue(i, rank, env);
        x := Some(t);
      } else {
        var s := StrValue(i, rank, env);
        x := conf.parseInt(s, Base(conf.defs[i].typ));
      }
    }

    method TypeValue(i: SymId, ghost bound: nat, ghost rank: seq<nat>, ghost env: Env) returns (ty: SymType)
      requires Ok(rank, env) && i < |syms|
      requires Below(rank, TypeReads(conf, conf.defs[i]), bound)
      modifies syms`cachedVis, syms`cachedTri, syms`cachedStr
      ensures Ok(rank, env) && Grow(conf, old(SlotsNow()), SlotsNow())
      ensures ty == TypeIn(conf, env, conf.defs[i])
      ensures TypeReads(conf, conf.defs[i]) <= Known(conf, SlotsNow())
      decreases bound + 1, 0
    {
      ty := conf.defs[i].typ;
      if ty == Tristate {
        var m := TriValue(conf.modules, rank, env);
        if m == 0 { ty := Bool; }
      }
    }

    /** The loop of _visibility() over the prompt conditions. */
    method LargestPrompt(ps: seq<Expr>, ghost bound: nat, ghost rank: seq<nat>, ghost env: Env) returns (vis: Tri)
      requires Ok(rank, env) && forall k :: 0 <= k < |ps| ==> InRange(ps[k], |syms|)
      requires Below(rank, PromptReads(conf, env, ps), bound)
      modifies syms`cachedVis, syms`cachedTri, syms`cachedStr
      ensures Ok(rank, env) && Grow(conf, old(SlotsNow()), SlotsNow())
      ensures vis == PromptMax(conf, env, ps)
      ensures PromptReads(conf, env, ps) <= Known(conf, SlotsNow())
      decreases bound + 1, 2
    {
      vis := 0;
      var k := 0;
      while k < |ps|
        invariant 0 <= k <= |ps|
        invariant Ok(rank, env) && Grow(conf, old(SlotsNow()), SlotsNow())
        invariant vis == PromptMax(conf, env, ps[..k])
        invariant PromptReads(conf, env, ps[..k]) <= Known(conf, SlotsNow())
      {
        assert ps[..k + 1][..k] == ps[..k];
        PromptIsRead(conf, env, ps, k);
        var v := ExprValue(ps[k], bound, rank, env);
        vis := Max(vis, v);
        k := k + 1;
      }
      assert ps[..k] == ps;
    }

    /** _visibility(): the largest prompt condition, with m promoted to y unless the type in effect is tristate. */
    method ComputeVisibility(i: SymId, ghost bound: nat, ghost rank: seq<nat>, ghost env: Env) returns (vis: Tri)
      requires Ok(rank, env) && i < |syms|
      requires Below(rank, VisReads(conf, env, conf.defs[i]), bound)
      modifies syms`cachedVis, syms`cachedTri, syms`cachedStr
      ensures Ok(rank, env) && Grow(conf, old(SlotsNow()), SlotsNow())
      ensures vis == VisOf(conf, env, conf.defs[i])
      ensures VisReads(conf, env, conf.defs[i]) <= Known(conf, SlotsNow())
      decreases bound + 1, 3
    {
      vis := LargestPrompt(conf.defs[i].prompts, bound, rank, env);
      if vis == 1 {
        var ty := TypeValue(i, bound, rank, env);
        if ty != Tristate { vis := 2; }
      }
    }

    method StoreVis(i: SymId, vis: Tri, ghost rank: seq<nat>, ghost env: Env)
      requires Ok(rank, env) && i < |syms|
      requires vis == VisOf(conf, env, conf.defs[i]) && VisReads(conf, env, conf.defs[i]) <= Known(conf, SlotsNow())
      modifies {syms[i]}`cachedVis
      ensures Ok(rank, env) && Grow(conf, old(SlotsNow()), SlotsNow()) && i in Seen(SlotsNow())
    {
      ghost var users, before := UsersNow(), SlotsNow();
      assert SlotFits(conf, users, env, before, i);
      syms[i].cachedVis := Some(vis);
      assert UsersNow() == users;
      Stored(i, users, before, before[i].(vis := Some(vis)), rank, env);
    }

    method StoreTri(i: SymId, v: Tri, ghost rank: seq<nat>, ghost env: Env)
      requires Ok(rank, env) && i < |syms| && v == env[i].tri
      requires IsBoolTri(conf.defs[i].typ) && !Fixed(conf.defs[i]) ==>
        i in Seen(SlotsNow()) && ValReads(conf, syms[i].userValue, env, conf.defs[i]) <= Known(conf, SlotsNow())
      modifies {syms[i]}`cachedTri
      ensures Ok(rank, env) && Grow(conf, old(SlotsNow()), SlotsNow())
      ensures IsBoolTri(conf.defs[i].typ) ==> i in Known(conf, SlotsNow())
    {
      ghost var users, before := UsersNow(), SlotsNow();
      assert SlotFits(conf, users, env, before, i);
      syms[i].cachedTri := Some(v);
      assert UsersNow() == users;
      Stored(i, users, before, before[i].(tri := Some(v)), rank, env);
    }

    method StoreStr(i: SymId, v: string, ghost rank: seq<nat>, ghost env: Env)
      requires Ok(rank, env) && i < |syms| && v == env[i].str
      requires IsBoolTri(conf.defs[i].typ) ==> i in Known(conf, SlotsNow())
      requires !IsBoolTri(conf.defs[i].typ) && !Fixed(conf.defs[i]) ==>
        i in Seen(SlotsNow()) && ValReads(conf, syms[i].userValue, env, conf.defs[i]) <= Known(conf, SlotsNow())
      modifies {syms[i]}`cachedStr
      ensures Ok(rank, env) && Grow(conf, old(SlotsNow()), SlotsNow()) && i in Known(conf, SlotsNow())
    {
      ghost var users, before := UsersNow(), SlotsNow();
      assert SlotFits(conf, users, env, before, i);
      syms[i].cachedStr := Some(v);
      assert UsersNow() == users;
      Stored(i, users, before, before[i].(str := Some(v)), rank, env);
    }

    method Visibility(i: SymId, ghost bound: nat, ghost rank: seq<nat>, ghost env: Env) returns (vis: Tri)
      requires Ok(rank, env) && i < |syms|
      requires Below(rank, VisReads(conf, env, conf.defs[i]), bound)
      modifies syms`cachedVis, syms`cachedTri, syms`cachedStr
      ensures Ok(rank, env) && Grow(conf, old(SlotsNow()), SlotsNow())
      ensures vis == VisOf(conf, env, conf.defs[i])
      ensures VisReads(conf, env, conf.defs[i]) <= Known(conf, SlotsNow())
      ensures i in Seen(SlotsNow())
      decreases bound + 1, 4
    {
      if syms[i].cachedVis.Some? {
        assert SlotFits(conf, UsersNow(), env, SlotsNow(), i);
        return syms[i].cachedVis.value;
      }
      vis := ComputeVisibility(i, bound, rank, env);
      StoreVis(i, vis, rank, env);
    }

    /** Puts what a store did to one object into terms of the cache contents. */
    lemma Stored(i: SymId, users: Users, before: Slots, s: Slot, rank: seq<nat>, env: Env)
      requires Shape() && i < |syms| && |before| == |syms| && SlotsNow()[i] == s
      requires forall k :: 0 <= k < |syms| && k != i ==> SlotsNow()[k] == before[k]
      requires Grounded(conf, users, env, rank) && Coherent(conf, users, env, before) && UsersNow() == users
      requires SlotOk(conf, users[i], env, Known(conf, before), conf.defs[i], env[i], s)
      requires HasVal(conf.defs[i], before[i]) ==> HasVal(conf.defs[i], s)
      requires before[i].vis.Some? ==> s.vis.Some?
      ensures Ok(rank, env) && Grow(conf, before, SlotsNow())
    {
      assert SlotsNow() == before[i := s];
      StoreKeepsCoherent(conf, users, env, before, i, s);
    }

    /** The search for the first property whose condition is not n, as each loop over defaults or ranges does it. */
    method FirstActive(ps: seq<Prop>, ghost bound: nat, ghost rank: seq<nat>, ghost env: Env)
      returns (k: nat, depVal: Tri)
      requires Ok(rank, env) && CondsOk(ps, |syms|)
      requires Below(rank, ActiveReads(conf, env, ps, 0), bound)
      modifies syms`cachedVis, syms`cachedTri, syms`cachedStr
      ensures Ok(rank, env) && Grow(conf, old(SlotsNow()), SlotsNow())
      ensures k == Active(conf, env, ps, 0)
      ensures k < |ps| ==> depVal == Mean(conf, env, ps[k].cond)
      ensures ActiveReads(conf, env, ps, 0) <= Known(conf, SlotsNow())
      decreases bound + 1, 2
    {
      k, depVal := 0, 0;
      while k < |ps|
        invariant 0 <= k <= |ps|
        invariant Ok(rank, env) && Grow(conf, old(SlotsNow()), SlotsNow())
        invariant Active(conf, env, ps, 0) == Active(conf, env, ps, k)
        invariant Below(rank, ActiveReads(conf, env, ps, k), bound)
        invariant ActiveReads(conf, env, ps, 0) <= Known(conf, SlotsNow()) + ActiveReads(conf, env, ps, k)
      {
        MentionsProp(ps[k], ps);
        depVal := ExprValue(ps[k].cond, bound, rank, env);
        if depVal != 0 { return; }
        k := k + 1;
      }
    }

    /** The value of the first default whose condition is not n, bounded by that condition; 0 without one. */
    method DefaultTriValue(i: SymId, ghost rank: seq<nat>, ghost env: Env) returns (v: Tri)
      requires Ok(rank, env) && i < |syms|
      requires Below(rank, DefaultReads(conf, env, conf.defs[i]), rank[i])
      modifies syms`cachedVis, syms`cachedTri, syms`cachedStr
      ensures Ok(rank, env) && Grow(conf, old(SlotsNow()), SlotsNow())
      ensures v == DefaultTri(conf, env, conf.defs[i])
      ensures DefaultReads(conf, env, conf.defs[i]) <= Known(conf, SlotsNow())
      decreases rank[i] + 1, 3
    {
      var ds := conf.defs[i].defaults;
      var k, depVal := FirstActive(ds, rank[i], rank, env);
      v := 0;
      if k < |ds| {
        MentionsProp(ds[k], ds);
        v := ExprValue(ds[k].value, rank[i], rank, env);
        v := Min(v, depVal);
      }
    }

    lemma MentionsProp(p: Prop, ps: seq<Prop>)
      requires p in ps
      ensures PropItems(p) <= PropsItems(ps)
    {
    }

    /** The value before selects: what the user chose if the symbol is visible, else defaults and implies. */
    method ChosenTriValue(i: SymId, vis: Tri, ghost rank: seq<nat>, ghost env: Env) returns (v: Tri)
      requires Ok(rank, env) && i < |syms|
      requires Below(rank, ChosenReads(conf, syms[i].userValue, env, conf.defs[i]), rank[i])
      requires vis == VisOf(conf, env, conf.defs[i])
      modifies syms`cachedVis, syms`cachedTri, syms`cachedStr
      ensures Ok(rank, env) && Grow(conf, old(SlotsNow()), SlotsNow())
      ensures v == ChosenTri(conf, syms[i].userValue, env, conf.defs[i])
      ensures ChosenReads(conf, syms[i].userValue, env, conf.defs[i]) <= Known(conf, SlotsNow())
      decreases rank[i] + 1, 4
    {
      var d := conf.defs[i];
      if vis != 0 && syms[i].userValue.UserTri? {
        v := Min(syms[i].userValue.tri, vis);
      } else {
        v := DefaultTriValue(i, rank, env);
        var weak := ExprValue(d.weakRevDep, rank[i], rank, env);
        if weak != 0 {
          var dep := ExprValue(d.directDep, rank[i], rank, env);
          if dep != 0 { v := Max(weak, v); }
        }
      }
    }

    /** The chosen value raised by selects. */
    method SelectedTri(i: SymId, vis: Tri, ghost rank: seq<nat>, ghost env: Env) returns (v: Tri)
      requires Ok(rank, env) && i < |syms|
      requires Below(rank, SelectedReads(conf, syms[i].userValue, env, conf.defs[i]), rank[i])
      requires Below(rank, WarnReads(conf, env, conf.defs[i]), rank[i])
      requires vis == VisOf(conf, env, conf.defs[i])
      modifies syms`cachedVis, syms`cachedTri, syms`cachedStr
      ensures Ok(rank, env) && Grow(conf, old(SlotsNow()), SlotsNow())
      ensures v == Selected(conf, syms[i].userValue, env, conf.defs[i])
      ensures SelectedReads(conf, syms[i].userValue, env, conf.defs[i]) <= Known(conf, SlotsNow())
      decreases rank[i] + 1, 5
    {
      v := ChosenTriValue(i, vis, rank, env);
      var sel := ExprValue(conf.defs[i].revDep, rank[i], rank, env);
      if sel != 0 {
        var dep := ExprValue(conf.defs[i].directDep, rank[i], rank, env);
        if dep < sel {
          WarnReadsAre(conf, env, conf.defs[i]);
          var _ := WarnSelectUnsatisfiedDeps(conf.defs[i].revDep, conf.defs[i].directDep, rank[i], rank, env);
        }
        v := Max(sel, v);
      }
    }

    /** _warn_select_unsatisfied_deps(), for a symbol with these dependencies, and with the symbols that the warning
        lists as its answer. Everything that goes into the message is evaluated, whether or not it is printed. */
    method WarnSelectUnsatisfiedDeps(revDep: Expr, directDep: Expr, ghost bound: nat, ghost rank: seq<nat>,
        ghost env: Env)
      returns (listed: seq<SymId>)
      requires Ok(rank, env) && InRange(revDep, |syms|) && InRange(directDep, |syms|)
      requires SelectsFit(conf, Operands(revDep, false))
      requires Below(rank, MeanReads(conf, env, revDep), bound) && Below(rank, MeanReads(conf, env, directDep), bound)
      requires Below(rank, SelectsReads(conf, env, Operands(revDep, false), Mean(conf, env, directDep)), bound)
      modifies syms`cachedVis, syms`cachedTri, syms`cachedStr
      ensures Ok(rank, env) && Grow(conf, old(SlotsNow()), SlotsNow())
      ensures listed == Listed(conf, env, Operands(revDep, false), Mean(conf, env, directDep))
      decreases bound + 1, 4
    {
      var _ := ExprValue(directDep, bound, rank, env);
      var _ := ExprValue(revDep, bound, rank, env);
      var selects := SplitInto(revDep, false, []);
      assert selects == Operands(revDep, false);
      listed := ListSelects(selects, directDep, bound, rank, env);
    }

    /** Its loop over the alternatives of the reverse dependency. */
    method ListSelects(selects: seq<Expr>, direct: Expr, ghost bound: nat, ghost rank: seq<nat>, ghost env: Env)
      returns (listed: seq<SymId>)
      requires Ok(rank, env) && InRange(direct, |syms|) && SelectsFit(conf, selects)
      requires Below(rank, MeanReads(conf, env, direct), bound)
      requires Below(rank, SelectsReads(conf, env, selects, Mean(conf, env, direct)), bound)
      modifies syms`cachedVis, syms`cachedTri, syms`cachedStr
      ensures Ok(rank, env) && Grow(conf, old(SlotsNow()), SlotsNow())
      ensures listed == Listed(conf, env, selects, Mean(conf, env, direct))
      decreases bound + 1, 3
    {
      ghost var limit := Mean(conf, env, direct);
      listed := [];
      for k := 0 to |selects|
        invariant Ok(rank, env) && Grow(conf, old(SlotsNow()), SlotsNow())
        invariant listed == Listed(conf, env, selects[..k], limit)
      {
        SelectIsRead(conf, env, selects, limit, k);
        assert selects[..k + 1][..k] == selects[..k];
        var one := ListSelect(selects[k], direct, bound, rank, env);
        listed := listed + one;
      }
      assert selects[..|selects|] == selects;
    }

    /** One alternative: nothing unless it exceeds the direct dependencies. */
    method ListSelect(e: Expr, direct: Expr, ghost bound: nat, ghost rank: seq<nat>, ghost env: Env)
      returns (listed: seq<SymId>)
      requires Ok(rank, env) && InRange(direct, |syms|) && SelectOk(conf, e)
      requires Below(rank, MeanReads(conf, env, direct), bound)
      requires Below(rank, SelectReads(conf, env, e, Mean(conf, env, direct)), bound)
      modifies syms`cachedVis, syms`cachedTri, syms`cachedStr
      ensures Ok(rank, env) && Grow(conf, old(SlotsNow()), SlotsNow())
      ensures listed == if Mean(conf, env, e) <= Mean(conf, env, direct) then [] else [Selector(e).id]
      decreases bound + 1, 2, 1
    {
      var v := ExprValue(e, bound, rank, env);
      var dep := ExprValue(direct, bound, rank, env);
      listed := [];
      if v > dep {
        var s := ShowSelect(e, bound, rank, env);
        listed := [s];
      }
    }

    /** What the warning shows of one select: the selecting symbol, its direct dependencies, and the condition. */
    method ShowSelect(e: Expr, ghost bound: nat, ghost rank: seq<nat>, ghost env: Env) returns (s: SymId)
      requires Ok(rank, env) && SelectOk(conf, e) && Below(rank, ShownReads(conf, env, e), bound)
      modifies syms`cachedVis, syms`cachedTri, syms`cachedStr
      ensures Ok(rank, env) && Grow(conf, old(SlotsNow()), SlotsNow())
      ensures s == Selector(e).id
      decreases bound + 1, 2, 0
    {
      var parts := SplitInto(e, true, []);
      assert parts == Operands(e, true);
      s := parts[0].id;
      var _ := StrValue(s, rank, env);
      var _ := ExprValue(conf.defs[s].directDep, bound, rank, env);
      if e.And? {
        var _ := ExprValue(e.right, bound, rank, env);
      }
    }

    /** m becomes y for bool symbols and under an `imply` of y. */
    method PromoteTri(i: SymId, v: Tri, ghost rank: seq<nat>, ghost env: Env) returns (w: Tri)
      requires Ok(rank, env) && i < |syms|
      requires Below(rank, PromoteReads(conf, env, conf.defs[i], v), rank[i])
      modifies syms`cachedVis, syms`cachedTri, syms`cachedStr
      ensures Ok(rank, env) && Grow(conf, old(SlotsNow()), SlotsNow())
      ensures w == Promote(conf, env, conf.defs[i], v)
      ensures PromoteReads(conf, env, conf.defs[i], v) <= Known(conf, SlotsNow())
      decreases rank[i] + 1, 3
    {
      w := v;
      if v == 1 {
        var ty := TypeValue(i, rank[i], rank, env);
        if ty == Bool {
          w := 2;
        } else {
          var weak := ExprValue(conf.defs[i].weakRevDep, rank[i], rank, env);
          if weak == 2 { w := 2; }
        }
      }
    }

    /** The part of Symbol.tri_value that computes the value of a bool or tristate symbol. */
    method ComputeTri(i: SymId, ghost rank: seq<nat>, ghost env: Env) returns (v: Tri)
      requires Ok(rank, env) && i < |syms|
      requires Below(rank, TriReads(conf, syms[i].userValue, env, conf.defs[i]), rank[i])
      requires Below(rank, WarnReads(conf, env, conf.defs[i]), rank[i])
      modifies syms`cachedVis, syms`cachedTri, syms`cachedStr
      ensures Ok(rank, env) && Grow(conf, old(SlotsNow()), SlotsNow())
      ensures v == TriOf(conf, syms[i].userValue, env, conf.defs[i])
      ensures TriReads(conf, syms[i].userValue, env, conf.defs[i]) <= Known(conf, SlotsNow())
      ensures i in Seen(SlotsNow())
      decreases rank[i] + 1, 6
    {
      var vis := Visibility(i, rank[i], rank, env);
      v := SelectedTri(i, vis, rank, env);
      v := PromoteTri(i, v, rank, env);
    }

    method TriValue(i: SymId, ghost rank: seq<nat>, ghost env: Env) returns (v: Tri)
      requires Ok(rank, env) && i < |syms|
      modifies syms`cachedVis, syms`cachedTri, syms`cachedStr
      ensures Ok(rank, env) && Grow(conf, old(SlotsNow()), SlotsNow())
      ensures v == env[i].tri
      ensures if IsBoolTri(conf.defs[i].typ) then i in Known(conf, SlotsNow()) else v == 0
      decreases (if IsBoolTri(conf.defs[i].typ) then rank[i] + 1 else 0), 7
    {
      assert SlotFits(conf, UsersNow(), env, SlotsNow(), i) && Solves(conf, UsersNow(), env, i);
      if syms[i].cachedTri.Some? {
        return syms[i].cachedTri.value;
      }
      if !IsBoolTri(conf.defs[i].typ) {
        v := 0;
      } else {
        assert GroundedAt(conf, UsersNow(), env, rank, i);
        v := ComputeTri(i, rank, env);
      }
      assert Solves(conf, UsersNow(), env, i);
      StoreTri(i, v, rank, env);
    }

    /** The text of the first default whose condition is not n. */
    method DefaultStrValue(i: SymId, ghost rank: seq<nat>, ghost env: Env) returns (found: bool, v: string)
      requires Ok(rank, env) && i < |syms|
      requires !IsBoolTri(conf.defs[i].typ) && conf.defs[i].typ != Unknown
      requires Below(rank, DefaultStrReads(conf, env, conf.defs[i]), rank[i])
      modifies syms`cachedVis, syms`cachedTri, syms`cachedStr
      ensures Ok(rank, env) && Grow(conf, old(SlotsNow()), SlotsNow())
      ensures found <==> Active(conf, env, conf.defs[i].defaults, 0) < |conf.defs[i].defaults|
      ensures v == DefaultStr(conf, env, conf.defs[i])
      ensures DefaultStrReads(conf, env, conf.defs[i]) <= Known(conf, SlotsNow())
      decreases rank[i] + 1, 3
    {
      var ds := conf.defs[i].defaults;
      var k, _ := FirstActive(ds, rank[i], rank, env);
      found, v := k < |ds|, "";
      if found {
        MentionsProp(ds[k], ds);
        v := StrValue(ds[k].value.id, rank, env);
      }
    }

    /** The bounds of the first range whose condition is not n. */
    method BoundsValue(i: SymId, ghost rank: seq<nat>, ghost env: Env) returns (b: Option<(int, int)>)
      requires Ok(rank, env) && i < |syms|
      requires Below(rank, BoundsReads(conf, env, conf.defs[i]), rank[i])
      modifies syms`cachedVis, syms`cachedTri, syms`cachedStr
      ensures Ok(rank, env) && Grow(conf, old(SlotsNow()), SlotsNow())
      ensures b == Bounds(conf, env, conf.defs[i])
      ensures BoundsReads(conf, env, conf.defs[i]) <= Known(conf, SlotsNow())
      decreases rank[i] + 1, 3
    {
      var rs := conf.defs[i].ranges;
      var k, _ := FirstActive(rs, rank[i], rank, env);
      b := None;
      if k < |rs| {
        MentionsProp(rs[k], rs);
        var lo := StrValue(rs[k].low, rank, env);
        var hi := StrValue(rs[k].high, rank, env);
        b := Some((ToInt(conf, lo, conf.defs[i].typ), ToInt(conf, hi, conf.defs[i].typ)));
      }
    }

    /** What an int or hex symbol gets when its user value does not count: a default clamped to the range. */
    method DefaultNumValue(i: SymId, range: Option<(int, int)>, ghost rank: seq<nat>, ghost env: Env)
      returns (v: string)
      requires Ok(rank, env) && i < |syms|
      requires (conf.defs[i].typ == Int || conf.defs[i].typ == Hex) && range == Bounds(conf, env, conf.defs[i])
      requires Below(rank, DefaultStrReads(conf, env, conf.defs[i]), rank[i])
      modifies syms`cachedVis, syms`cachedTri, syms`cachedStr
      ensures Ok(rank, env) && Grow(conf, old(SlotsNow()), SlotsNow())
      ensures v == DefaultNum(conf, env, conf.defs[i])
      ensures DefaultStrReads(conf, env, conf.defs[i]) <= Known(conf, SlotsNow())
      decreases rank[i] + 1, 4
    {
      var found, s := DefaultStrValue(i, rank, env);
      var x := if found then ToInt(conf, s, conf.defs[i].typ) else 0;
      v := s;
      if range.Some? {
        if x < range.value.0 {
          v := conf.showInt(conf.defs[i].typ, range.value.0);
        } else if x > range.value.1 {
          v := conf.showInt(conf.defs[i].typ, range.value.1);
        }
      }
    }

    /** The int and hex part of Symbol.str_value. */
    method ComputeNum(i: SymId, vis: Tri, ghost rank: seq<nat>, ghost env: Env) returns (v: string)
      requires Ok(rank, env) && i < |syms|
      requires (conf.defs[i].typ == Int || conf.defs[i].typ == Hex) && vis == VisOf(conf, env, conf.defs[i])
      requires Below(rank, NumReads(conf, syms[i].userValue, env, conf.defs[i]), rank[i])
      modifies syms`cachedVis, syms`cachedTri, syms`cachedStr
      ensures Ok(rank, env) && Grow(conf, old(SlotsNow()), SlotsNow())
      ensures v == NumOf(conf, syms[i].userValue, env, conf.defs[i])
      ensures NumReads(conf, syms[i].userValue, env, conf.defs[i])
              <= Known(conf, SlotsNow()) + VisReads(conf, env, conf.defs[i])
      decreases rank[i] + 1, 5
    {
      var range := BoundsValue(i, rank, env);
      if vis != 0 && UserInRange(conf, conf.defs[i].typ, syms[i].userValue, range) {
        v := syms[i].userValue.str;
      } else {
        v := DefaultNumValue(i, range, rank, env);
      }
    }

    /** The string, int and hex part of Symbol.str_value. */
    method ComputeStr(i: SymId, ghost rank: seq<nat>, ghost env: Env) returns (v: string)
      requires Ok(rank, env) && i < |syms|
      requires !IsBoolTri(conf.defs[i].typ) && conf.defs[i].typ != Unknown
      requires Below(rank, ValReads(conf, syms[i].userValue, env, conf.defs[i]), rank[i])
      modifies syms`cachedVis, syms`cachedTri, syms`cachedStr
      ensures Ok(rank, env) && Grow(conf, old(SlotsNow()), SlotsNow())
      ensures v == ValOf(conf, syms[i].userValue, env, conf.defs[i]).str
      ensures ValReads(conf, syms[i].userValue, env, conf.defs[i]) <= Known(conf, SlotsNow())
      ensures i in Seen(SlotsNow())
      decreases rank[i] + 1, 6
    {
      var vis := Visibility(i, rank[i], rank, env);
      if conf.defs[i].typ != String {
        v := ComputeNum(i, vis, rank, env);
      } else if vis != 0 && syms[i].userValue.UserStr? {
        v := syms[i].userValue.str;
      } else {
        var _, s := DefaultStrValue(i, rank, env);
        v := s;
      }
    }

    method StrValue(i: SymId, ghost rank: seq<nat>, ghost env: Env) returns (v: string)
      requires Ok(rank, env) && i < |syms|
      modifies syms`cachedVis, syms`cachedTri, syms`cachedStr
      ensures Ok(rank, env) && Grow(conf, old(SlotsNow()), SlotsNow())
      ensures v == env[i].str
      ensures i in Known(conf, SlotsNow())
      decreases rank[i] + 1, 8
    {
      assert SlotFits(conf, UsersNow(), env, SlotsNow(), i);
      if syms[i].cachedStr.Some? {
        return syms[i].cachedStr.value;
      }
      if IsBoolTri(conf.defs[i].typ) {
        var t := TriValue(i, rank, env);
        v := TriStr(t);
      } else if conf.defs[i].typ == Unknown {
        v := conf.defs[i].name;
      } else {
        assert GroundedAt(conf, UsersNow(), env, rank, i);
        v := ComputeStr(i, rank, env);
      }
      assert Solves(conf, UsersNow(), env, i);
      StoreStr(i, v, rank, env);
    }

    // ---------------------------------------------------------------- dependents

    ghost function DepsNow(): (d: Dependents)
      reads syms
      ensures |d| == |syms|
    {
      seq(|syms|, i requires 0 <= i < |syms| reads syms => syms[i].dependents)
    }

    /** _depend_on(): adds `sc` to the dependents of every non-constant symbol in the expression. */
    method DependOn(sc: SymId, e: Expr)
      requires Shape() && InRange(e, |syms|)
      modifies syms`dependents
      ensures DepsNow() == AddDeps(conf, old(DepsNow()), sc, Items(e))
      decreases e
    {
      ghost var deps := DepsNow();
      match e {
        case Sym(s) => AddDependent(s, sc);
        case And(l, r) =>
          DependOn(sc, l);
          DependOn(sc, r);
          AddDepsTwice(conf, deps, sc, Items(l), Items(r));
        case Or(l, r) =>
          DependOn(sc, l);
          DependOn(sc, r);
          AddDepsTwice(conf, deps, sc, Items(l), Items(r));
        case Not(x) => DependOn(sc, x);
        case Rel(_, a, b) =>
          AddDependent(a, sc);
          AddDependent(b, sc);
          AddDepsTwice(conf, deps, sc, {a}, {b});
          assert {a} + {b} == {a, b};
      }
    }

    method AddDependent(s: SymId, sc: SymId)
      requires Shape() && s < |syms|
      modifies syms`dependents
      ensures DepsNow() == AddDeps(conf, old(DepsNow()), sc, {s})
    {
      if !conf.defs[s].isConst { syms[s].dependents := syms[s].dependents + {sc}; }
    }

    method DependOnPrompts(sc: SymId, es: seq<Expr>)
      requires Shape() && forall k :: 0 <= k < |es| ==> InRange(es[k], |syms|)
      modifies syms`dependents
      ensures DepsNow() == AddDeps(conf, old(DepsNow()), sc, ExprsItems(es))
    {
      for k := 0 to |es|
        invariant DepsNow() == AddDeps(conf, old(DepsNow()), sc, ExprsItems(es[..k]))
      {
        DependOn(sc, es[k]);
        AddDepsTwice(conf, old(DepsNow()), sc, ExprsItems(es[..k]), Items(es[k]));
        ExprsItemsSnoc(es, k);
      }
      assert es[..|es|] == es;
    }

    ghost predicate PropInRange(p: Prop) {
      match p
      case Default(value, cond) => InRange(value, |syms|) && InRange(cond, |syms|)
      case Range(low, high, cond) => low < |syms| && high < |syms| && InRange(cond, |syms|)
    }

    method DependOnProp(sc: SymId, p: Prop)
      requires Shape() && PropInRange(p)
      modifies syms`dependents
      ensures DepsNow() == AddDeps(conf, old(DepsNow()), sc, PropItems(p))
    {
      ghost var deps := DepsNow();
      match p {
        case Default(value, cond) =>
          DependOn(sc, value);
          DependOn(sc, cond);
          AddDepsTwice(conf, deps, sc, Items(value), Items(cond));
        case Range(low, high, cond) =>
          AddDependent(low, sc);
          AddDependent(high, sc);
          AddDepsTwice(conf, deps, sc, {low}, {high});
          DependOn(sc, cond);
          AddDepsTwice(conf, deps, sc, {low} + {high}, Items(cond));
          assert {low} + {high} == {low, high};
      }
    }

    method DependOnProps(sc: SymId, ps: seq<Prop>)
      requires Shape() && forall k :: 0 <= k < |ps| ==> PropInRange(ps[k])
      modifies syms`dependents
      ensures DepsNow() == AddDeps(conf, old(DepsNow()), sc, PropsItems(ps))
    {
      for k := 0 to |ps|
        invariant DepsNow() == AddDeps(conf, old(DepsNow()), sc, PropsItems(ps[..k]))
      {
        DependOnProp(sc, ps[k]);
        AddDepsTwice(conf, old(DepsNow()), sc, PropsItems(ps[..k]), PropItems(ps[k]));
        PropsItemsSnoc(ps, k);
      }
      assert ps[..|ps|] == ps;
    }

    /** The body of the loop of _build_dep() for one symbol. */
    method BuildDepSym(sc: SymId)
      requires Shape() && sc < |syms|
      modifies syms`dependents
      ensures DepsNow() == AddDeps(conf, old(DepsNow()), sc, Mentions(conf.defs[sc]))
    {
      ghost var deps := DepsNow();
      var d := conf.defs[sc];
      DependOnPrompts(sc, d.prompts);
      DependOnProps(sc, d.defaults);
      ghost var items := ExprsItems(d.prompts) + PropsItems(d.defaults);
      AddDepsTwice(conf, deps, sc, ExprsItems(d.prompts), PropsItems(d.defaults));
      DependOn(sc, d.revDep);
      AddDepsTwice(conf, deps, sc, items, Items(d.revDep));
      DependOn(sc, d.weakRevDep);
      AddDepsTwice(conf, deps, sc, items + Items(d.revDep), Items(d.weakRevDep));
      items := items + Items(d.revDep) + Items(d.weakRevDep);
      DependOnProps(sc, d.ranges);
      AddDepsTwice(conf, deps, sc, items, PropsItems(d.ranges));
      DependOn(sc, d.directDep);
      AddDepsTwice(conf, deps, sc, items + PropsItems(d.ranges), Items(d.directDep));
      assert items + PropsItems(d.ranges) + Items(d.directDep) == Mentions(d);
    }

    /** _build_dep(): afterwards the dependents of a non-constant symbol are exactly the defined symbols with a
        property that mentions it. */
    method BuildDep()
      requires Shape() && forall j :: 0 <= j < |syms| ==> syms[j].dependents == {}
      modifies syms`dependents
      ensures DepsBuilt(conf, DepsNow())
    {
      DepsOfNone(conf, DepsNow());
      for k := 0 to |uniqueDefinedSyms|
        invariant DepsNow() == DepsOf(conf, uniqueDefinedSyms[..k])
      {
        assert uniqueDefinedSyms[k] in uniqueDefinedSyms;
        BuildDepSym(uniqueDefinedSyms[k]);
        DepsOfSnoc(conf, uniqueDefinedSyms, k);
      }
      assert uniqueDefinedSyms[..|uniqueDefinedSyms|] == uniqueDefinedSyms;
      DepsOfAll(conf, uniqueDefinedSyms);
    }

    // ---------------------------------------------------------------- invalidation

    method Invalidate(i: SymId)
      requires Shape() && i < |syms|
      modifies {syms[i]}`cachedVis, {syms[i]}`cachedTri, {syms[i]}`cachedStr
      ensures SlotsNow() == old(SlotsNow())[i := EMPTY]
    {
      syms[i].cachedVis, syms[i].cachedTri, syms[i].cachedStr := None, None, None;
    }

    method InvalidateAll()
      requires Shape()
      modifies syms`cachedVis, syms`cachedTri, syms`cachedStr
      ensures Cleared(conf, old(SlotsNow()), SlotsNow()) && AllEmpty(conf, SlotsNow())
    {
      for k := 0 to |uniqueDefinedSyms|
        invariant Cleared(conf, old(SlotsNow()), SlotsNow())
        invariant forall j :: j in uniqueDefinedSyms[..k] && j < |syms| ==> SlotsNow()[j] == EMPTY
      {
        assert uniqueDefinedSyms[k] in uniqueDefinedSyms;
        Invalidate(uniqueDefinedSyms[k]);
      }
      assert uniqueDefinedSyms[..|uniqueDefinedSyms|] == uniqueDefinedSyms;
    }

    /** _rec_invalidate(): clears the symbol and goes on to those dependents that have something cached, in any
        order. It terminates on every dependents graph, loops or not, as each call leaves fewer symbols with a
        cached visibility. */
    method RecInvalidate(i: SymId, ghost deps: Dependents)
      requires Shape() && DepsBuilt(conf, deps) && DepsNow() == deps && i < |syms| && conf.defs[i].defined
      modifies syms`cachedVis, syms`cachedTri, syms`cachedStr
      ensures Swept(conf, deps, i, old(SlotsNow()), SlotsNow())
      decreases Seen(SlotsNow()) - {i}, 1
    {
      ghost var start := SlotsNow();
      if i == conf.modules {
        InvalidateAll();
        SweptAll(conf, deps, start, SlotsNow());
        return;
      }
      Invalidate(i);
      SweepStart(conf, deps, i, start);
      var rest := syms[i].dependents;
      ghost var done: set<SymId> := {};
      while rest != {}
        invariant deps[i] == done + rest
        invariant Sweeping(conf, deps, i, done, start, SlotsNow())
        decreases rest
      {
        var item :| item in rest;
        VisitDependent(i, item, done, start, deps);
        rest, done := rest - {item}, done + {item};
      }
      SweepEnd(conf, deps, i, start, SlotsNow());
    }

    /** The body of the loop of _rec_invalidate(). */
    method VisitDependent(i: SymId, item: SymId, ghost done: set<SymId>, ghost start: Slots, ghost deps: Dependents)
      requires Shape() && DepsBuilt(conf, deps) && DepsNow() == deps && i < |syms| && i != conf.modules
      requires item in deps[i] && Sweeping(conf, deps, i, done, start, SlotsNow())
      modifies syms`cachedVis, syms`cachedTri, syms`cachedStr
      ensures Sweeping(conf, deps, i, done + {item}, start, SlotsNow())
      decreases Seen(start) - {i}, 0
    {
      assert DependsOn(conf, item, i);
      ghost var before := SlotsNow();
      if syms[item].cachedVis.Some? {
        SeenShrinks(conf, i, item, start, before);
        RecInvalidate(item, deps);
        SweepItem(conf, deps, i, done, item, start, before, SlotsNow());
      }
    }

    // ---------------------------------------------------------------- user values

    /** A symbol that has a prompt is invalidated; user values have no effect on one without. */
    method RecInvalidateIfHasPrompt(i: SymId, ghost deps: Dependents)
      requires Shape() && DepsBuilt(conf, deps) && DepsNow() == deps && i < |syms|
      modifies syms`cachedVis, syms`cachedTri, syms`cachedStr
      ensures if conf.defs[i].prompts == [] then SlotsNow() == old(SlotsNow())
              else Swept(conf, deps, i, old(SlotsNow()), SlotsNow())
    {
      if conf.defs[i].prompts != [] {
        RecInvalidate(i, deps);
      }
    }

    /** Symbol._assignable(), without its cache. */
    method AssignableValues(i: SymId, ghost rank: seq<nat>, ghost env: Env) returns (tris: seq<Tri>)
      requires Ok(rank, env) && i < |syms|
      modifies syms`cachedVis, syms`cachedTri, syms`cachedStr
      ensures Ok(rank, env) && Grow(conf, old(SlotsNow()), SlotsNow())
      ensures tris == Assignable(conf, env, conf.defs[i])
    {
      ghost var top := MaxRank(rank) + 1;
      if !IsBoolTri(conf.defs[i].typ) {
        return [];
      }
      var vis := Visibility(i, top, rank, env);
      if vis == 0 {
        return [];
      }
      var selected := ExprValue(conf.defs[i].revDep, top, rank, env);
      if vis == 2 {
        tris := AssignableAtY(i, selected, top, rank, env);
        return;
      }
      if selected == 0 {
        var implied := ExprValue(conf.defs[i].weakRevDep, top, rank, env);
        return if implied != 2 then [0, 1] else [0, 2];
      }
      return if selected == 2 then [2] else [1];
    }

    method AssignableAtY(i: SymId, selected: Tri, ghost bound: nat, ghost rank: seq<nat>, ghost env: Env)
      returns (tris: seq<Tri>)
      requires Ok(rank, env) && i < |syms| && bound > MaxRank(rank) && IsBoolTri(conf.defs[i].typ)
      requires VisOf(conf, env, conf.defs[i]) == 2 && selected == Mean(conf, env, conf.defs[i].revDep)
      modifies syms`cachedVis, syms`cachedTri, syms`cachedStr
      ensures Ok(rank, env) && Grow(conf, old(SlotsNow()), SlotsNow())
      ensures tris == Assignable(conf, env, conf.defs[i])
    {
      if selected == 2 {
        return [2];
      }
      var noM := PromotesM(i, bound, rank, env);
      if selected == 0 {
        return if noM then [0, 2] else [0, 1, 2];
      }
      return if noM then [2] else [1, 2];
    }

    /** The test for what turns m into y: the type in effect is bool, or there is an `imply` of y. */
    method PromotesM(i: SymId, ghost bound: nat, ghost rank: seq<nat>, ghost env: Env) returns (r: bool)
      requires Ok(rank, env) && i < |syms| && bound > MaxRank(rank)
      modifies syms`cachedVis, syms`cachedTri, syms`cachedStr
      ensures Ok(rank, env) && Grow(conf, old(SlotsNow()), SlotsNow())
      ensures r <==> TypeIn(conf, env, conf.defs[i]) == Bool || Mean(conf, env, conf.defs[i].weakRevDep) == 2
    {
      var ty := TypeValue(i, bound, rank, env);
      r := ty == Bool;
      if !r {
        var implied := ExprValue(conf.defs[i].weakRevDep, bound, rank, env);
        r := implied == 2;
      }
    }

    /** Stores a user value and invalidates what may depend on it. */
    method ChangeUser(i: SymId, value: User, ghost rank: seq<nat>, ghost env: Env, ghost rank': seq<nat>,
        ghost env': Env)
      requires Ok(rank, env) && DepsBuilt(conf, DepsNow()) && i < |syms|
      requires Grounded(conf, UsersNow()[i := value], env', rank')
      modifies syms`userValue, syms`cachedVis, syms`cachedTri, syms`cachedStr
      ensures UsersNow() == old(UsersNow())[i := value] && Ok(rank', env')
    {
      ghost var users, slots, deps := UsersNow(), SlotsNow(), DepsNow();
      syms[i].userValue := value;
      assert SlotsNow() == slots && DepsNow() == deps && UsersNow() == users[i := value];
      RecInvalidateIfHasPrompt(i, deps);
      assert UsersNow() == users[i := value];
      if conf.defs[i].prompts == [] {
        NoPromptKeepsCoherent(conf, users, users[i := value], env, i, slots);
        SolutionUnique(conf, rank', users[i := value], env', env);
      } else {
        SweepKeepsCoherent(conf, rank, deps, users, users[i := value], env, env', i, slots, SlotsNow());
      }
    }

    /** Symbol.set_value(). */
    method SetValue(i: SymId, value: User, ghost rank: seq<nat>, ghost env: Env, ghost rank': seq<nat>, ghost env': Env)
      returns (ok: bool)
      requires Ok(rank, env) && DepsBuilt(conf, DepsNow()) && i < |syms|
      requires Grounded(conf, UsersAfter(conf, UsersNow(), Op.SetValue(i, value)), env', rank')
      modifies syms`userValue, syms`cachedVis, syms`cachedTri, syms`cachedStr
      ensures UsersNow() == UsersAfter(conf, old(UsersNow()), Op.SetValue(i, value)) && Ok(rank', env')
      ensures Accepted(ok) == AnswerFor(conf, old(UsersNow()), env, Op.SetValue(i, value))
    {
      var v := Normalized(conf.defs[i], value);
      if v == syms[i].userValue {
        SolutionUnique(conf, rank, UsersNow(), env, env');
        return true;
      }
      if !ValidFor(conf, conf.defs[i], v) {
        SolutionUnique(conf, rank, UsersNow(), env, env');
        return false;
      }
      ChangeUser(i, v, rank, env, rank', env');
      return true;
    }

    /** Symbol.unset_value(). */
    method UnsetValue(i: SymId, ghost rank: seq<nat>, ghost env: Env, ghost rank': seq<nat>, ghost env': Env)
      requires Ok(rank, env) && DepsBuilt(conf, DepsNow()) && i < |syms|
      requires Grounded(conf, UsersAfter(conf, UsersNow(), Op.UnsetValue(i)), env', rank')
      modifies syms`userValue, syms`cachedVis, syms`cachedTri, syms`cachedStr
      ensures UsersNow() == UsersAfter(conf, old(UsersNow()), Op.UnsetValue(i)) && Ok(rank', env')
    {
      if syms[i].userValue != NoUser {
        ChangeUser(i, NoUser, rank, env, rank', env');
      } else {
        assert UsersNow()[i := NoUser] == UsersNow();
        SolutionUnique(conf, rank, UsersNow(), env, env');
      }
    }

    /** The caches are right for the user values there are, and computing what is not cached goes round in no circle. */
    ghost predicate Settled()
      reads syms
    {
      && Shape() && WellFounded(conf, UsersNow())
      && Ok(RankOf(conf, UsersNow(), Values(conf, UsersNow())), Values(conf, UsersNow()))
    }

    /** One operation of a run: it answers as if everything were computed from scratch. */
    method Perform(op: Op) returns (answer: Answer)
      requires Settled() && DepsBuilt(conf, DepsNow()) && op.sym < |syms|
      requires WellFounded(conf, UsersAfter(conf, UsersNow(), op))
      modifies syms`userValue, syms`cachedVis, syms`cachedTri, syms`cachedStr
      ensures UsersNow() == UsersAfter(conf, old(UsersNow()), op) && Settled()
      ensures answer == LastAnswer(conf, old(UsersNow()), op)
    {
      ghost var users := UsersNow();
      ghost var env, users' := Values(conf, users), UsersAfter(conf, users, op);
      ghost var env' := Values(conf, users');
      ghost var rank, rank' := RankOf(conf, users, env), RankOf(conf, users', env');
      match op {
        case SetValue(i, value) =>
          var ok := SetValue(i, value, rank, env, rank', env');
          answer := Accepted(ok);
        case UnsetValue(i) =>
          UnsetValue(i, rank, env, rank', env');
          answer := Done;
        case ReadTri(i) =>
          var v := TriValue(i, rank, env);
          answer := TriAnswer(v);
          assert UsersNow() == users;
        case ReadStr(i) =>
          var v := StrValue(i, rank, env);
          answer := StrAnswer(v);
          assert UsersNow() == users;
        case ReadVis(i) =>
          var v := Visibility(i, MaxRank(rank) + 1, rank, env);
          answer := TriAnswer(v);
          assert UsersNow() == users;
        case ReadAssignable(i) =>
          var v := AssignableValues(i, rank, env);
          answer := TrisAnswer(v);
          assert UsersNow() == users;
      }
    }

    /** Cache coherence over whole runs: whatever reads and changes of user values are made, in whatever order,
        each is answered as if every value were computed from scratch, and the caches stay right. */
    method Run(ops: seq<Op>) returns (answers: seq<Answer>)
      requires Settled() && DepsBuilt(conf, DepsNow())
      requires OpsInRange(ops, |syms|) && AllWellFounded(conf, UsersNow(), ops)
      modifies syms`userValue, syms`cachedVis, syms`cachedTri, syms`cachedStr
      ensures answers == RunFromScratch(conf, old(UsersNow()), ops)
      ensures UsersNow() == UsersAfterAll(conf, old(UsersNow()), ops) && Settled()
    {
      ghost var users, deps := UsersNow(), DepsNow();
      answers := [];
      for k := 0 to |ops|
        invariant DepsNow() == deps && Settled()
        invariant UsersNow() == UsersAfterAll(conf, users, ops[..k])
        invariant AllWellFounded(conf, users, ops[..k]) && answers == RunFromScratch(conf, users, ops[..k])
      {
        RunSnoc(conf, users, ops, k);
        var answer := Perform(ops[k]);
        answers := answers + [answer];
      }
      assert ops[..|ops|] == ops;
    }
  }
}
