/** What the values of a configuration obey: laws of every solution, stated on the user value, the visibility and the
    written properties of a symbol, whatever the order in which a value is worked out. */
module KconfigLaws {
  import opened KconfigExpr
  import opened KconfigGrammar
  import opened Options
  import opened KconfigValue
  import opened KconfigCoherence
  import opened KconfigAssignable

  // ---------------------------------------------------------------- the relations the laws are stated with

  predicate IsSmaller(t: Tri, a: Tri, b: Tri) { t <= a && t <= b && (t == a || t == b) }

  predicate IsLarger(t: Tri, a: Tri, b: Tri) { a <= t && b <= t && (t == a || t == b) }

  /** MODULES is not n. */
  ghost predicate ModulesOn(c: Conf, env: Env)
    requires Fits(c, env)
  {
    (c.defs[c.modules].typ == Bool || c.defs[c.modules].typ == Tristate) && env[c.modules].tri > 0
  }

  ghost predicate HasPromptOf(c: Conf, env: Env, d: SymDef, t: Tri)
    requires Fits(c, env) && DefOk(d, |env|)
  {
    exists k :: 0 <= k < |d.prompts| && Mean(c, env, d.prompts[k]) == t
  }

  /** The k-th property is the first one whose condition is not n. */
  ghost predicate First(c: Conf, env: Env, ps: seq<Prop>, k: nat)
    requires Fits(c, env) && CondsOk(ps, |env|)
  {
    && k < |ps| && Mean(c, env, ps[k].cond) > 0
    && forall j :: 0 <= j < k ==> Mean(c, env, ps[j].cond) == 0
  }

  ghost predicate NoneHolds(c: Conf, env: Env, ps: seq<Prop>)
    requires Fits(c, env) && CondsOk(ps, |env|)
  {
    forall j :: 0 <= j < |ps| ==> Mean(c, env, ps[j].cond) == 0
  }

  /** The written default: the first one that holds, bounded by its condition, and n if none does. */
  ghost predicate IsDefault(c: Conf, env: Env, d: SymDef, t: Tri)
    requires Fits(c, env) && DefOk(d, |env|)
  {
    || (NoneHolds(c, env, d.defaults) && t == 0)
    || exists k: nat :: First(c, env, d.defaults, k)
                   && IsSmaller(t, Mean(c, env, d.defaults[k].value), Mean(c, env, d.defaults[k].cond))
  }

  /** The symbol can be y or n only. */
  ghost predicate NeverM(c: Conf, env: Env, d: SymDef)
    requires Fits(c, env) && DefOk(d, |env|)
  {
    d.typ == Bool || !ModulesOn(c, env) || Mean(c, env, d.weakRevDep) == 2
  }

  /** A bool or tristate symbol of a solution that is not a constant. */
  ghost predicate TriAt(c: Conf, users: Users, env: Env, i: SymId) {
    && Solution(c, users, env) && i < |env| && c.defs[i].constTri.None?
    && (c.defs[i].typ == Bool || c.defs[i].typ == Tristate)
  }

  lemma {:induction false} ActiveIsFirst(c: Conf, env: Env, ps: seq<Prop>, k: nat)
    requires Fits(c, env) && CondsOk(ps, |env|) && k <= |ps|
    requires forall j :: 0 <= j < k ==> Mean(c, env, ps[j].cond) == 0
    ensures var a := Active(c, env, ps, k); if a == |ps| then NoneHolds(c, env, ps) else First(c, env, ps, a)
    decreases |ps| - k
  {
    if k < |ps| && Mean(c, env, ps[k].cond) == 0 { ActiveIsFirst(c, env, ps, k + 1); }
  }

  /** There is no more than one first. */
  lemma FirstIsActive(c: Conf, env: Env, ps: seq<Prop>, k: nat)
    requires Fits(c, env) && CondsOk(ps, |env|)
    ensures First(c, env, ps, k) ==> Active(c, env, ps, 0) == k
    ensures NoneHolds(c, env, ps) ==> Active(c, env, ps, 0) == |ps|
  {
    ActiveIsFirst(c, env, ps, 0);
    var a := Active(c, env, ps, 0);
  }

  // ---------------------------------------------------------------- visibility

  lemma {:induction false} PromptsBound(c: Conf, env: Env, ps: seq<Expr>)
    requires |env| == |c.defs| && forall k :: 0 <= k < |ps| ==> InRange(ps[k], |env|)
    ensures forall k :: 0 <= k < |ps| ==> Mean(c, env, ps[k]) <= PromptMax(c, env, ps)
    ensures PromptMax(c, env, ps) == 0
            || exists k :: 0 <= k < |ps| && Mean(c, env, ps[k]) == PromptMax(c, env, ps)
  {
    if ps != [] {
      var last := |ps| - 1;
      PromptsBound(c, env, ps[..last]);
      if PromptMax(c, env, ps) != Mean(c, env, ps[last]) && PromptMax(c, env, ps) != 0 {
        var k :| 0 <= k < last && Mean(c, env, ps[..last][k]) == PromptMax(c, env, ps[..last]);
        assert Mean(c, env, ps[k]) == PromptMax(c, env, ps);
      }
    }
  }

  /** A symbol is hidden exactly when all its prompts are, and visible as y exactly when a prompt is, or when a prompt
      is visible as m and the symbol cannot be m: it is not tristate, or MODULES is n. */
  lemma {:induction false} VisibilityIs(c: Conf, env: Env, d: SymDef)
    requires Fits(c, env) && DefOk(d, |env|)
    ensures VisOf(c, env, d) == 0 <==> !HasPromptOf(c, env, d, 1) && !HasPromptOf(c, env, d, 2)
    ensures VisOf(c, env, d) == 2 <==>
            || HasPromptOf(c, env, d, 2)
            || (HasPromptOf(c, env, d, 1) && !(d.typ == Tristate && ModulesOn(c, env)))
  {
    PromptsBound(c, env, d.prompts);
  }

  // ---------------------------------------------------------------- bool and tristate symbols

  /** Neither a select nor the type can be overruled. */
  lemma SelectsAndTypes(c: Conf, users: Users, env: Env, i: SymId)
    requires TriAt(c, users, env, i)
    ensures env[i].tri >= Mean(c, env, c.defs[i].revDep)
    ensures NeverM(c, env, c.defs[i]) ==> env[i].tri != 1
    ensures env[i].str == if env[i].tri == 0 then "n" else if env[i].tri == 1 then "m" else "y"
  {
    assert Solves(c, users, env, i);
  }

  /** What a value t chosen by the user or by the defaults comes to: the larger of it and the selects, or y in place
      of m where the symbol cannot be m. */
  ghost predicate ComesTo(c: Conf, env: Env, d: SymDef, t: Tri, v: Tri)
    requires Fits(c, env) && DefOk(d, |env|)
  {
    if NeverM(c, env, d) then (v == 0 || v == 2) && (v == 0 <==> t == 0 && Mean(c, env, d.revDep) == 0)
    else IsLarger(v, t, Mean(c, env, d.revDep))
  }

  /** The user value of a visible symbol counts as far as the symbol is visible, and nothing but selects raise it: no
      default and no `imply`. */
  lemma UserValueIsBounded(c: Conf, users: Users, env: Env, i: SymId, u: Tri, t: Tri)
    requires TriAt(c, users, env, i) && users[i] == UserTri(u)
    requires VisOf(c, env, c.defs[i]) > 0 && IsSmaller(t, u, VisOf(c, env, c.defs[i]))
    ensures ComesTo(c, env, c.defs[i], t, env[i].tri)
  {
    assert Solves(c, users, env, i);
  }

  /** Without a user value, or for a symbol nobody can see, the first default that holds counts as far as its condition
      does, and an `imply` raises it exactly while the direct dependencies are not n. */
  lemma DefaultsAndImplies(c: Conf, users: Users, env: Env, i: SymId, t: Tri, t': Tri)
    requires TriAt(c, users, env, i) && (VisOf(c, env, c.defs[i]) == 0 || !users[i].UserTri?)
    requires IsDefault(c, env, c.defs[i], t)
    requires if Mean(c, env, c.defs[i].directDep) == 0 then t' == t
             else IsLarger(t', t, Mean(c, env, c.defs[i].weakRevDep))
    ensures ComesTo(c, env, c.defs[i], t', env[i].tri)
  {
    var d := c.defs[i];
    assert Solves(c, users, env, i);
    DefaultIsTheOne(c, env, d, t);
  }

  lemma DefaultIsTheOne(c: Conf, env: Env, d: SymDef, t: Tri)
    requires Fits(c, env) && DefOk(d, |env|)
    ensures IsDefault(c, env, d, t) <==> t == DefaultTri(c, env, d)
  {
    ActiveIsFirst(c, env, d.defaults, 0);
    forall k: nat | First(c, env, d.defaults, k) ensures k == Active(c, env, d.defaults, 0) {
      FirstIsActive(c, env, d.defaults, k);
    }
    FirstIsActive(c, env, d.defaults, 0);
  }

  /** The warning names exactly the symbols with a select that is above the limit. */
  lemma {:induction false} ListedAreAbove(c: Conf, env: Env, es: seq<Expr>, limit: Tri, s: SymId)
    requires Fits(c, env) && SelectsFit(c, es)
    ensures s in Listed(c, env, es, limit) <==> exists k :: 0 <= k < |es| && SelectsAbove(c, env, es[k], limit, s)
  {
    if es != [] {
      var last := |es| - 1;
      assert SelectOk(c, es[last]);
      ListedAreAbove(c, env, es[..last], limit, s);
      LastOrBefore(c, env, es, es[..last], limit, s);
      assert Selector(es[last]) == Sym(Selector(es[last]).id);
    }
  }

  lemma LastOrBefore(c: Conf, env: Env, es: seq<Expr>, before: seq<Expr>, limit: Tri, s: SymId)
    requires Fits(c, env) && es != [] && before == es[..|es| - 1]
    ensures (exists k :: 0 <= k < |es| && SelectsAbove(c, env, es[k], limit, s)) <==>
            || (exists k :: 0 <= k < |before| && SelectsAbove(c, env, before[k], limit, s))
            || SelectsAbove(c, env, es[|es| - 1], limit, s)
  {
    forall k | 0 <= k < |before| && SelectsAbove(c, env, before[k], limit, s)
      ensures SelectsAbove(c, env, es[k], limit, s)
    {
    }
  }

  /** A select by symbol s that is worth more than the limit. */
  ghost predicate SelectsAbove(c: Conf, env: Env, e: Expr, limit: Tri, s: SymId)
    requires Fits(c, env)
  {
    InRange(e, |env|) && Mean(c, env, e) > limit && Selector(e) == Sym(s)
  }

  // ---------------------------------------------------------------- strings and numbers

  /** A visible string symbol with a user value has that; any other has the text of the first default that holds. */
  lemma StringIs(c: Conf, users: Users, env: Env, i: SymId)
    requires Solution(c, users, env) && i < |env| && c.defs[i].typ == String
    ensures VisOf(c, env, c.defs[i]) > 0 && users[i].UserStr? ==> env[i].str == users[i].str
    ensures VisOf(c, env, c.defs[i]) == 0 || !users[i].UserStr? ==>
            && (forall k: nat :: First(c, env, c.defs[i].defaults, k) ==>
                  env[i].str == env[c.defs[i].defaults[k].value.id].str)
            && (NoneHolds(c, env, c.defs[i].defaults) ==> env[i].str == "")
  {
    assert Solves(c, users, env, i);
    forall k: nat | First(c, env, c.defs[i].defaults, k) ensures k == Active(c, env, c.defs[i].defaults, 0) {
      FirstIsActive(c, env, c.defs[i].defaults, k);
    }
    FirstIsActive(c, env, c.defs[i].defaults, 0);
  }

  /** The number x that a text stands for: 0 for a text that is no number. */
  predicate StandsFor(c: Conf, typ: SymType, s: string, x: int) {
    var p := c.parseInt(s, if typ == Hex then 16 else 10);
    p == Some(x) || (p == None && x == 0)
  }

  /** Writing a number and reading it again gives the number, and an empty text is no number. */
  predicate ReadsBack(c: Conf, typ: SymType, x: int) {
    var base := if typ == Hex then 16 else 10;
    c.parseInt("", base) == None && c.parseInt(c.showInt(typ, x), base) == Some(x)
  }

  /** The range in force runs from lo to hi. */
  ghost predicate RangeIs(c: Conf, env: Env, d: SymDef, lo: int, hi: int)
    requires Fits(c, env) && DefOk(d, |env|)
  {
    exists k: nat :: First(c, env, d.ranges, k) && StandsFor(c, d.typ, env[d.ranges[k].low].str, lo)
                && StandsFor(c, d.typ, env[d.ranges[k].high].str, hi)
  }

  lemma BoundsAreRange(c: Conf, env: Env, d: SymDef, lo: int, hi: int)
    requires Fits(c, env) && DefOk(d, |env|) && (d.typ == Int || d.typ == Hex)
    ensures RangeIs(c, env, d, lo, hi) ==> Bounds(c, env, d) == Some((lo, hi))
    ensures NoneHolds(c, env, d.ranges) ==> Bounds(c, env, d) == None
  {
    forall k: nat | First(c, env, d.ranges, k) ensures k == Active(c, env, d.ranges, 0) {
      FirstIsActive(c, env, d.ranges, k);
    }
    FirstIsActive(c, env, d.ranges, 0);
  }

  /** An int or hex symbol of a solution. */
  ghost predicate NumAt(c: Conf, users: Users, env: Env, i: SymId) {
    Solution(c, users, env) && i < |env| && (c.defs[i].typ == Int || c.defs[i].typ == Hex)
  }

  /** Whatever the user value and the defaults are, the value of a number lies in the range in force, if any number
      does. */
  lemma NumberIsInRange(c: Conf, users: Users, env: Env, i: SymId, lo: int, hi: int, x: int)
    requires NumAt(c, users, env, i) && RangeIs(c, env, c.defs[i], lo, hi)
    requires ReadsBack(c, c.defs[i].typ, lo) && ReadsBack(c, c.defs[i].typ, hi)
    requires StandsFor(c, c.defs[i].typ, env[i].str, x)
    ensures lo <= x <= hi <==> lo <= hi
  {
    assert Solves(c, users, env, i);
    BoundsAreRange(c, env, c.defs[i], lo, hi);
  }

  /** A user value in range, of a visible symbol, is kept to the letter. */
  lemma UserNumberIsKept(c: Conf, users: Users, env: Env, i: SymId, lo: int, hi: int, u: int)
    requires NumAt(c, users, env, i) && RangeIs(c, env, c.defs[i], lo, hi)
    requires UsableNumber(c, users[i], env, c.defs[i], lo, hi, u)
    ensures env[i].str == users[i].str
  {
    assert Solves(c, users, env, i);
    BoundsAreRange(c, env, c.defs[i], lo, hi);
  }

  ghost predicate UsableNumber(c: Conf, user: User, env: Env, d: SymDef, lo: int, hi: int, u: int)
    requires Fits(c, env) && DefOk(d, |env|)
  {
    VisOf(c, env, d) > 0 && user.UserStr? && user.str != "" && StandsFor(c, d.typ, user.str, u) && lo <= u <= hi
  }

  /** Without one, the first default that holds is kept to the letter if it is in range; one that is not becomes the
      nearest bound. */
  lemma DefaultNumberIsClamped(c: Conf, users: Users, env: Env, i: SymId, lo: int, hi: int, k: nat, t: int)
    requires NumAt(c, users, env, i) && RangeIs(c, env, c.defs[i], lo, hi)
    requires forall u :: !UsableNumber(c, users[i], env, c.defs[i], lo, hi, u)
    requires First(c, env, c.defs[i].defaults, k)
    requires StandsFor(c, c.defs[i].typ, env[c.defs[i].defaults[k].value.id].str, t)
    ensures env[i].str == if t < lo then c.showInt(c.defs[i].typ, lo)
                          else if t > hi then c.showInt(c.defs[i].typ, hi)
                          else env[c.defs[i].defaults[k].value.id].str
  {
    assert Solves(c, users, env, i);
    BoundsAreRange(c, env, c.defs[i], lo, hi);
    FirstIsActive(c, env, c.defs[i].defaults, k);
    if users[i].UserStr? {
      var u := ToInt(c, users[i].str, c.defs[i].typ);
      assert !UsableNumber(c, users[i], env, c.defs[i], lo, hi, u);
    }
  }

  /** Without a default either there is no text, unless 0 is out of range. */
  lemma MissingNumberIsClamped(c: Conf, users: Users, env: Env, i: SymId, lo: int, hi: int)
    requires NumAt(c, users, env, i) && RangeIs(c, env, c.defs[i], lo, hi)
    requires VisOf(c, env, c.defs[i]) == 0 || users[i] == NoUser
    requires NoneHolds(c, env, c.defs[i].defaults)
    ensures env[i].str == if 0 < lo then c.showInt(c.defs[i].typ, lo)
                          else if 0 > hi then c.showInt(c.defs[i].typ, hi)
                          else ""
  {
    assert Solves(c, users, env, i);
    BoundsAreRange(c, env, c.defs[i], lo, hi);
    FirstIsActive(c, env, c.defs[i].defaults, 0);
  }

  /** Where no range is in force, every non-empty user value of a visible symbol is kept, and every default. */
  lemma NumberIsFree(c: Conf, users: Users, env: Env, i: SymId)
    requires NumAt(c, users, env, i) && NoneHolds(c, env, c.defs[i].ranges)
    ensures var usable := VisOf(c, env, c.defs[i]) > 0 && users[i].UserStr? && users[i].str != "";
            && (usable ==> env[i].str == users[i].str)
            && (!usable ==>
                  && (forall k: nat :: First(c, env, c.defs[i].defaults, k) ==>
                        env[i].str == env[c.defs[i].defaults[k].value.id].str)
                  && (NoneHolds(c, env, c.defs[i].defaults) ==> env[i].str == ""))
  {
    assert Solves(c, users, env, i);
    BoundsAreRange(c, env, c.defs[i], 0, 0);
    forall k: nat | First(c, env, c.defs[i].defaults, k) ensures k == Active(c, env, c.defs[i].defaults, 0) {
      FirstIsActive(c, env, c.defs[i].defaults, k);
    }
    FirstIsActive(c, env, c.defs[i].defaults, 0);
  }

  // ---------------------------------------------------------------- relations

  /** x stands in the relation to y. */
  predicate Related(rel: Relation, x: int, y: int) {
    match rel
    case Equal => x == y
    case Unequal => x < y || y < x
    case Less => x < y
    case LessEqual => x < y || x == y
    case Greater => y < x
    case GreaterEqual => y < x || x == y
  }

  /** The number a symbol counts as in a relation, if it has one. */
  predicate CountsAs(c: Conf, env: Env, s: SymId, x: int)
    requires |env| == |c.defs| && s < |env|
  {
    match c.defs[s].typ
    case Bool => x == env[s].tri
    case Tristate => x == env[s].tri
    case Int => c.parseInt(env[s].str, 10) == Some(x)
    case Hex => c.parseInt(env[s].str, 16) == Some(x)
    case _ => c.parseInt(env[s].str, 0) == Some(x)
  }

  /** b comes after a in the dictionary, the first difference being at k. */
  predicate Before(a: string, b: string, k: nat) {
    k <= |a| && k < |b| && a[..k] == b[..k] && (k == |a| || a[k] < b[k])
  }

  lemma {:induction false} StrCmpIsLexicographic(a: string, b: string)
    ensures StrCmp(a, b) == 0 <==> a == b
    ensures StrCmp(a, b) < 0 <==> exists k: nat :: Before(a, b, k)
    ensures StrCmp(a, b) > 0 <==> exists k: nat :: Before(b, a, k)
  {
    if a != [] && b != [] && a[0] == b[0] {
      StrCmpIsLexicographic(a[1..], b[1..]);
      assert a == [a[0]] + a[1..] && b == [b[0]] + b[1..];
      BeforeTails(a, b);
      BeforeTails(b, a);
    } else {
      assert a != [] || b != [] ==> Before(a, b, 0) || Before(b, a, 0);
      forall k: nat | Before(a, b, k) ensures k == 0 { BeforeLater(a, b, k); }
      forall k: nat | Before(b, a, k) ensures k == 0 { BeforeLater(b, a, k); }
    }
  }

  lemma BeforeLater(a: string, b: string, k: nat)
    requires Before(a, b, k)
    ensures k == 0 || (a != [] && b != [] && a[0] == b[0])
  {
    if k > 0 { assert a[..k][0] == b[..k][0]; }
  }

  lemma BeforeTails(a: string, b: string)
    requires a != [] && b != [] && a[0] == b[0]
    ensures (exists k: nat :: Before(a, b, k)) <==> (exists k: nat :: Before(a[1..], b[1..], k))
  {
    if k: nat :| Before(a, b, k) {
      assert k > 0 && a[1..][..k - 1] == a[..k][1..] && b[1..][..k - 1] == b[..k][1..];
      assert Before(a[1..], b[1..], k - 1);
    }
    if k: nat :| Before(a[1..], b[1..], k) {
      assert a[..k + 1] == [a[0]] + a[1..][..k] && b[..k + 1] == [b[0]] + b[1..][..k];
      assert Before(a, b, k + 1);
    }
  }

  /** Numbers and tristates are compared by size, texts in the order of the dictionary: two string symbols, and whatever
      does not count as a number on one side. */
  lemma RelationsMean(c: Conf, env: Env, rel: Relation, a: SymId, b: SymId)
    requires |env| == |c.defs| && a < |env| && b < |env|
    ensures Mean(c, env, Rel(rel, a, b)) == 0 || Mean(c, env, Rel(rel, a, b)) == 2
    ensures !(c.defs[a].typ == String && c.defs[b].typ == String) ==>
            forall x, y :: CountsAs(c, env, a, x) && CountsAs(c, env, b, y) ==>
              (Mean(c, env, Rel(rel, a, b)) == 2 <==> Related(rel, x, y))
    ensures (c.defs[a].typ == String && c.defs[b].typ == String)
            || (forall x :: !CountsAs(c, env, a, x)) || (forall y :: !CountsAs(c, env, b, y)) ==>
            (Mean(c, env, Rel(rel, a, b)) == 2 <==>
              match rel
              case Equal => env[a].str == env[b].str
              case Unequal => env[a].str != env[b].str
              case Less => exists k: nat :: Before(env[a].str, env[b].str, k)
              case LessEqual => !exists k: nat :: Before(env[b].str, env[a].str, k)
              case Greater => exists k: nat :: Before(env[b].str, env[a].str, k)
              case GreaterEqual => !exists k: nat :: Before(env[a].str, env[b].str, k))
  {
    StrCmpIsLexicographic(env[a].str, env[b].str);
    var na := Num(c.defs[a].typ, c.parseInt, env[a]);
    var nb := Num(c.defs[b].typ, c.parseInt, env[b]);
    assert forall x :: CountsAs(c, env, a, x) <==> na == Some(x);
    assert forall x :: CountsAs(c, env, b, x) <==> nb == Some(x);
    assert na.Some? ==> CountsAs(c, env, a, na.value);
    assert nb.Some? ==> CountsAs(c, env, b, nb.value);
  }

  // ---------------------------------------------------------------- setting values

  /** The user values a symbol of each type can have. */
  predicate RightFor(c: Conf, d: SymDef, u: User) {
    match u
    case NoUser => true
    case UserTri(t) => d.typ == Tristate || (d.typ == Bool && t != 1)
    case UserStr(s) =>
      match d.typ
      case String => true
      case Int => c.parseInt(s, 10) != None
      case Hex => (match c.parseInt(s, 16) case Some(x) => x >= 0 case None => false)
      case _ => false
  }

  predicate AllRight(c: Conf, users: Users) {
    |users| == |c.defs| && forall i :: 0 <= i < |users| ==> RightFor(c, c.defs[i], users[i])
  }

  /** What is given stands for the user value u: a tristate may be given by its letter. */
  predicate GivenFor(d: SymDef, given: User, u: User) {
    if (d.typ == Bool || d.typ == Tristate) && given == UserStr("n") then u == UserTri(0)
    else if (d.typ == Bool || d.typ == Tristate) && given == UserStr("m") then u == UserTri(1)
    else if (d.typ == Bool || d.typ == Tristate) && given == UserStr("y") then u == UserTri(2)
    else u == given
  }

  /** set_value() takes exactly the values that are right for the type; anything else it refuses without a change. */
  lemma SettingTakesRightValues(c: Conf, users: Users, env: Env, i: SymId, given: User, u: User)
    requires Fits(c, env) && AllRight(c, users) && i < |users| && given != NoUser && GivenFor(c.defs[i], given, u)
    ensures AnswerFor(c, users, env, SetValue(i, given)) == Accepted(RightFor(c, c.defs[i], u))
    ensures UsersAfter(c, users, SetValue(i, given)) == if RightFor(c, c.defs[i], u) then users[i := u] else users
  {
    assert RightFor(c, c.defs[i], users[i]);
    assert u == users[i] ==> users[i := u] == users;
    var v := Normalized(c.defs[i], given);
    assert u == v;
    RightIsValid(c, c.defs[i], u);
  }

  lemma RightIsValid(c: Conf, d: SymDef, u: User)
    requires u != NoUser
    ensures RightFor(c, d, u) <==> ValidFor(c, d, u)
  {
  }

  /** No run leaves a user value that is wrong for its type. */
  lemma {:induction false} RunsKeepRight(c: Conf, users: Users, ops: seq<Op>)
    requires AllRight(c, users) && OpsInRange(ops, |users|)
    requires forall k :: 0 <= k < |ops| && ops[k].SetValue? ==> ops[k].value != NoUser
    ensures AllRight(c, UsersAfterAll(c, users, ops))
    decreases |ops|
  {
    if ops != [] {
      var before, op := ops[..|ops| - 1], ops[|ops| - 1];
      RunsKeepRight(c, users, before);
      if op.SetValue? { RightIsValid(c, c.defs[op.sym], Normalized(c.defs[op.sym], op.value)); }
    }
  }

  // ---------------------------------------------------------------- what is offered is what can be set

  /** Symbol.assignable keeps its promise except in one branch: setting a visible bool or tristate symbol to u gives it
      the value u exactly when u is offered. Where m alone is offered in spite of an `imply` of y, setting m gives y. A
      symbol nobody can see is offered nothing, and setting it changes no value at all. */
  lemma {:induction false} OfferedCanBeSet(
    c: Conf, rank: seq<nat>, users: Users, users': Users, env: Env, env': Env, i: SymId, u: Tri)
    requires Ranked(c, rank) && |users| == |rank| && Solution(c, users, env)
    requires i < |users| && TriAt(c, users, env, i) && users' == UsersAfter(c, users, SetValue(i, UserTri(u)))
    requires Solution(c, users', env')
    ensures VisOf(c, env, c.defs[i]) == 0 ==> Assignable(c, env, c.defs[i]) == [] && env' == env
    ensures VisOf(c, env, c.defs[i]) > 0 && !LockedToM(c, env, c.defs[i]) ==>
            (env'[i].tri == u <==> u in Assignable(c, env, c.defs[i]))
    ensures LockedToM(c, env, c.defs[i]) ==> Assignable(c, env, c.defs[i]) == [1] && env'[i].tri == 2
  {
    assert DifferAt(c, rank, users, users', env, env', i);
    OfferUnchanged(c, rank, users, users', env, env', i);
    if VisOf(c, env, c.defs[i]) == 0 {
      UnseenHasNoEffect(c, rank, users, users', env, env', i);
    } else if users'[i] == UserTri(u) {
      OfferedIsTaken(c, users', env', i, u);
    } else {
      assert c.defs[i].typ == Bool && u == 1;
      assert Solves(c, users', env', i);
    }
  }
}
