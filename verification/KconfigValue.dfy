/** What the value of a symbol means: each value is a rule over the values of other symbols, and a configuration
    without dependency loops has exactly one solution to all the rules together. */
module KconfigValue {
  import opened KconfigExpr
  import opened KconfigGrammar
  import opened Numbers
  import opened Options

  /** A `default` or a `range` property; both are searched for the first one whose condition is not n. */
  datatype Prop =
    | Default(value: Expr, cond: Expr)
    | Range(low: SymId, high: SymId, cond: Expr)

  /** The properties of a symbol after the menu tree has been finalized. `constTri` is set for n, m and y. */
  datatype SymDef = SymDef(
    name: string, typ: SymType, constTri: Option<Tri>, isConst: bool, defined: bool,
    prompts: seq<Expr>, defaults: seq<Prop>, ranges: seq<Prop>,
    revDep: Expr, weakRevDep: Expr, directDep: Expr)

  /** `parseInt` and `showInt` stand for Python's int(), str() and hex(). */
  datatype Conf = Conf(
    defs: seq<SymDef>, modules: SymId,
    parseInt: (string, int) -> Option<int>, showInt: (SymType, int) -> string)

  datatype User = NoUser | UserTri(tri: Tri) | UserStr(str: string)

  type Users = seq<User>

  // ---------------------------------------------------------------- well-formed configurations

  predicate DefOk(d: SymDef, n: nat) {
    && (forall k :: 0 <= k < |d.prompts| ==> InRange(d.prompts[k], n))
    && (forall k :: 0 <= k < |d.defaults| ==>
          d.defaults[k].Default? && InRange(d.defaults[k].value, n) && InRange(d.defaults[k].cond, n))
    && (forall k :: 0 <= k < |d.ranges| ==>
          d.ranges[k].Range? && d.ranges[k].low < n && d.ranges[k].high < n && InRange(d.ranges[k].cond, n))
    && InRange(d.revDep, n) && InRange(d.weakRevDep, n) && InRange(d.directDep, n)
    && (!IsBoolTri(d.typ) && d.typ != Unknown ==>
          forall k :: 0 <= k < |d.defaults| ==> d.defaults[k].value.Sym?)
    && (d.constTri.Some? ==> d.typ == Tristate && d.isConst)
    && (d.isConst ==> !d.defined)
    && (!d.defined ==> d.prompts == [] && (d.typ == Unknown || d.constTri.Some?))
  }

  /** Constants and undefined symbols have no menu node; only n, m and y have a type among those. */
  ghost predicate ConfOk(c: Conf) {
    && c.modules < |c.defs|
    && forall i :: 0 <= i < |c.defs| ==> DefOk(c.defs[i], |c.defs|) && SelectsOk(c, c.defs[i])
  }

  /** The alternatives of a reverse dependency come from symbols with a menu node, or there is only the constant n,
      which is its own direct dependency. */
  ghost predicate SelectsOk(c: Conf, d: SymDef) {
    && Selects(d.revDep)
    && forall k :: 0 <= k < |Operands(d.revDep, false)| ==> SelectorOk(c, Selector(Operands(d.revDep, false)[k]).id)
  }

  predicate SelectorOk(c: Conf, s: SymId) {
    s < |c.defs| && (c.defs[s].defined || c.defs[s].directDep == Sym(s))
  }

  function Ty(c: Conf): (t: Typing)
    ensures |t.types| == |c.defs| && forall i :: 0 <= i < |c.defs| ==> t.types[i] == c.defs[i].typ
  {
    Typing(seq(|c.defs|, i requires 0 <= i < |c.defs| => c.defs[i].typ), c.parseInt)
  }

  /** A symbol whose value can never change: n, m, y, and every symbol without a type. */
  predicate Fixed(d: SymDef) { d.constTri.Some? || d.typ == Unknown }

  function FixedVal(d: SymDef): Val
    requires Fixed(d)
  {
    if d.constTri.Some? then Val(d.constTri.value, TriStr(d.constTri.value)) else Val(0, d.name)
  }

  // ---------------------------------------------------------------- the rules

  ghost predicate Fits(c: Conf, env: Env) {
    ConfOk(c) && |env| == |c.defs|
  }

  function Mean(c: Conf, env: Env, e: Expr): Tri
    requires |env| == |c.defs| && InRange(e, |env|)
  {
    Meaning(Ty(c), env, e)
  }

  function MeanReads(c: Conf, env: Env, e: Expr): set<SymId>
    requires |env| == |c.defs| && InRange(e, |env|)
  {
    Reads(Ty(c), env, e)
  }

  /** The type in effect: tristate symbols are bool while MODULES is n. */
  ghost function TypeIn(c: Conf, env: Env, d: SymDef): SymType
    requires Fits(c, env)
  {
    if d.typ == Tristate && Mean(c, env, Sym(c.modules)) == 0 then Bool else d.typ
  }

  ghost function TypeReads(c: Conf, d: SymDef): set<SymId>
    requires ConfOk(c)
  {
    if d.typ == Tristate && IsBoolTri(c.defs[c.modules].typ) then {c.modules} else {}
  }

  ghost function PromptMax(c: Conf, env: Env, ps: seq<Expr>): Tri
    requires |env| == |c.defs| && forall k :: 0 <= k < |ps| ==> InRange(ps[k], |env|)
  {
    if ps == [] then 0 else Max(PromptMax(c, env, ps[..|ps| - 1]), Mean(c, env, ps[|ps| - 1]))
  }

  ghost function PromptReads(c: Conf, env: Env, ps: seq<Expr>): set<SymId>
    requires |env| == |c.defs| && forall k :: 0 <= k < |ps| ==> InRange(ps[k], |env|)
  {
    if ps == [] then {} else PromptReads(c, env, ps[..|ps| - 1]) + MeanReads(c, env, ps[|ps| - 1])
  }

  ghost function VisOf(c: Conf, env: Env, d: SymDef): Tri
    requires Fits(c, env) && DefOk(d, |env|)
  {
    var v := PromptMax(c, env, d.prompts);
    if v == 1 && TypeIn(c, env, d) != Tristate then 2 else v
  }

  ghost function VisReads(c: Conf, env: Env, d: SymDef): set<SymId>
    requires Fits(c, env) && DefOk(d, |env|)
  {
    PromptReads(c, env, d.prompts) + (if PromptMax(c, env, d.prompts) == 1 then TypeReads(c, d) else {})
  }

  ghost predicate CondsOk(ps: seq<Prop>, n: nat) {
    forall k :: 0 <= k < |ps| ==> InRange(ps[k].cond, n)
  }

  /** Position of the first property from `k` on whose condition is not n, or |ps|. */
  ghost function Active(c: Conf, env: Env, ps: seq<Prop>, k: nat): (r: nat)
    requires |env| == |c.defs| && k <= |ps| && CondsOk(ps, |env|)
    ensures k <= r <= |ps|
    decreases |ps| - k
  {
    if k == |ps| || Mean(c, env, ps[k].cond) != 0 then k else Active(c, env, ps, k + 1)
  }

  ghost function ActiveReads(c: Conf, env: Env, ps: seq<Prop>, k: nat): set<SymId>
    requires |env| == |c.defs| && k <= |ps| && CondsOk(ps, |env|)
    decreases |ps| - k
  {
    if k == |ps| then {}
    else MeanReads(c, env, ps[k].cond)
         + (if Mean(c, env, ps[k].cond) != 0 then {} else ActiveReads(c, env, ps, k + 1))
  }

  ghost function DefaultTri(c: Conf, env: Env, d: SymDef): Tri
    requires Fits(c, env) && DefOk(d, |env|)
  {
    var k := Active(c, env, d.defaults, 0);
    if k == |d.defaults| then 0 else Min(Mean(c, env, d.defaults[k].value), Mean(c, env, d.defaults[k].cond))
  }

  ghost function DefaultReads(c: Conf, env: Env, d: SymDef): set<SymId>
    requires Fits(c, env) && DefOk(d, |env|)
  {
    var k := Active(c, env, d.defaults, 0);
    ActiveReads(c, env, d.defaults, 0)
    + (if k == |d.defaults| then {} else MeanReads(c, env, d.defaults[k].value))
  }

  /** The user value bounded by the visibility, or else the default raised by an `imply`. */
  ghost function ChosenTri(c: Conf, user: User, env: Env, d: SymDef): Tri
    requires Fits(c, env) && DefOk(d, |env|)
  {
    var vis := VisOf(c, env, d);
    if vis != 0 && user.UserTri? then Min(user.tri, vis)
    else
      var weak := Mean(c, env, d.weakRevDep);
      if weak != 0 && Mean(c, env, d.directDep) != 0 then Max(weak, DefaultTri(c, env, d)) else DefaultTri(c, env, d)
  }

  ghost function ChosenReads(c: Conf, user: User, env: Env, d: SymDef): set<SymId>
    requires Fits(c, env) && DefOk(d, |env|)
  {
    if VisOf(c, env, d) != 0 && user.UserTri? then {}
    else DefaultReads(c, env, d) + MeanReads(c, env, d.weakRevDep)
         + (if Mean(c, env, d.weakRevDep) != 0 then MeanReads(c, env, d.directDep) else {})
  }

  ghost function Promote(c: Conf, env: Env, d: SymDef, v: Tri): Tri
    requires Fits(c, env) && DefOk(d, |env|)
  {
    if v == 1 && (TypeIn(c, env, d) == Bool || Mean(c, env, d.weakRevDep) == 2) then 2 else v
  }

  ghost function PromoteReads(c: Conf, env: Env, d: SymDef, v: Tri): set<SymId>
    requires Fits(c, env) && DefOk(d, |env|)
  {
    if v != 1 then {}
    else TypeReads(c, d) + (if TypeIn(c, env, d) == Bool then {} else MeanReads(c, env, d.weakRevDep))
  }

  /** The chosen value raised by every `select`. */
  ghost function Selected(c: Conf, user: User, env: Env, d: SymDef): Tri
    requires Fits(c, env) && DefOk(d, |env|)
  {
    Max(Mean(c, env, d.revDep), ChosenTri(c, user, env, d))
  }

  ghost function SelectedReads(c: Conf, user: User, env: Env, d: SymDef): set<SymId>
    requires Fits(c, env) && DefOk(d, |env|)
  {
    ChosenReads(c, user, env, d) + MeanReads(c, env, d.revDep)
  }

  /** The value of a bool or tristate symbol: the chosen value raised by every `select`, with m promoted to y for
      bool symbols and under an `imply` of y. */
  ghost function TriOf(c: Conf, user: User, env: Env, d: SymDef): Tri
    requires Fits(c, env) && DefOk(d, |env|)
  {
    Promote(c, env, d, Selected(c, user, env, d))
  }

  ghost function TriReads(c: Conf, user: User, env: Env, d: SymDef): set<SymId>
    requires Fits(c, env) && DefOk(d, |env|)
  {
    VisReads(c, env, d) + SelectedReads(c, user, env, d) + PromoteReads(c, env, d, Selected(c, user, env, d))
  }

  ghost function DefaultStr(c: Conf, env: Env, d: SymDef): string
    requires Fits(c, env) && DefOk(d, |env|) && !IsBoolTri(d.typ) && d.typ != Unknown
  {
    var k := Active(c, env, d.defaults, 0);
    if k == |d.defaults| then "" else env[d.defaults[k].value.id].str
  }

  ghost function DefaultStrReads(c: Conf, env: Env, d: SymDef): set<SymId>
    requires Fits(c, env) && DefOk(d, |env|) && !IsBoolTri(d.typ) && d.typ != Unknown
  {
    var k := Active(c, env, d.defaults, 0);
    ActiveReads(c, env, d.defaults, 0) + (if k == |d.defaults| then {} else {d.defaults[k].value.id})
  }

  ghost function StrOf(c: Conf, user: User, env: Env, d: SymDef): string
    requires Fits(c, env) && DefOk(d, |env|) && d.typ == String
  {
    if VisOf(c, env, d) != 0 && user.UserStr? then user.str else DefaultStr(c, env, d)
  }

  ghost function StrReads(c: Conf, user: User, env: Env, d: SymDef): set<SymId>
    requires Fits(c, env) && DefOk(d, |env|) && d.typ == String
  {
    VisReads(c, env, d) + (if VisOf(c, env, d) != 0 && user.UserStr? then {} else DefaultStrReads(c, env, d))
  }

  /** A string that does not parse counts as 0, as strtoll() has it. */
  function ToInt(c: Conf, s: string, ty: SymType): int {
    match c.parseInt(s, Base(ty))
    case Some(x) => x
    case None => 0
  }

  /** The bounds of the active range, if there is one. */
  ghost function Bounds(c: Conf, env: Env, d: SymDef): Option<(int, int)>
    requires Fits(c, env) && DefOk(d, |env|)
  {
    var k := Active(c, env, d.ranges, 0);
    if k == |d.ranges| then None
    else Some((ToInt(c, env[d.ranges[k].low].str, d.typ), ToInt(c, env[d.ranges[k].high].str, d.typ)))
  }

  ghost function BoundsReads(c: Conf, env: Env, d: SymDef): set<SymId>
    requires Fits(c, env) && DefOk(d, |env|)
  {
    var k := Active(c, env, d.ranges, 0);
    ActiveReads(c, env, d.ranges, 0)
    + (if k == |d.ranges| then {} else {d.ranges[k].low, d.ranges[k].high})
  }

  /** A user value for a number has to be non-empty and lie in the active range. */
  predicate UserInRange(c: Conf, ty: SymType, user: User, range: Option<(int, int)>) {
    user.UserStr? && user.str != [] &&
    match range
    case None => true
    case Some(b) => b.0 <= ToInt(c, user.str, ty) <= b.1
  }

  ghost predicate UserCounts(c: Conf, user: User, env: Env, d: SymDef)
    requires Fits(c, env) && DefOk(d, |env|)
  {
    VisOf(c, env, d) != 0 && UserInRange(c, d.typ, user, Bounds(c, env, d))
  }

  /** The text s, standing for x, or the bound of the range that x is beyond, in standard form. */
  function Clamp(c: Conf, ty: SymType, s: string, x: int, bounds: Option<(int, int)>): string {
    match bounds
    case None => s
    case Some(b) => if x < b.0 then c.showInt(ty, b.0) else if x > b.1 then c.showInt(ty, b.1) else s
  }

  /** Without a default the text is empty and the number is 0, which is clamped all the same. */
  ghost function DefaultNum(c: Conf, env: Env, d: SymDef): string
    requires Fits(c, env) && DefOk(d, |env|) && (d.typ == Int || d.typ == Hex)
  {
    var s := DefaultStr(c, env, d);
    var x := if Active(c, env, d.defaults, 0) < |d.defaults| then ToInt(c, s, d.typ) else 0;
    Clamp(c, d.typ, s, x, Bounds(c, env, d))
  }

  ghost function NumOf(c: Conf, user: User, env: Env, d: SymDef): string
    requires Fits(c, env) && DefOk(d, |env|) && (d.typ == Int || d.typ == Hex)
  {
    if UserCounts(c, user, env, d) then user.str else DefaultNum(c, env, d)
  }

  ghost function NumReads(c: Conf, user: User, env: Env, d: SymDef): set<SymId>
    requires Fits(c, env) && DefOk(d, |env|) && (d.typ == Int || d.typ == Hex)
  {
    VisReads(c, env, d) + BoundsReads(c, env, d)
    + (if UserCounts(c, user, env, d) then {} else DefaultStrReads(c, env, d))
  }

  /** The value a symbol takes when the other symbols have the values in `env`. */
  ghost function ValOf(c: Conf, user: User, env: Env, d: SymDef): Val
    requires Fits(c, env) && DefOk(d, |env|)
  {
    if Fixed(d) then FixedVal(d)
    else if IsBoolTri(d.typ) then var t := TriOf(c, user, env, d); Val(t, TriStr(t))
    else if d.typ == String then Val(0, StrOf(c, user, env, d))
    else Val(0, NumOf(c, user, env, d))
  }

  /** The symbols whose values are looked at on the way to that value. */
  ghost function ValReads(c: Conf, user: User, env: Env, d: SymDef): set<SymId>
    requires Fits(c, env) && DefOk(d, |env|)
  {
    if Fixed(d) then {}
    else if IsBoolTri(d.typ) then TriReads(c, user, env, d)
    else if d.typ == String then StrReads(c, user, env, d)
    else NumReads(c, user, env, d)
  }

  /** The symbols whose values are looked at when a value is computed: those it depends on, and those that are evaluated
      for the warning about a select. */
  ghost function Looks(c: Conf, user: User, env: Env, d: SymDef): (r: set<SymId>)
    requires Fits(c, env) && DefOk(d, |env|) && SelectsOk(c, d)
    ensures ValReads(c, user, env, d) <= r
  {
    ValReads(c, user, env, d) + (if Fixed(d) || !IsBoolTri(d.typ) then {} else WarnReads(c, env, d))
  }

  /** A selected symbol has its direct dependencies evaluated; where the select exceeds them, also every alternative of
      the reverse dependency, without the short cut of ||. */
  ghost function WarnReads(c: Conf, env: Env, d: SymDef): set<SymId>
    requires Fits(c, env) && DefOk(d, |env|) && SelectsOk(c, d)
  {
    if Mean(c, env, d.revDep) == 0 then {}
    else MeanReads(c, env, d.directDep)
         + (if Mean(c, env, d.directDep) < Mean(c, env, d.revDep) then ListReads(c, env, d) else {})
  }

  ghost function ListReads(c: Conf, env: Env, d: SymDef): set<SymId>
    requires Fits(c, env) && DefOk(d, |env|) && SelectsOk(c, d)
  {
    OperandsInRange(d.revDep, false, |env|);
    SelectsReads(c, env, Operands(d.revDep, false), Mean(c, env, d.directDep))
  }

  ghost predicate SelectOk(c: Conf, e: Expr) {
    InRange(e, |c.defs|) && Selector(e).Sym? && SelectorOk(c, Selector(e).id)
  }

  ghost predicate SelectsFit(c: Conf, es: seq<Expr>) {
    forall k :: 0 <= k < |es| ==> SelectOk(c, es[k])
  }

  ghost function SelectsReads(c: Conf, env: Env, es: seq<Expr>, limit: Tri): set<SymId>
    requires Fits(c, env) && SelectsFit(c, es)
  {
    if es == [] then {}
    else SelectsReads(c, env, es[..|es| - 1], limit) + SelectReads(c, env, es[|es| - 1], limit)
  }

  /** An alternative above the limit has the selecting symbol, its direct dependencies and its condition shown. */
  ghost function SelectReads(c: Conf, env: Env, e: Expr, limit: Tri): set<SymId>
    requires Fits(c, env) && SelectOk(c, e)
  {
    MeanReads(c, env, e) + (if Mean(c, env, e) <= limit then {} else ShownReads(c, env, e))
  }

  ghost function ShownReads(c: Conf, env: Env, e: Expr): set<SymId>
    requires Fits(c, env) && SelectOk(c, e)
  {
    {Selector(e).id} + MeanReads(c, env, c.defs[Selector(e).id].directDep)
    + (if e.And? then MeanReads(c, env, e.right) else {})
  }

  /** The selecting symbols that the warning lists. */
  ghost function Listed(c: Conf, env: Env, es: seq<Expr>, limit: Tri): seq<SymId>
    requires Fits(c, env) && SelectsFit(c, es)
  {
    if es == [] then []
    else
      var e := es[|es| - 1];
      assert SelectOk(c, e);
      Listed(c, env, es[..|es| - 1], limit) + (if Mean(c, env, e) <= limit then [] else [Selector(e).id])
  }

  // ---------------------------------------------------------------- reads are covered and sufficient

  ghost function ExprsItems(es: seq<Expr>): set<SymId> {
    set k, s | 0 <= k < |es| && s in Items(es[k]) :: s
  }

  ghost function PropItems(p: Prop): set<SymId> {
    match p
    case Default(v, cond) => Items(v) + Items(cond)
    case Range(lo, hi, cond) => {lo, hi} + Items(cond)
  }

  ghost function PropsItems(ps: seq<Prop>): set<SymId> {
    set k, s | 0 <= k < |ps| && s in PropItems(ps[k]) :: s
  }

  /** Every symbol that occurs in a property of the symbol. */
  ghost function Mentions(d: SymDef): set<SymId> {
    ExprsItems(d.prompts) + PropsItems(d.defaults) + PropsItems(d.ranges)
    + Items(d.revDep) + Items(d.weakRevDep) + Items(d.directDep)
  }

  lemma MeanReadsAreItems(c: Conf, env: Env, e: Expr)
    requires |env| == |c.defs| && InRange(e, |env|)
    ensures MeanReads(c, env, e) <= Items(e)
  {
    ReadsAreItems(Ty(c), env, e);
  }

  lemma {:induction false} PromptReadsAreItems(c: Conf, env: Env, ps: seq<Expr>)
    requires |env| == |c.defs| && forall k :: 0 <= k < |ps| ==> InRange(ps[k], |env|)
    ensures PromptReads(c, env, ps) <= ExprsItems(ps)
  {
    if ps != [] {
      PromptReadsAreItems(c, env, ps[..|ps| - 1]);
      MeanReadsAreItems(c, env, ps[|ps| - 1]);
    }
  }

  lemma {:induction false} PromptIsRead(c: Conf, env: Env, ps: seq<Expr>, k: nat)
    requires |env| == |c.defs| && (forall k :: 0 <= k < |ps| ==> InRange(ps[k], |env|)) && k < |ps|
    ensures MeanReads(c, env, ps[k]) <= PromptReads(c, env, ps)
  {
    if k < |ps| - 1 { PromptIsRead(c, env, ps[..|ps| - 1], k); }
  }

  lemma {:induction false} ActiveReadsAreItems(c: Conf, env: Env, ps: seq<Prop>, k: nat)
    requires |env| == |c.defs| && k <= |ps| && CondsOk(ps, |env|)
    ensures ActiveReads(c, env, ps, k) <= PropsItems(ps)
    decreases |ps| - k
  {
    if k < |ps| {
      MeanReadsAreItems(c, env, ps[k].cond);
      assert Items(ps[k].cond) <= PropItems(ps[k]);
      assert forall s :: s in PropItems(ps[k]) ==> s in PropsItems(ps);
      ActiveReadsAreItems(c, env, ps, k + 1);
    }
  }

  lemma DefaultReadsAreMentions(c: Conf, env: Env, d: SymDef)
    requires Fits(c, env) && DefOk(d, |env|)
    ensures DefaultReads(c, env, d) <= PropsItems(d.defaults)
    ensures !IsBoolTri(d.typ) && d.typ != Unknown ==> DefaultStrReads(c, env, d) <= PropsItems(d.defaults)
  {
    ActiveReadsAreItems(c, env, d.defaults, 0);
    var k := Active(c, env, d.defaults, 0);
    if k < |d.defaults| {
      MeanReadsAreItems(c, env, d.defaults[k].value);
      assert Items(d.defaults[k].value) <= PropItems(d.defaults[k]);
    }
  }

  lemma BoundsReadsAreMentions(c: Conf, env: Env, d: SymDef)
    requires Fits(c, env) && DefOk(d, |env|)
    ensures BoundsReads(c, env, d) <= PropsItems(d.ranges)
  {
    ActiveReadsAreItems(c, env, d.ranges, 0);
    var k := Active(c, env, d.ranges, 0);
    if k < |d.ranges| { assert {d.ranges[k].low, d.ranges[k].high} <= PropItems(d.ranges[k]); }
  }

  lemma VisReadsAreMentions(c: Conf, env: Env, d: SymDef)
    requires Fits(c, env) && DefOk(d, |env|)
    ensures VisReads(c, env, d) <= Mentions(d) + TypeReads(c, d)
  {
    PromptReadsAreItems(c, env, d.prompts);
  }

  lemma ChosenReadsAreMentions(c: Conf, user: User, env: Env, d: SymDef)
    requires Fits(c, env) && DefOk(d, |env|)
    ensures ChosenReads(c, user, env, d)
            <= PropsItems(d.defaults) + Items(d.weakRevDep) + Items(d.directDep)
  {
    DefaultReadsAreMentions(c, env, d);
    MeanReadsAreItems(c, env, d.weakRevDep);
    MeanReadsAreItems(c, env, d.directDep);
  }

  lemma PromoteReadsAreMentions(c: Conf, env: Env, d: SymDef, v: Tri)
    requires Fits(c, env) && DefOk(d, |env|)
    ensures PromoteReads(c, env, d, v) <= Items(d.weakRevDep) + TypeReads(c, d)
  {
    MeanReadsAreItems(c, env, d.weakRevDep);
  }

  lemma TriReadsAreMentions(c: Conf, user: User, env: Env, d: SymDef)
    requires Fits(c, env) && DefOk(d, |env|)
    ensures TriReads(c, user, env, d) <= Mentions(d) + TypeReads(c, d)
  {
    VisReadsAreMentions(c, env, d);
    ChosenReadsAreMentions(c, user, env, d);
    MeanReadsAreItems(c, env, d.revDep);
    PromoteReadsAreMentions(c, env, d, Selected(c, user, env, d));
  }

  /** Everything a value looks at occurs in the symbol's properties, or is MODULES looked at by a tristate symbol. */
  lemma ReadsAreMentions(c: Conf, user: User, env: Env, d: SymDef)
    requires Fits(c, env) && DefOk(d, |env|)
    ensures ValReads(c, user, env, d) <= Mentions(d) + TypeReads(c, d)
  {
    if Fixed(d) {
    } else if IsBoolTri(d.typ) {
      TriReadsAreMentions(c, user, env, d);
    } else {
      VisReadsAreMentions(c, env, d);
      DefaultReadsAreMentions(c, env, d);
      if d.typ != String { BoundsReadsAreMentions(c, env, d); }
    }
  }

  /** x occurs in the direct dependencies of a symbol that selects d. */
  ghost predicate BehindSelect(c: Conf, d: SymDef, x: SymId) {
    exists s :: s in Items(d.revDep) && s < |c.defs| && c.defs[s].defined && x in Items(c.defs[s].directDep)
  }

  lemma {:induction false} SelectIsRead(c: Conf, env: Env, es: seq<Expr>, limit: Tri, k: nat)
    requires Fits(c, env) && SelectsFit(c, es) && k < |es|
    ensures SelectReads(c, env, es[k], limit) <= SelectsReads(c, env, es, limit)
  {
    if k < |es| - 1 { SelectIsRead(c, env, es[..|es| - 1], limit, k); }
  }

  lemma WarnReadsAre(c: Conf, env: Env, d: SymDef)
    requires Fits(c, env) && DefOk(d, |env|) && SelectsOk(c, d)
    requires Mean(c, env, d.directDep) < Mean(c, env, d.revDep)
    ensures SelectsFit(c, Operands(d.revDep, false))
    ensures WarnReads(c, env, d) == MeanReads(c, env, d.directDep)
              + SelectsReads(c, env, Operands(d.revDep, false), Mean(c, env, d.directDep))
  {
    OperandsInRange(d.revDep, false, |env|);
  }

  lemma ShownAreMentions(c: Conf, env: Env, d: SymDef, e: Expr, x: SymId)
    requires Fits(c, env) && SelectOk(c, e) && Items(e) <= Items(d.revDep) && x in ShownReads(c, env, e)
    ensures x in Items(d.revDep) || BehindSelect(c, d, x)
  {
    OperandsAreParts(e, true);
    var s := Selector(e).id;
    assert s in Items(Operands(e, true)[0]);
    MeanReadsAreItems(c, env, c.defs[s].directDep);
    if e.And? { MeanReadsAreItems(c, env, e.right); }
  }

  lemma {:induction false} SelectsReadsAreMentions(c: Conf, env: Env, d: SymDef, es: seq<Expr>, limit: Tri, x: SymId)
    requires Fits(c, env) && forall k :: 0 <= k < |es| ==> SelectOk(c, es[k]) && Items(es[k]) <= Items(d.revDep)
    requires x in SelectsReads(c, env, es, limit)
    ensures x in Items(d.revDep) || BehindSelect(c, d, x)
  {
    var e := es[|es| - 1];
    if x in SelectsReads(c, env, es[..|es| - 1], limit) {
      SelectsReadsAreMentions(c, env, d, es[..|es| - 1], limit, x);
    } else if x in MeanReads(c, env, e) {
      MeanReadsAreItems(c, env, e);
    } else {
      ShownAreMentions(c, env, d, e, x);
    }
  }

  lemma ListReadsAreMentions(c: Conf, env: Env, d: SymDef, x: SymId)
    requires Fits(c, env) && DefOk(d, |env|) && SelectsOk(c, d) && x in ListReads(c, env, d)
    ensures x in Items(d.revDep) || BehindSelect(c, d, x)
  {
    var es := Operands(d.revDep, false);
    OperandsInRange(d.revDep, false, |env|);
    OperandsAreParts(d.revDep, false);
    forall k | 0 <= k < |es| ensures SelectOk(c, es[k]) && Items(es[k]) <= Items(d.revDep) {
    }
    SelectsReadsAreMentions(c, env, d, es, Mean(c, env, d.directDep), x);
  }

  lemma WarnReadsAreMentions(c: Conf, env: Env, d: SymDef, x: SymId)
    requires Fits(c, env) && DefOk(d, |env|) && SelectsOk(c, d) && x in WarnReads(c, env, d)
    ensures x in Items(d.directDep) + Items(d.revDep) || BehindSelect(c, d, x)
  {
    if x in MeanReads(c, env, d.directDep) {
      MeanReadsAreItems(c, env, d.directDep);
    } else {
      ListReadsAreMentions(c, env, d, x);
    }
  }

  /** Everything looked at occurs in the symbol's properties, or in the direct dependencies of a symbol that selects it,
      or is MODULES looked at by a tristate symbol. */
  lemma LooksAreMentions(c: Conf, user: User, env: Env, d: SymDef)
    requires Fits(c, env) && DefOk(d, |env|) && SelectsOk(c, d)
    ensures forall x :: x in Looks(c, user, env, d) ==> x in Mentions(d) + TypeReads(c, d) || BehindSelect(c, d, x)
  {
    ReadsAreMentions(c, user, env, d);
    forall x | x in Looks(c, user, env, d)
      ensures x in Mentions(d) + TypeReads(c, d) || BehindSelect(c, d, x)
    {
      if x !in ValReads(c, user, env, d) { WarnReadsAreMentions(c, env, d, x); }
    }
  }

  lemma MeanAgrees(c: Conf, env: Env, env': Env, e: Expr)
    requires |env| == |env'| == |c.defs| && InRange(e, |env|)
    requires AgreeOn(env, env', MeanReads(c, env, e))
    ensures Mean(c, env, e) == Mean(c, env', e) && MeanReads(c, env, e) == MeanReads(c, env', e)
  {
    ReadsDetermineMeaning(Ty(c), env, env', e);
  }

  lemma {:induction false} PromptsAgree(c: Conf, env: Env, env': Env, ps: seq<Expr>)
    requires |env| == |env'| == |c.defs| && forall k :: 0 <= k < |ps| ==> InRange(ps[k], |env|)
    requires AgreeOn(env, env', PromptReads(c, env, ps))
    ensures PromptMax(c, env, ps) == PromptMax(c, env', ps)
    ensures PromptReads(c, env, ps) == PromptReads(c, env', ps)
  {
    if ps != [] {
      PromptsAgree(c, env, env', ps[..|ps| - 1]);
      MeanAgrees(c, env, env', ps[|ps| - 1]);
    }
  }

  lemma {:induction false} ActiveAgrees(c: Conf, env: Env, env': Env, ps: seq<Prop>, k: nat)
    requires |env| == |env'| == |c.defs| && k <= |ps| && CondsOk(ps, |env|)
    requires AgreeOn(env, env', ActiveReads(c, env, ps, k))
    ensures Active(c, env, ps, k) == Active(c, env', ps, k)
    ensures ActiveReads(c, env, ps, k) == ActiveReads(c, env', ps, k)
    ensures var a := Active(c, env, ps, k); a < |ps| ==> Mean(c, env, ps[a].cond) == Mean(c, env', ps[a].cond)
    decreases |ps| - k
  {
    if k < |ps| {
      MeanAgrees(c, env, env', ps[k].cond);
      if Mean(c, env, ps[k].cond) == 0 { ActiveAgrees(c, env, env', ps, k + 1); }
    }
  }

  lemma VisAgrees(c: Conf, env: Env, env': Env, d: SymDef)
    requires Fits(c, env) && Fits(c, env') && DefOk(d, |env|)
    requires AgreeOn(env, env', VisReads(c, env, d))
    ensures VisOf(c, env, d) == VisOf(c, env', d)
    ensures VisReads(c, env, d) == VisReads(c, env', d)
  {
    PromptsAgree(c, env, env', d.prompts);
  }

  lemma DefaultAgrees(c: Conf, env: Env, env': Env, d: SymDef)
    requires Fits(c, env) && Fits(c, env') && DefOk(d, |env|)
    requires AgreeOn(env, env', DefaultReads(c, env, d))
    ensures DefaultTri(c, env, d) == DefaultTri(c, env', d)
    ensures DefaultReads(c, env, d) == DefaultReads(c, env', d)
  {
    ActiveAgrees(c, env, env', d.defaults, 0);
    var k := Active(c, env, d.defaults, 0);
    if k < |d.defaults| { MeanAgrees(c, env, env', d.defaults[k].value); }
  }

  lemma DefaultStrAgrees(c: Conf, env: Env, env': Env, d: SymDef)
    requires Fits(c, env) && Fits(c, env') && DefOk(d, |env|) && !IsBoolTri(d.typ) && d.typ != Unknown
    requires AgreeOn(env, env', DefaultStrReads(c, env, d))
    ensures Active(c, env, d.defaults, 0) == Active(c, env', d.defaults, 0)
    ensures DefaultStr(c, env, d) == DefaultStr(c, env', d)
    ensures DefaultStrReads(c, env, d) == DefaultStrReads(c, env', d)
  {
    ActiveAgrees(c, env, env', d.defaults, 0);
  }

  lemma BoundsAgree(c: Conf, env: Env, env': Env, d: SymDef)
    requires Fits(c, env) && Fits(c, env') && DefOk(d, |env|)
    requires AgreeOn(env, env', BoundsReads(c, env, d))
    ensures Bounds(c, env, d) == Bounds(c, env', d)
    ensures BoundsReads(c, env, d) == BoundsReads(c, env', d)
  {
    ActiveAgrees(c, env, env', d.ranges, 0);
  }

  lemma ChosenAgrees(c: Conf, user: User, env: Env, env': Env, d: SymDef)
    requires Fits(c, env) && Fits(c, env') && DefOk(d, |env|)
    requires VisOf(c, env, d) == VisOf(c, env', d) && AgreeOn(env, env', ChosenReads(c, user, env, d))
    ensures ChosenTri(c, user, env, d) == ChosenTri(c, user, env', d)
    ensures ChosenReads(c, user, env, d) == ChosenReads(c, user, env', d)
  {
    if !(VisOf(c, env, d) != 0 && user.UserTri?) {
      DefaultAgrees(c, env, env', d);
      MeanAgrees(c, env, env', d.weakRevDep);
      if Mean(c, env, d.weakRevDep) != 0 { MeanAgrees(c, env, env', d.directDep); }
    }
  }

  lemma PromoteAgrees(c: Conf, env: Env, env': Env, d: SymDef, v: Tri)
    requires Fits(c, env) && Fits(c, env') && DefOk(d, |env|)
    requires AgreeOn(env, env', PromoteReads(c, env, d, v))
    ensures Promote(c, env, d, v) == Promote(c, env', d, v)
    ensures PromoteReads(c, env, d, v) == PromoteReads(c, env', d, v)
  {
    if v == 1 && TypeIn(c, env, d) != Bool { MeanAgrees(c, env, env', d.weakRevDep); }
  }

  lemma TriAgrees(c: Conf, user: User, env: Env, env': Env, d: SymDef)
    requires Fits(c, env) && Fits(c, env') && DefOk(d, |env|)
    requires AgreeOn(env, env', TriReads(c, user, env, d))
    ensures TriOf(c, user, env, d) == TriOf(c, user, env', d)
    ensures TriReads(c, user, env, d) == TriReads(c, user, env', d)
  {
    VisAgrees(c, env, env', d);
    ChosenAgrees(c, user, env, env', d);
    MeanAgrees(c, env, env', d.revDep);
    PromoteAgrees(c, env, env', d, Selected(c, user, env, d));
  }

  lemma NumAgrees(c: Conf, user: User, env: Env, env': Env, d: SymDef)
    requires Fits(c, env) && Fits(c, env') && DefOk(d, |env|) && (d.typ == Int || d.typ == Hex)
    requires AgreeOn(env, env', NumReads(c, user, env, d))
    ensures NumOf(c, user, env, d) == NumOf(c, user, env', d)
    ensures NumReads(c, user, env, d) == NumReads(c, user, env', d)
  {
    VisAgrees(c, env, env', d);
    BoundsAgree(c, env, env', d);
    if !UserCounts(c, user, env, d) { DefaultStrAgrees(c, env, env', d); }
  }

  /** The value of a symbol depends on nothing but its user value and the symbols it actually read. */
  lemma ValAgrees(c: Conf, user: User, env: Env, env': Env, d: SymDef)
    requires Fits(c, env) && Fits(c, env') && DefOk(d, |env|)
    requires AgreeOn(env, env', ValReads(c, user, env, d))
    ensures ValOf(c, user, env, d) == ValOf(c, user, env', d)
    ensures ValReads(c, user, env, d) == ValReads(c, user, env', d)
  {
    if Fixed(d) {
    } else if IsBoolTri(d.typ) {
      TriAgrees(c, user, env, env', d);
    } else {
      if d.typ == String {
        VisAgrees(c, env, env', d);
        if !(VisOf(c, env, d) != 0 && user.UserStr?) { DefaultStrAgrees(c, env, env', d); }
      } else {
        NumAgrees(c, user, env, env', d);
      }
    }
  }

  /** User values have no effect on a symbol without a prompt. */
  lemma NoPromptNoUser(c: Conf, user: User, user': User, env: Env, d: SymDef)
    requires Fits(c, env) && DefOk(d, |env|) && d.prompts == []
    ensures ValOf(c, user, env, d) == ValOf(c, user', env, d)
  {
    assert VisOf(c, env, d) == 0;
  }

  // ---------------------------------------------------------------- solutions

  /** All symbols have the value their rule gives them: what evaluating the configuration from scratch means. */
  ghost predicate Solution(c: Conf, users: Users, env: Env) {
    && Fits(c, env) && |users| == |env|
    && forall i :: 0 <= i < |env| ==> Solves(c, users, env, i)
  }

  ghost predicate Solves(c: Conf, users: Users, env: Env, i: nat)
    requires Fits(c, env) && |users| == |env| && i < |env|
  {
    env[i] == ValOf(c, users[i], env, c.defs[i])
  }

  /** The value of symbol i is computed from that of symbol j, as far as the properties tell. */
  ghost predicate Uses(c: Conf, i: SymId, j: SymId)
    requires ConfOk(c) && i < |c.defs|
  {
    c.defs[i].defined && j in Mentions(c.defs[i]) + TypeReads(c, c.defs[i])
  }

  /** `rank` witnesses that there is no loop among what the symbols mention, counting MODULES as mentioned by
      every tristate symbol. */
  ghost predicate Ranked(c: Conf, rank: seq<nat>) {
    && ConfOk(c) && |rank| == |c.defs|
    && (forall i, j :: 0 <= i < |rank| && 0 <= j < |rank| && Uses(c, i, j) ==> rank[j] < rank[i])
  }

  lemma UsesRankLower(c: Conf, rank: seq<nat>, i: nat, used: set<SymId>)
    requires Ranked(c, rank) && i < |rank| && !Fixed(c.defs[i])
    requires used <= Mentions(c.defs[i]) + TypeReads(c, c.defs[i])
    ensures forall j :: j in used && j < |rank| ==> rank[j] < rank[i]
  {
    forall j | j in used && j < |rank| ensures rank[j] < rank[i] { assert Uses(c, i, j); }
  }

  lemma LooksRankLower(c: Conf, rank: seq<nat>, i: nat, used: set<SymId>)
    requires Ranked(c, rank) && i < |rank| && !Fixed(c.defs[i])
    requires forall x :: x in used ==>
      x in Mentions(c.defs[i]) + TypeReads(c, c.defs[i]) || BehindSelect(c, c.defs[i], x)
    ensures Below(rank, used, rank[i])
  {
    forall x | x in used && x < |rank| ensures rank[x] < rank[i] {
      if x in Mentions(c.defs[i]) + TypeReads(c, c.defs[i]) {
        assert Uses(c, i, x);
      } else {
        var s :| s in Items(c.defs[i].revDep) && s < |c.defs| && c.defs[s].defined && x in Items(c.defs[s].directDep);
        assert Uses(c, i, s) && Uses(c, s, x);
      }
    }
  }

  /** Environments that agree below a symbol's rank give it the same value. */
  lemma AgreeBelowAgreeAt(c: Conf, rank: seq<nat>, user: User, p: Env, q: Env, i: nat)
    requires Ranked(c, rank) && |p| == |q| == |rank| && i < |rank|
    requires forall j :: 0 <= j < |rank| && rank[j] < rank[i] ==> p[j] == q[j]
    ensures ValOf(c, user, p, c.defs[i]) == ValOf(c, user, q, c.defs[i])
  {
    if !Fixed(c.defs[i]) {
      ReadsAreMentions(c, user, p, c.defs[i]);
      UsesRankLower(c, rank, i, ValReads(c, user, p, c.defs[i]));
      ValAgrees(c, user, p, q, c.defs[i]);
    }
  }

  /** `env` solves all rules, and `rank` witnesses that computing its values goes round in no circle: every symbol that
      is looked at on the way to the value of symbol i has a lower rank. */
  ghost predicate Grounded(c: Conf, users: Users, env: Env, rank: seq<nat>) {
    && Solution(c, users, env) && |rank| == |env|
    && forall i :: 0 <= i < |rank| ==> GroundedAt(c, users, env, rank, i)
  }

  ghost predicate GroundedAt(c: Conf, users: Users, env: Env, rank: seq<nat>, i: nat)
    requires Fits(c, env) && |users| == |rank| == |env| && i < |rank|
  {
    Below(rank, Looks(c, users[i], env, c.defs[i]), rank[i])
  }

  ghost predicate Below(rank: seq<nat>, ids: set<SymId>, bound: nat) {
    forall s :: s in ids && s < |rank| ==> rank[s] < bound
  }

  lemma {:induction false} SolutionsAgreeAt(c: Conf, rank: seq<nat>, users: Users, e1: Env, e2: Env, i: nat)
    requires Grounded(c, users, e1, rank) && Solution(c, users, e2) && i < |rank|
    ensures e1[i] == e2[i]
    decreases rank[i]
  {
    assert GroundedAt(c, users, e1, rank, i) && Solves(c, users, e1, i) && Solves(c, users, e2, i);
    forall j | j in ValReads(c, users[i], e1, c.defs[i]) && j < |rank| ensures e1[j] == e2[j] {
      SolutionsAgreeAt(c, rank, users, e1, e2, j);
    }
    ValAgrees(c, users[i], e1, e2, c.defs[i]);
  }

  /** Where computing goes round in no circle, there is no other solution. */
  lemma SolutionUnique(c: Conf, rank: seq<nat>, users: Users, e1: Env, e2: Env)
    requires Grounded(c, users, e1, rank) && Solution(c, users, e2)
    ensures e1 == e2
  {
    forall i | 0 <= i < |e1| ensures e1[i] == e2[i] {
      SolutionsAgreeAt(c, rank, users, e1, e2, i);
    }
  }

  ghost predicate HasRank(c: Conf, users: Users, env: Env) {
    exists rank :: Grounded(c, users, env, rank)
  }

  ghost function RankOf(c: Conf, users: Users, env: Env): (rank: seq<nat>)
    requires HasRank(c, users, env)
    ensures Grounded(c, users, env, rank)
  {
    var rank :| Grounded(c, users, env, rank);
    rank
  }

  ghost predicate WellFounded(c: Conf, users: Users) {
    exists env :: HasRank(c, users, env)
  }

  /** The values of a configuration in which computing goes round in no circle. */
  ghost function Values(c: Conf, users: Users): (env: Env)
    requires WellFounded(c, users)
    ensures HasRank(c, users, env)
  {
    var env :| HasRank(c, users, env);
    env
  }

  /** `q` is `p` after one round. */
  ghost predicate NextRound(c: Conf, users: Users, p: Env, q: Env) {
    && Fits(c, p) && Fits(c, q) && |users| == |p|
    && forall i :: 0 <= i < |q| ==> q[i] == ValOf(c, users[i], p, c.defs[i])
  }

  ghost function Round(c: Conf, users: Users, p: Env): (q: Env)
    requires Fits(c, p) && |users| == |p|
    ensures NextRound(c, users, p, q)
  {
    seq(|p|, i requires 0 <= i < |p| => ValOf(c, users[i], p, c.defs[i]))
  }

  ghost predicate AreRounds(c: Conf, users: Users, es: seq<Env>) {
    forall k :: 0 <= k < |es| - 1 ==> NextRound(c, users, es[k], es[k + 1])
  }

  /** Applies every rule at once, over and over, starting from values that are all n and empty. */
  ghost function Rounds(c: Conf, users: Users, rounds: nat): (es: seq<Env>)
    requires ConfOk(c) && |users| == |c.defs|
    ensures |es| == rounds + 1 && AreRounds(c, users, es) && Fits(c, es[rounds]) && |es[rounds]| == |users|
  {
    if rounds == 0 then [seq(|users|, _ => Val(0, ""))]
    else
      var es := Rounds(c, users, rounds - 1);
      es + [Round(c, users, es[rounds - 1])]
  }

  lemma RoundSettles(c: Conf, rank: seq<nat>, users: Users, p: Env, q: Env, r: Env, i: nat)
    requires Ranked(c, rank) && NextRound(c, users, p, q) && NextRound(c, users, q, r) && i < |rank|
    requires forall j :: 0 <= j < |rank| && rank[j] < rank[i] ==> p[j] == q[j]
    ensures q[i] == r[i]
  {
    AgreeBelowAgreeAt(c, rank, users[i], p, q, i);
  }

  lemma {:induction false} RoundsSettle(c: Conf, rank: seq<nat>, users: Users, es: seq<Env>, k: nat)
    requires Ranked(c, rank) && |users| == |rank| && AreRounds(c, users, es) && k + 1 < |es|
    ensures NextRound(c, users, es[k], es[k + 1])
    ensures forall i :: 0 <= i < |rank| && rank[i] < k ==> es[k][i] == es[k + 1][i]
  {
    assert NextRound(c, users, es[k], es[k + 1]);
    if k > 0 {
      RoundsSettle(c, rank, users, es, k - 1);
      assert NextRound(c, users, es[k - 1], es[k]);
      forall i | 0 <= i < |rank| && rank[i] < k ensures es[k][i] == es[k + 1][i] {
        RoundSettles(c, rank, users, es[k - 1], es[k], es[k + 1], i);
      }
    }
  }

  ghost function MaxRank(rank: seq<nat>): (m: nat)
    ensures forall i :: 0 <= i < |rank| ==> rank[i] <= m
  {
    if rank == [] then 0
    else var m := MaxRank(rank[..|rank| - 1]);
         if m < rank[|rank| - 1] then rank[|rank| - 1] else m
  }

  lemma SettledIsSolution(c: Conf, users: Users, p: Env, q: Env)
    requires NextRound(c, users, p, q) && forall i :: 0 <= i < |p| ==> p[i] == q[i]
    ensures Solution(c, users, p)
  {
  }

  /** Without loops among what the symbols mention, applying all rules often enough settles on a solution. */
  ghost function FromScratch(c: Conf, rank: seq<nat>, users: Users): (env: Env)
    requires Ranked(c, rank) && |users| == |rank|
    ensures Solution(c, users, env)
  {
    var k := MaxRank(rank) + 1;
    var es := Rounds(c, users, k + 1);
    RoundsSettle(c, rank, users, es, k);
    assert NextRound(c, users, es[k], es[k + 1]);
    SettledIsSolution(c, users, es[k], es[k + 1]);
    es[k]
  }

  /** What is mentioned covers what is looked at: then computing goes round in no circle, whatever the user values
      are. */
  lemma RankedIsWellFounded(c: Conf, rank: seq<nat>, users: Users)
    requires Ranked(c, rank) && |users| == |rank|
    ensures WellFounded(c, users) && Values(c, users) == FromScratch(c, rank, users)
  {
    var env := FromScratch(c, rank, users);
    forall i | 0 <= i < |rank| ensures GroundedAt(c, users, env, rank, i) {
      if !Fixed(c.defs[i]) {
        LooksAreMentions(c, users[i], env, c.defs[i]);
        LooksRankLower(c, rank, i, Looks(c, users[i], env, c.defs[i]));
      }
    }
    assert Grounded(c, users, env, rank) && HasRank(c, users, env);
    SolutionUnique(c, rank, users, env, Values(c, users));
  }
}
