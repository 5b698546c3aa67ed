/** Expressions over Kconfig symbols, and the rule that gives them a tristate value. */
module KconfigExpr {
  import opened Numbers
  import opened Options

  /** n, m and y, ordered as kconfiglib orders them. */
  type Tri = t: int | 0 <= t <= 2

  datatype SymType = Unknown | Bool | Tristate | String | Int | Hex

  datatype Relation = Equal | Unequal | Less | LessEqual | Greater | GreaterEqual

  /** Symbols are named by their position in the symbol table. Operands of a relation are always symbols. */
  type SymId = nat

  datatype Expr =
    | Sym(id: SymId)
    | And(left: Expr, right: Expr)
    | Or(left: Expr, right: Expr)
    | Not(operand: Expr)
    | Rel(rel: Relation, lhs: SymId, rhs: SymId)

  /** The value of one symbol: a tristate and a string reading of it. */
  datatype Val = Val(tri: Tri, str: string)

  type Env = seq<Val>

  /** What an expression needs to know about the symbols besides their values: the declared types, and how
      Python's int() reads a string in a base (0 means that the base is taken from the string). */
  datatype Typing = Typing(types: seq<SymType>, parseInt: (string, int) -> Option<int>)

  function TriStr(t: Tri): string {
    if t == 0 then "n" else if t == 1 then "m" else "y"
  }

  predicate IsBoolTri(t: SymType) { t == Bool || t == Tristate }

  function Base(t: SymType): int {
    if t == Hex then 16 else if t == Int then 10 else 0
  }

  /** All symbols that occur in the expression. */
  function Items(e: Expr): set<SymId> {
    match e
    case Sym(s) => {s}
    case And(l, r) => Items(l) + Items(r)
    case Or(l, r) => Items(l) + Items(r)
    case Not(x) => Items(x)
    case Rel(_, a, b) => {a, b}
  }

  predicate InRange(e: Expr, n: nat) {
    match e
    case Sym(s) => s < n
    case And(l, r) => InRange(l, n) && InRange(r, n)
    case Or(l, r) => InRange(l, n) && InRange(r, n)
    case Not(x) => InRange(x, n)
    case Rel(_, a, b) => a < n && b < n
  }

  /** strcmp() on character codes. */
  function StrCmp(a: string, b: string): int {
    if a == [] then (if b == [] then 0 else -1)
    else if b == [] then 1
    else if a[0] < b[0] then -1
    else if b[0] < a[0] then 1
    else StrCmp(a[1..], b[1..])
  }

  function Num(ty: SymType, parseInt: (string, int) -> Option<int>, v: Val): Option<int> {
    if IsBoolTri(ty) then Some(v.tri) else parseInt(v.str, Base(ty))
  }

  function Holds(rel: Relation, comp: int): bool {
    match rel
    case Equal => comp == 0
    case Unequal => comp != 0
    case Less => comp < 0
    case LessEqual => comp <= 0
    case Greater => comp > 0
    case GreaterEqual => comp >= 0
  }

  /** Strings are compared as strings; anything else as numbers where both sides are numbers. */
  function Compare(parseInt: (string, int) -> Option<int>, ta: SymType, va: Val, tb: SymType, vb: Val): int {
    if ta == String && tb == String then StrCmp(va.str, vb.str)
    else
      match (Num(ta, parseInt, va), Num(tb, parseInt, vb))
      case (Some(x), Some(y)) => x - y
      case _ => StrCmp(va.str, vb.str)
  }

  /** The meaning of an expression, written without short cuts: && is minimum, || is maximum, ! is 2 - x. */
  function Meaning(ty: Typing, env: Env, e: Expr): Tri
    requires |ty.types| == |env| && InRange(e, |env|)
  {
    match e
    case Sym(s) => if IsBoolTri(ty.types[s]) then env[s].tri else 0
    case And(l, r) => Min(Meaning(ty, env, l), Meaning(ty, env, r))
    case Or(l, r) => Max(Meaning(ty, env, l), Meaning(ty, env, r))
    case Not(x) => 2 - Meaning(ty, env, x)
    case Rel(rel, a, b) =>
      if Holds(rel, Compare(ty.parseInt, ty.types[a], env[a], ty.types[b], env[b])) then 2 else 0
  }

  /** The symbols whose values the short-circuiting evaluator looks at: the right operand of && is skipped after
      n, that of || after y. A symbol that is neither bool nor tristate is n without a look. */
  function Reads(ty: Typing, env: Env, e: Expr): (r: set<SymId>)
    requires |ty.types| == |env| && InRange(e, |env|)
  {
    match e
    case Sym(s) => if IsBoolTri(ty.types[s]) then {s} else {}
    case And(l, r) => Reads(ty, env, l) + (if Meaning(ty, env, l) == 0 then {} else Reads(ty, env, r))
    case Or(l, r) => Reads(ty, env, l) + (if Meaning(ty, env, l) == 2 then {} else Reads(ty, env, r))
    case Not(x) => Reads(ty, env, x)
    case Rel(_, a, b) => {a, b}
  }

  lemma {:induction false} ReadsAreItems(ty: Typing, env: Env, e: Expr)
    requires |ty.types| == |env| && InRange(e, |env|)
    ensures Reads(ty, env, e) <= Items(e)
  {
    match e
    case And(l, r) => ReadsAreItems(ty, env, l); ReadsAreItems(ty, env, r);
    case Or(l, r) => ReadsAreItems(ty, env, l); ReadsAreItems(ty, env, r);
    case Not(x) => ReadsAreItems(ty, env, x);
    case _ =>
  }

  predicate AgreeOn(env: Env, env': Env, r: set<SymId>) {
    |env| == |env'| && forall s :: s in r && s < |env| ==> env[s] == env'[s]
  }

  /** The skipped operands really do not matter: two environments that agree on the symbols read in one of them
      give the expression the same value, and read the same symbols. */
  lemma {:induction false} ReadsDetermineMeaning(ty: Typing, env: Env, env': Env, e: Expr)
    requires |ty.types| == |env| == |env'| && InRange(e, |env|)
    requires AgreeOn(env, env', Reads(ty, env, e))
    ensures Meaning(ty, env, e) == Meaning(ty, env', e)
    ensures Reads(ty, env, e) == Reads(ty, env', e)
  {
    match e
    case And(l, r) =>
      ReadsDetermineMeaning(ty, env, env', l);
      if Meaning(ty, env, l) != 0 { ReadsDetermineMeaning(ty, env, env', r); }
    case Or(l, r) =>
      ReadsDetermineMeaning(ty, env, env', l);
      if Meaning(ty, env, l) != 2 { ReadsDetermineMeaning(ty, env, env', r); }
    case Not(x) => ReadsDetermineMeaning(ty, env, env', x);
    case _ =>
  }
}
