/** The expression language of Kconfig: its grammar, the recursive-descent parser, the printer, and the helpers
    that build and take apart conjunctions and disjunctions. */
module KconfigGrammar {
  import opened KconfigExpr
  import opened Numbers

  /** Other stands for every token that has no place in an expression; End is the mark that closes each line. */
  datatype Token = TSym(id: SymId) | TRel(rel: Relation) | TNot | TAnd | TOr | TOpen | TClose | Other | End

  // ---------------------------------------------------------------- the grammar

  /** expr: and_expr ['||' expr] */
  datatype OrText = OneAnd(only: AndText) | OrMore(first: AndText, more: OrText)

  /** and_expr: factor ['&&' and_expr] */
  datatype AndText = OneFactor(only: Factor) | AndMore(first: Factor, more: AndText)

  /** factor: symbol | symbol relation symbol | '!' factor | '(' expr ')' */
  datatype Factor = Plainly(id: SymId) | Related(lhs: SymId, rel: Relation, rhs: SymId) | Negated(f: Factor)
    | Bracketed(inner: OrText)

  /** The tokens of a text, in order. */
  function OrTokens(t: OrText): seq<Token> {
    match t
    case OneAnd(a) => AndTokens(a)
    case OrMore(a, more) => AndTokens(a) + [TOr] + OrTokens(more)
  }

  function AndTokens(t: AndText): seq<Token> {
    match t
    case OneFactor(f) => FactorTokens(f)
    case AndMore(f, more) => FactorTokens(f) + [TAnd] + AndTokens(more)
  }

  function FactorTokens(t: Factor): seq<Token> {
    match t
    case Plainly(s) => [TSym(s)]
    case Related(a, rel, b) => [TSym(a), TRel(rel), TSym(b)]
    case Negated(f) => [TNot] + FactorTokens(f)
    case Bracketed(inner) => [TOpen] + OrTokens(inner) + [TClose]
  }

  /** The expression a text stands for. */
  function OrTree(t: OrText): Expr {
    match t
    case OneAnd(a) => AndTree(a)
    case OrMore(a, more) => Or(AndTree(a), OrTree(more))
  }

  function AndTree(t: AndText): Expr {
    match t
    case OneFactor(f) => FactorTree(f)
    case AndMore(f, more) => And(FactorTree(f), AndTree(more))
  }

  function FactorTree(t: Factor): Expr {
    match t
    case Plainly(s) => Sym(s)
    case Related(a, rel, b) => Rel(rel, a, b)
    case Negated(f) => Not(FactorTree(f))
    case Bracketed(inner) => OrTree(inner)
  }

  // ---------------------------------------------------------------- the parser as a function

  datatype Parsed = Tree(e: Expr, rest: seq<Token>) | Malformed

  /** The constant symbols n, m and y, and the symbol MODULES. */
  datatype Names = Names(n: SymId, m: SymId, y: SymId, modules: SymId)

  function ParseExpr(c: Names, tm: bool, ts: seq<Token>): (r: Parsed)
    ensures r.Tree? ==> |r.rest| < |ts|
    decreases |ts|, 2
  {
    var l := ParseAnd(c, tm, ts);
    if l.Malformed? || l.rest == [] || l.rest[0] != TOr then l else
    var r := ParseExpr(c, tm, l.rest[1..]);
    if r.Malformed? then r else Tree(Or(l.e, r.e), r.rest)
  }

  function ParseAnd(c: Names, tm: bool, ts: seq<Token>): (r: Parsed)
    ensures r.Tree? ==> |r.rest| < |ts|
    decreases |ts|, 1
  {
    var l := ParseFactor(c, tm, ts);
    if l.Malformed? || l.rest == [] || l.rest[0] != TAnd then l else
    var r := ParseAnd(c, tm, l.rest[1..]);
    if r.Malformed? then r else Tree(And(l.e, r.e), r.rest)
  }

  function ParseFactor(c: Names, tm: bool, ts: seq<Token>): (r: Parsed)
    ensures r.Tree? ==> |r.rest| < |ts|
    decreases |ts|, 0
  {
    if ts == [] then Malformed else
    match ts[0]
    case TSym(s) =>
      if |ts| < 2 || !ts[1].TRel? then Tree(Plain(c, tm, s), ts[1..])
      else if |ts| < 3 || !ts[2].TSym? then Malformed
      else Tree(Rel(ts[1].rel, s, ts[2].id), ts[3..])
    case TNot =>
      var r := ParseFactor(c, tm, ts[1..]);
      if r.Malformed? then r else Tree(Not(r.e), r.rest)
    case TOpen =>
      var r := ParseExpr(c, tm, ts[1..]);
      if r.Malformed? || r.rest == [] || r.rest[0] != TClose then Malformed else Tree(r.e, r.rest[1..])
    case _ => Malformed
  }

  /** In conditions a plain m stands for m && MODULES. */
  function Plain(c: Names, tm: bool, s: SymId): Expr {
    if tm && s == c.m then And(Sym(c.m), Sym(c.modules)) else Sym(s)
  }

  // ---------------------------------------------------------------- parser and grammar agree

  predicate StopsAnd(rest: seq<Token>) {
    rest == [] || (rest[0] != TAnd && !rest[0].TRel?)
  }

  predicate StopsExpr(rest: seq<Token>) {
    StopsAnd(rest) && (rest == [] || rest[0] != TOr)
  }

  /** Every text of the grammar is accepted, with the tree it stands for and no more input than the text. */
  lemma {:induction false} TextIsParsed(c: Names, t: OrText, ts: seq<Token>, rest: seq<Token>)
    requires ts == OrTokens(t) + rest && StopsExpr(rest)
    ensures ParseExpr(c, false, ts) == Tree(OrTree(t), rest)
  {
    match t
    case OneAnd(a) => AndTextIsParsed(c, a, ts, rest);
    case OrMore(a, more) =>
      var after := OrTokens(more) + rest;
      assert ts == AndTokens(a) + ([TOr] + after);
      AndTextIsParsed(c, a, ts, [TOr] + after);
      TextIsParsed(c, more, after, rest);
      OrStep(c, ts, AndTree(a), after, OrTree(more), rest);
  }

  lemma OrStep(c: Names, ts: seq<Token>, e1: Expr, after: seq<Token>, e2: Expr, rest: seq<Token>)
    requires ParseAnd(c, false, ts) == Tree(e1, [TOr] + after)
    requires ParseExpr(c, false, after) == Tree(e2, rest)
    ensures ParseExpr(c, false, ts) == Tree(Or(e1, e2), rest)
  {
    assert ([TOr] + after)[1..] == after;
  }

  lemma {:induction false} AndTextIsParsed(c: Names, t: AndText, ts: seq<Token>, rest: seq<Token>)
    requires ts == AndTokens(t) + rest && StopsAnd(rest)
    ensures ParseAnd(c, false, ts) == Tree(AndTree(t), rest)
  {
    match t
    case OneFactor(f) => FactorIsParsed(c, f, ts, rest);
    case AndMore(f, more) =>
      var after := AndTokens(more) + rest;
      assert ts == FactorTokens(f) + ([TAnd] + after);
      FactorIsParsed(c, f, ts, [TAnd] + after);
      AndTextIsParsed(c, more, after, rest);
      AndStep(c, ts, FactorTree(f), after, AndTree(more), rest);
  }

  lemma AndStep(c: Names, ts: seq<Token>, e1: Expr, after: seq<Token>, e2: Expr, rest: seq<Token>)
    requires ParseFactor(c, false, ts) == Tree(e1, [TAnd] + after)
    requires ParseAnd(c, false, after) == Tree(e2, rest)
    ensures ParseAnd(c, false, ts) == Tree(And(e1, e2), rest)
  {
    assert ([TAnd] + after)[1..] == after;
  }

  lemma {:induction false} FactorIsParsed(c: Names, t: Factor, ts: seq<Token>, rest: seq<Token>)
    requires ts == FactorTokens(t) + rest && (rest == [] || !rest[0].TRel?)
    ensures ParseFactor(c, false, ts) == Tree(FactorTree(t), rest)
  {
    match t
    case Plainly(s) => assert ts[1..] == rest;
    case Related(a, rel, b) => assert ts[3..] == rest;
    case Negated(f) =>
      assert ts[1..] == FactorTokens(f) + rest;
      FactorIsParsed(c, f, ts[1..], rest);
    case Bracketed(inner) =>
      assert ts[1..] == OrTokens(inner) + ([TClose] + rest);
      TextIsParsed(c, inner, ts[1..], [TClose] + rest);
      BracketStep(c, ts, OrTree(inner), rest);
  }

  lemma BracketStep(c: Names, ts: seq<Token>, e: Expr, rest: seq<Token>)
    requires ts != [] && ts[0] == TOpen && ParseExpr(c, false, ts[1..]) == Tree(e, [TClose] + rest)
    ensures ParseFactor(c, false, ts) == Tree(e, rest)
  {
    assert ([TClose] + rest)[1..] == rest;
  }

  /** Whatever is accepted is a text of the grammar, and the tree is what the text stands for. */
  lemma {:induction false} ParsedIsText(c: Names, ts: seq<Token>) returns (t: OrText)
    ensures var r := ParseExpr(c, false, ts); r.Tree? ==> ts == OrTokens(t) + r.rest && r.e == OrTree(t)
    decreases |ts|, 2
  {
    var a := ParsedIsAndText(c, ts);
    t := OneAnd(a);
    var l, r := ParseAnd(c, false, ts), ParseExpr(c, false, ts);
    if r.Tree? && r != l {
      var more := ParsedIsText(c, l.rest[1..]);
      t := OrMore(a, more);
      assert l.rest == [TOr] + l.rest[1..];
    }
  }

  lemma {:induction false} ParsedIsAndText(c: Names, ts: seq<Token>) returns (t: AndText)
    ensures var r := ParseAnd(c, false, ts); r.Tree? ==> ts == AndTokens(t) + r.rest && r.e == AndTree(t)
    decreases |ts|, 1
  {
    var f := ParsedIsFactor(c, ts);
    t := OneFactor(f);
    var l, r := ParseFactor(c, false, ts), ParseAnd(c, false, ts);
    if r.Tree? && r != l {
      var after := l.rest[1..];
      var more := ParsedIsAndText(c, after);
      t := AndMore(f, more);
      assert l.rest == [TAnd] + after;
      AndJoins(ts, FactorTokens(f), after, AndTokens(more), r.rest);
    }
  }

  lemma AndJoins(ts: seq<Token>, f: seq<Token>, after: seq<Token>, more: seq<Token>, rest: seq<Token>)
    requires ts == f + ([TAnd] + after) && after == more + rest
    ensures ts == f + [TAnd] + more + rest
  {
  }

  lemma {:induction false} ParsedIsFactor(c: Names, ts: seq<Token>) returns (t: Factor)
    ensures var r := ParseFactor(c, false, ts); r.Tree? ==> ts == FactorTokens(t) + r.rest && r.e == FactorTree(t)
    decreases |ts|, 0
  {
    t := Plainly(0);
    var r := ParseFactor(c, false, ts);
    if r.Tree? {
      match ts[0]
      case TSym(s) =>
        t := if |ts| < 2 || !ts[1].TRel? then Plainly(s) else Related(s, ts[1].rel, ts[2].id);
      case TNot =>
        var f := ParsedIsFactor(c, ts[1..]);
        t := Negated(f);
        assert ts == [TNot] + ts[1..];
      case TOpen =>
        var inner := ParsedIsText(c, ts[1..]);
        t := Bracketed(inner);
        InBrackets(ts, OrTokens(inner), ParseExpr(c, false, ts[1..]).rest);
    }
  }

  lemma InBrackets(ts: seq<Token>, inner: seq<Token>, after: seq<Token>)
    requires ts != [] && ts[0] == TOpen && ts[1..] == inner + after && after != [] && after[0] == TClose
    ensures ts == [TOpen] + inner + [TClose] + after[1..]
  {
  }

  /** A token string stands for one expression at most. */
  lemma Unambiguous(t: OrText, t': OrText)
    requires OrTokens(t) == OrTokens(t')
    ensures OrTree(t) == OrTree(t')
  {
    var ts := OrTokens(t);
    assert ts == OrTokens(t) + [] == OrTokens(t') + [];
    TextIsParsed(Names(0, 0, 0, 0), t, ts, []);
    TextIsParsed(Names(0, 0, 0, 0), t', ts, []);
  }

  // ---------------------------------------------------------------- rewriting of m

  function TransformM(c: Names, e: Expr): Expr {
    match e
    case Sym(s) => Plain(c, true, s)
    case And(l, r) => And(TransformM(c, l), TransformM(c, r))
    case Or(l, r) => Or(TransformM(c, l), TransformM(c, r))
    case Not(x) => Not(TransformM(c, x))
    case Rel(_, _, _) => e
  }

  function Transformed(c: Names, r: Parsed): Parsed {
    if r.Malformed? then r else Tree(TransformM(c, r.e), r.rest)
  }

  /** Parsing a condition accepts the same strings, and rewrites exactly the m's that stand alone. */
  lemma {:induction false} ConditionIsTransformed(c: Names, ts: seq<Token>)
    ensures ParseExpr(c, true, ts) == Transformed(c, ParseExpr(c, false, ts))
    decreases |ts|, 2
  {
    ConditionAndIsTransformed(c, ts);
    var l := ParseAnd(c, false, ts);
    if l.Tree? && l.rest != [] { ConditionIsTransformed(c, l.rest[1..]); }
  }

  lemma {:induction false} ConditionAndIsTransformed(c: Names, ts: seq<Token>)
    ensures ParseAnd(c, true, ts) == Transformed(c, ParseAnd(c, false, ts))
    decreases |ts|, 1
  {
    ConditionFactorIsTransformed(c, ts);
    var l := ParseFactor(c, false, ts);
    if l.Tree? && l.rest != [] { ConditionAndIsTransformed(c, l.rest[1..]); }
  }

  lemma {:induction false} ConditionFactorIsTransformed(c: Names, ts: seq<Token>)
    ensures ParseFactor(c, true, ts) == Transformed(c, ParseFactor(c, false, ts))
    decreases |ts|, 0
  {
    if ts != [] && ts[0] == TNot { ConditionFactorIsTransformed(c, ts[1..]); }
    if ts != [] && ts[0] == TOpen { ConditionIsTransformed(c, ts[1..]); }
  }

  /** The environments in which n, m and y are the constants of that name. */
  predicate Constants(c: Names, ty: Typing, env: Env) {
    && |ty.types| == |env|
    && c.n < |env| && c.m < |env| && c.y < |env| && c.modules < |env|
    && IsBoolTri(ty.types[c.n]) && IsBoolTri(ty.types[c.m]) && IsBoolTri(ty.types[c.y])
    && IsBoolTri(ty.types[c.modules])
    && env[c.n].tri == 0 && env[c.m].tri == 1 && env[c.y].tri == 2
  }

  /** While modules are on, the rewriting changes no value. */
  lemma {:induction false} TransformKeepsMeaning(c: Names, ty: Typing, env: Env, e: Expr)
    requires Constants(c, ty, env) && InRange(e, |env|)
    ensures InRange(TransformM(c, e), |env|)
    ensures env[c.modules].tri == 2 ==> Meaning(ty, env, TransformM(c, e)) == Meaning(ty, env, e)
  {
    match e
    case And(l, r) => TransformKeepsMeaning(c, ty, env, l); TransformKeepsMeaning(c, ty, env, r);
    case Or(l, r) => TransformKeepsMeaning(c, ty, env, l); TransformKeepsMeaning(c, ty, env, r);
    case Not(x) => TransformKeepsMeaning(c, ty, env, x);
    case _ =>
  }

  // ---------------------------------------------------------------- what a text is worth

  /** The value of a text, read off its grammar: the disjunction of its parts, each the conjunction of its factors. In a
      condition an m that stands alone is only worth what MODULES is; elsewhere, and in a relation, it is always m. */
  function OrWorth(c: Names, ty: Typing, env: Env, condition: bool, t: OrText): Tri
    requires |ty.types| == |env| && InRange(OrTree(t), |env|) && c.m < |env| && c.modules < |env|
  {
    match t
    case OneAnd(a) => AndWorth(c, ty, env, condition, a)
    case OrMore(a, more) =>
      var x, y := AndWorth(c, ty, env, condition, a), OrWorth(c, ty, env, condition, more);
      if x < y then y else x
  }

  function AndWorth(c: Names, ty: Typing, env: Env, condition: bool, t: AndText): Tri
    requires |ty.types| == |env| && InRange(AndTree(t), |env|) && c.m < |env| && c.modules < |env|
  {
    match t
    case OneFactor(f) => FactorWorth(c, ty, env, condition, f)
    case AndMore(f, more) =>
      var x, y := FactorWorth(c, ty, env, condition, f), AndWorth(c, ty, env, condition, more);
      if x < y then x else y
  }

  function FactorWorth(c: Names, ty: Typing, env: Env, condition: bool, t: Factor): Tri
    requires |ty.types| == |env| && InRange(FactorTree(t), |env|) && c.m < |env| && c.modules < |env|
  {
    match t
    case Plainly(s) =>
      if condition && s == c.m then (if env[c.modules].tri == 0 then 0 else 1)
      else if ty.types[s] == Bool || ty.types[s] == Tristate then env[s].tri
      else 0
    case Related(a, rel, b) =>
      if Holds(rel, Compare(ty.parseInt, ty.types[a], env[a], ty.types[b], env[b])) then 2 else 0
    case Negated(f) =>
      var x := FactorWorth(c, ty, env, condition, f);
      if x == 0 then 2 else if x == 1 then 1 else 0
    case Bracketed(inner) => OrWorth(c, ty, env, condition, inner)
  }

  /** The tree of a text means what the text is worth, and the tree of a condition what the condition is worth,
      whatever the value of MODULES. */
  lemma {:induction false} TreeIsWorth(c: Names, ty: Typing, env: Env, t: OrText)
    requires Constants(c, ty, env) && InRange(OrTree(t), |env|)
    ensures Meaning(ty, env, OrTree(t)) == OrWorth(c, ty, env, false, t)
    ensures InRange(TransformM(c, OrTree(t)), |env|)
    ensures Meaning(ty, env, TransformM(c, OrTree(t))) == OrWorth(c, ty, env, true, t)
  {
    match t
    case OneAnd(a) => AndIsWorth(c, ty, env, a);
    case OrMore(a, more) => AndIsWorth(c, ty, env, a); TreeIsWorth(c, ty, env, more);
  }

  lemma {:induction false} AndIsWorth(c: Names, ty: Typing, env: Env, t: AndText)
    requires Constants(c, ty, env) && InRange(AndTree(t), |env|)
    ensures Meaning(ty, env, AndTree(t)) == AndWorth(c, ty, env, false, t)
    ensures InRange(TransformM(c, AndTree(t)), |env|)
    ensures Meaning(ty, env, TransformM(c, AndTree(t))) == AndWorth(c, ty, env, true, t)
  {
    match t
    case OneFactor(f) => FactorIsWorth(c, ty, env, f);
    case AndMore(f, more) => FactorIsWorth(c, ty, env, f); AndIsWorth(c, ty, env, more);
  }

  lemma {:induction false} FactorIsWorth(c: Names, ty: Typing, env: Env, t: Factor)
    requires Constants(c, ty, env) && InRange(FactorTree(t), |env|)
    ensures Meaning(ty, env, FactorTree(t)) == FactorWorth(c, ty, env, false, t)
    ensures InRange(TransformM(c, FactorTree(t)), |env|)
    ensures Meaning(ty, env, TransformM(c, FactorTree(t))) == FactorWorth(c, ty, env, true, t)
  {
    match t
    case Negated(f) => FactorIsWorth(c, ty, env, f);
    case Bracketed(inner) => TreeIsWorth(c, ty, env, inner);
    case _ =>
  }

  /** In particular the condition m is worth what MODULES is, as long as that is not y. */
  lemma {:induction false} LoneM(c: Names, ty: Typing, env: Env, a: AndText, t: OrText)
    requires Constants(c, ty, env) && t.OneAnd? && t.only == a && a.OneFactor? && a.only.Plainly? && a.only.id == c.m
    ensures OrTokens(t) == [TSym(c.m)] && InRange(OrTree(t), |env|)
    ensures OrWorth(c, ty, env, true, t) == if env[c.modules].tri == 2 then 1 else env[c.modules].tri
  {
    var f := a.only;
    assert FactorTokens(f) == [TSym(c.m)] && FactorTree(f) == Sym(c.m);
    assert AndTokens(a) == FactorTokens(f) && AndTree(a) == FactorTree(f);
    assert OrTokens(t) == AndTokens(a) && OrTree(t) == AndTree(a);
    assert FactorWorth(c, ty, env, true, f) == if env[c.modules].tri == 0 then 0 else 1;
    assert OrWorth(c, ty, env, true, t) == AndWorth(c, ty, env, true, a) == FactorWorth(c, ty, env, true, f);
  }

  // ---------------------------------------------------------------- the printer

  /** The tokens of expr_str(). An || under && and an && under || get parentheses; nothing else does but the operand
      of a ! that is not a symbol. */
  function Print(e: Expr): (ts: seq<Token>)
    decreases e, 0
  {
    match e
    case Sym(s) => [TSym(s)]
    case And(l, r) => PrintIn(l, true) + [TAnd] + PrintIn(r, true)
    case Or(l, r) => PrintIn(l, false) + [TOr] + PrintIn(r, false)
    case Not(x) => if x.Sym? then [TNot, TSym(x.id)] else [TNot, TOpen] + Print(x) + [TClose]
    case Rel(rel, a, b) => [TSym(a), TRel(rel), TSym(b)]
  }

  /** An operand of && (inAnd) or of ||. */
  function PrintIn(e: Expr, inAnd: bool): seq<Token>
    decreases e, 1
  {
    if (if inAnd then e.Or? else e.And?) then [TOpen] + Print(e) + [TClose] else Print(e)
  }

  /** a && b, with the operands of a kept at the top. */
  function AppendAnd(a: Expr, b: Expr): Expr {
    if a.And? then And(a.left, AppendAnd(a.right, b)) else And(a, b)
  }

  function AppendOr(a: Expr, b: Expr): Expr {
    if a.Or? then Or(a.left, AppendOr(a.right, b)) else Or(a, b)
  }

  /** The expression with every chain of && and every chain of || nested to the right. */
  function Norm(e: Expr): Expr {
    match e
    case And(l, r) => AppendAnd(Norm(l), Norm(r))
    case Or(l, r) => AppendOr(Norm(l), Norm(r))
    case Not(x) => Not(Norm(x))
    case _ => e
  }

  /** No && has an && as its left operand, and no || an ||. */
  predicate RightNested(e: Expr) {
    match e
    case And(l, r) => !l.And? && RightNested(l) && RightNested(r)
    case Or(l, r) => !l.Or? && RightNested(l) && RightNested(r)
    case Not(x) => RightNested(x)
    case _ => true
  }

  /** The text that the printer writes. */
  function Written(e: Expr): OrText
    decreases e, 2
  {
    if e.Or? then ChainOr(e.left, Operand(e.right)) else OneAnd(WrittenAnd(e))
  }

  function WrittenAnd(e: Expr): AndText
    requires !e.Or?
    decreases e, 1
  {
    if e.And? then ChainAnd(e.left, OperandOfAnd(e.right)) else OneFactor(WrittenFactor(e))
  }

  function WrittenFactor(e: Expr): Factor
    requires !e.Or? && !e.And?
    decreases e, 0
  {
    match e
    case Sym(s) => Plainly(s)
    case Rel(rel, a, b) => Related(a, rel, b)
    case Not(x) => if x.Sym? then Negated(Plainly(x.id)) else Negated(Bracketed(Written(x)))
  }

  function Operand(e: Expr): OrText
    decreases e, 4
  {
    if e.And? then OneAnd(OneFactor(Bracketed(Written(e)))) else Written(e)
  }

  function OperandOfAnd(e: Expr): AndText
    decreases e, 4
  {
    if e.Or? then OneFactor(Bracketed(Written(e))) else WrittenAnd(e)
  }

  /** e as a left operand of ||, in front of the text of the right one. */
  function ChainOr(e: Expr, after: OrText): OrText
    decreases e, 5
  {
    if e.Or? then ChainOr(e.left, ChainOr(e.right, after))
    else if e.And? then OrMore(OneFactor(Bracketed(Written(e))), after)
    else OrMore(WrittenAnd(e), after)
  }

  function ChainAnd(e: Expr, after: AndText): AndText
    decreases e, 5
  {
    if e.And? then ChainAnd(e.left, ChainAnd(e.right, after))
    else if e.Or? then AndMore(Bracketed(Written(e)), after)
    else AndMore(WrittenFactor(e), after)
  }

  lemma {:induction false} AppendAssociates(a: Expr, b: Expr, d: Expr)
    ensures AppendAnd(AppendAnd(a, b), d) == AppendAnd(a, AppendAnd(b, d))
    ensures AppendOr(AppendOr(a, b), d) == AppendOr(a, AppendOr(b, d))
  {
    if a.And? || a.Or? { AppendAssociates(a.right, b, d); }
  }

  lemma {:induction false} NormKeepsShape(e: Expr)
    ensures Norm(e).And? == e.And? && Norm(e).Or? == e.Or?
  {
    match e
    case _ =>
  }

  /** What is printed is a text of the grammar, and it stands for the right-nested expression. */
  lemma {:induction false} PrintedIsText(e: Expr)
    ensures Print(e) == OrTokens(Written(e)) && OrTree(Written(e)) == Norm(e)
    decreases e, 2
  {
    if e.Or? {
      PrintedOperand(e.right);
      PrintedInChainOr(e.left, Operand(e.right));
    } else {
      PrintedIsAndText(e);
    }
  }

  lemma {:induction false} PrintedIsAndText(e: Expr)
    requires !e.Or?
    ensures Print(e) == AndTokens(WrittenAnd(e)) && AndTree(WrittenAnd(e)) == Norm(e)
    decreases e, 1
  {
    if e.And? {
      PrintedOperandOfAnd(e.right);
      PrintedInChainAnd(e.left, OperandOfAnd(e.right));
    } else {
      PrintedIsFactor(e);
    }
  }

  lemma {:induction false} PrintedIsFactor(e: Expr)
    requires !e.Or? && !e.And?
    ensures Print(e) == FactorTokens(WrittenFactor(e)) && FactorTree(WrittenFactor(e)) == Norm(e)
    decreases e, 0
  {
    if e.Not? { PrintedIsText(e.operand); }
  }

  lemma {:induction false} PrintedOperand(e: Expr)
    ensures PrintIn(e, false) == OrTokens(Operand(e)) && OrTree(Operand(e)) == Norm(e)
    decreases e, 4
  {
    PrintedIsText(e);
    if e.And? { BracketedAlone(e); }
  }

  lemma {:induction false} BracketedAlone(e: Expr)
    ensures AndTokens(OneFactor(Bracketed(Written(e)))) == [TOpen] + OrTokens(Written(e)) + [TClose]
    ensures AndTree(OneFactor(Bracketed(Written(e)))) == OrTree(Written(e))
    ensures OrTokens(OneAnd(OneFactor(Bracketed(Written(e))))) == [TOpen] + OrTokens(Written(e)) + [TClose]
    ensures OrTree(OneAnd(OneFactor(Bracketed(Written(e))))) == OrTree(Written(e))
  {
    var f := Bracketed(Written(e));
    assert AndTokens(OneFactor(f)) == FactorTokens(f) && AndTree(OneFactor(f)) == FactorTree(f);
  }

  lemma {:induction false} PrintedOperandOfAnd(e: Expr)
    ensures PrintIn(e, true) == AndTokens(OperandOfAnd(e)) && AndTree(OperandOfAnd(e)) == Norm(e)
    decreases e, 4
  {
    if e.Or? { PrintedIsText(e); } else { PrintedIsAndText(e); }
  }

  /** An operand of || followed by || and more: its own operands come to stand in front of the rest. */
  lemma {:induction false} PrintedInChainOr(e: Expr, after: OrText)
    ensures PrintIn(e, false) + [TOr] + OrTokens(after) == OrTokens(ChainOr(e, after))
    ensures OrTree(ChainOr(e, after)) == AppendOr(Norm(e), OrTree(after))
    decreases e, 5
  {
    NormKeepsShape(e);
    if e.Or? {
      var more := ChainOr(e.right, after);
      PrintedInChainOr(e.right, after);
      PrintedInChainOr(e.left, more);
      AppendAssociates(Norm(e.left), Norm(e.right), OrTree(after));
    } else if e.And? {
      PrintedIsText(e);
      BracketedAlone(e);
    } else {
      PrintedIsAndText(e);
    }
  }

  lemma {:induction false} PrintedInChainAnd(e: Expr, after: AndText)
    ensures PrintIn(e, true) + [TAnd] + AndTokens(after) == AndTokens(ChainAnd(e, after))
    ensures AndTree(ChainAnd(e, after)) == AppendAnd(Norm(e), AndTree(after))
    decreases e, 5
  {
    NormKeepsShape(e);
    if e.And? {
      var more := ChainAnd(e.right, after);
      PrintedInChainAnd(e.right, after);
      PrintedInChainAnd(e.left, more);
      AppendAssociates(Norm(e.left), Norm(e.right), AndTree(after));
    } else if e.Or? {
      PrintedIsText(e);
    } else {
      PrintedIsFactor(e);
    }
  }

  // ---------------------------------------------------------------- what the round trip keeps

  lemma {:induction false} AppendKeepsMeaning(ty: Typing, env: Env, a: Expr, b: Expr)
    requires |ty.types| == |env| && InRange(a, |env|) && InRange(b, |env|)
    ensures InRange(AppendAnd(a, b), |env|) && InRange(AppendOr(a, b), |env|)
    ensures Meaning(ty, env, AppendAnd(a, b)) == Min(Meaning(ty, env, a), Meaning(ty, env, b))
    ensures Meaning(ty, env, AppendOr(a, b)) == Max(Meaning(ty, env, a), Meaning(ty, env, b))
  {
    if a.And? || a.Or? { AppendKeepsMeaning(ty, env, a.right, b); }
  }

  lemma {:induction false} NormKeepsMeaning(ty: Typing, env: Env, e: Expr)
    requires |ty.types| == |env| && InRange(e, |env|)
    ensures InRange(Norm(e), |env|) && Meaning(ty, env, Norm(e)) == Meaning(ty, env, e)
  {
    match e
    case And(l, r) =>
      NormKeepsMeaning(ty, env, l);
      NormKeepsMeaning(ty, env, r);
      AppendKeepsMeaning(ty, env, Norm(l), Norm(r));
    case Or(l, r) =>
      NormKeepsMeaning(ty, env, l);
      NormKeepsMeaning(ty, env, r);
      AppendKeepsMeaning(ty, env, Norm(l), Norm(r));
    case Not(x) => NormKeepsMeaning(ty, env, x);
    case _ =>
  }

  lemma {:induction false} AppendIsRightNested(a: Expr, b: Expr)
    requires RightNested(a) && RightNested(b)
    ensures RightNested(AppendAnd(a, b)) && RightNested(AppendOr(a, b))
  {
    if a.And? || a.Or? { AppendIsRightNested(a.right, b); }
  }

  lemma {:induction false} NormIsRightNested(e: Expr)
    ensures RightNested(Norm(e))
    ensures Norm(e) == e <==> RightNested(e)
  {
    match e
    case And(l, r) => NormIsRightNested(l); NormIsRightNested(r); AppendIsRightNested(Norm(l), Norm(r));
    case Or(l, r) => NormIsRightNested(l); NormIsRightNested(r); AppendIsRightNested(Norm(l), Norm(r));
    case Not(x) => NormIsRightNested(x);
    case _ =>
  }

  /** Printing and parsing back, in front of anything that cannot continue an expression: all tokens of the printed
      expression are used, the value is the same in every environment, and the very same tree comes back exactly
      when no && has an && and no || an || as its left operand. */
  lemma RoundTrip(c: Names, e: Expr, rest: seq<Token>)
    requires StopsExpr(rest)
    ensures ParseExpr(c, false, Print(e) + rest) == Tree(Norm(e), rest)
    ensures forall ty: Typing, env: Env :: |ty.types| == |env| && InRange(e, |env|) ==>
      InRange(Norm(e), |env|) && Meaning(ty, env, Norm(e)) == Meaning(ty, env, e)
    ensures ParseExpr(c, false, Print(e) + rest) == Tree(e, rest) <==> RightNested(e)
  {
    PrintedIsText(e);
    TextIsParsed(c, Written(e), Print(e) + rest, rest);
    NormIsRightNested(e);
    forall ty: Typing, env: Env | |ty.types| == |env| && InRange(e, |env|)
      ensures InRange(Norm(e), |env|) && Meaning(ty, env, Norm(e)) == Meaning(ty, env, e)
    {
      NormKeepsMeaning(ty, env, e);
    }
  }

  // ---------------------------------------------------------------- building and splitting

  /** _make_and(): leaves out an operand that is the constant y, and collapses to the constant n. */
  function MakeAnd(c: Names, e1: Expr, e2: Expr): Expr {
    if e1 == Sym(c.y) then e2
    else if e2 == Sym(c.y) then e1
    else if e1 == Sym(c.n) || e2 == Sym(c.n) then Sym(c.n)
    else And(e1, e2)
  }

  function MakeOr(c: Names, e1: Expr, e2: Expr): Expr {
    if e1 == Sym(c.n) then e2
    else if e2 == Sym(c.n) then e1
    else if e1 == Sym(c.y) || e2 == Sym(c.y) then Sym(c.y)
    else Or(e1, e2)
  }

  lemma MakeAndMeaning(c: Names, ty: Typing, env: Env, e1: Expr, e2: Expr)
    requires Constants(c, ty, env) && InRange(e1, |env|) && InRange(e2, |env|)
    ensures InRange(MakeAnd(c, e1, e2), |env|)
    ensures Meaning(ty, env, MakeAnd(c, e1, e2)) == Min(Meaning(ty, env, e1), Meaning(ty, env, e2))
  {
    var y, n := Sym(c.y), Sym(c.n);
    assert Meaning(ty, env, y) == 2 && Meaning(ty, env, n) == 0;
    if e1 != y && e2 != y && e1 != n && e2 != n {
      assert MakeAnd(c, e1, e2) == And(e1, e2);
    }
  }

  lemma MakeOrMeaning(c: Names, ty: Typing, env: Env, e1: Expr, e2: Expr)
    requires Constants(c, ty, env) && InRange(e1, |env|) && InRange(e2, |env|)
    ensures InRange(MakeOr(c, e1, e2), |env|)
    ensures Meaning(ty, env, MakeOr(c, e1, e2)) == Max(Meaning(ty, env, e1), Meaning(ty, env, e2))
  {
    var y, n := Sym(c.y), Sym(c.n);
    assert Meaning(ty, env, y) == 2 && Meaning(ty, env, n) == 0;
    if e1 != y && e2 != y && e1 != n && e2 != n {
      assert MakeOr(c, e1, e2) == Or(e1, e2);
    }
  }

  /** The operands of the topmost chain of && (ofAnd) or ||, from left to right. */
  function Operands(e: Expr, ofAnd: bool): (es: seq<Expr>)
    ensures es != []
  {
    if (if ofAnd then e.And? else e.Or?) then Operands(e.left, ofAnd) + Operands(e.right, ofAnd) else [e]
  }

  lemma {:induction false} OperandsInRange(e: Expr, ofAnd: bool, n: nat)
    requires InRange(e, n)
    ensures forall k :: 0 <= k < |Operands(e, ofAnd)| ==> InRange(Operands(e, ofAnd)[k], n)
  {
    if (if ofAnd then e.And? else e.Or?) {
      OperandsInRange(e.left, ofAnd, n);
      OperandsInRange(e.right, ofAnd, n);
    }
  }

  lemma {:induction false} OperandsAreParts(e: Expr, ofAnd: bool)
    ensures forall k :: 0 <= k < |Operands(e, ofAnd)| ==> Items(Operands(e, ofAnd)[k]) <= Items(e)
  {
    if (if ofAnd then e.And? else e.Or?) {
      OperandsAreParts(e.left, ofAnd);
      OperandsAreParts(e.right, ofAnd);
    }
  }

  /** The symbol that a reverse dependency comes from: 'select A if B' on S turns into S && B, and 'select A' into S. */
  function Selector(e: Expr): Expr { Operands(e, true)[0] }

  /** Every alternative of a reverse dependency comes from a symbol. */
  predicate Selects(e: Expr) {
    forall k :: 0 <= k < |Operands(e, false)| ==> Selector(Operands(e, false)[k]).Sym?
  }

  /** What _add_props_to_sym() makes of a reverse dependency for one more select by s keeps it such. */
  lemma SelectsAdded(c: Names, e: Expr, s: SymId, cond: Expr)
    requires Selects(e) && s != c.y
    ensures Selects(MakeOr(c, e, MakeAnd(c, Sym(s), cond)))
  {
    var one := MakeAnd(c, Sym(s), cond);
    assert Operands(one, false) == [one];
    assert Operands(Sym(s), true) == [Sym(s)];
    assert one == And(Sym(s), cond) ==> Operands(one, true) == [Sym(s)] + Operands(cond, true);
    assert MakeOr(c, e, one) == Or(e, one) ==> Operands(Or(e, one), false) == Operands(e, false) + [one];
  }

  /** split_expr(): the walk appends to one list. */
  method SplitInto(e: Expr, ofAnd: bool, res: seq<Expr>) returns (res': seq<Expr>)
    ensures res' == res + Operands(e, ofAnd)
  {
    if (if ofAnd then e.And? else e.Or?) {
      res' := SplitInto(e.left, ofAnd, res);
      res' := SplitInto(e.right, ofAnd, res');
    } else {
      res' := res + [e];
    }
  }

  /** The value of the conjunction (ofAnd) or disjunction of a list. */
  function Joined(ty: Typing, env: Env, es: seq<Expr>, ofAnd: bool): Tri
    requires |ty.types| == |env| && forall i :: 0 <= i < |es| ==> InRange(es[i], |env|)
  {
    if es == [] then (if ofAnd then 2 else 0)
    else if ofAnd then Min(Meaning(ty, env, es[0]), Joined(ty, env, es[1..], ofAnd))
    else Max(Meaning(ty, env, es[0]), Joined(ty, env, es[1..], ofAnd))
  }

  lemma {:induction false} JoinedOfConcat(ty: Typing, env: Env, a: seq<Expr>, b: seq<Expr>, ofAnd: bool)
    requires |ty.types| == |env| && forall i :: 0 <= i < |a| ==> InRange(a[i], |env|)
    requires forall i :: 0 <= i < |b| ==> InRange(b[i], |env|)
    ensures Joined(ty, env, a + b, ofAnd) ==
            if ofAnd then Min(Joined(ty, env, a, ofAnd), Joined(ty, env, b, ofAnd))
            else Max(Joined(ty, env, a, ofAnd), Joined(ty, env, b, ofAnd))
  {
    if a == [] {
      assert a + b == b;
    } else {
      JoinedOfConcat(ty, env, a[1..], b, ofAnd);
      assert (a + b)[1..] == a[1..] + b;
    }
  }

  /** Splitting stops only at operands of another kind, and the parts together have the value of the whole. */
  lemma {:induction false} SplitKeepsMeaning(ty: Typing, env: Env, e: Expr, ofAnd: bool)
    requires |ty.types| == |env| && InRange(e, |env|)
    ensures var parts := Operands(e, ofAnd);
            && (forall i :: 0 <= i < |parts| ==>
                  InRange(parts[i], |env|) && !(if ofAnd then parts[i].And? else parts[i].Or?))
            && Joined(ty, env, parts, ofAnd) == Meaning(ty, env, e)
  {
    if if ofAnd then e.And? else e.Or? {
      SplitKeepsMeaning(ty, env, e.left, ofAnd);
      SplitKeepsMeaning(ty, env, e.right, ofAnd);
      JoinedOfConcat(ty, env, Operands(e.left, ofAnd), Operands(e.right, ofAnd), ofAnd);
    } else {
      assert [e][1..] == [];
    }
  }

  lemma {:induction false} OperandsOfAppend(a: Expr, b: Expr)
    requires RightNested(a)
    ensures Operands(AppendAnd(a, b), true) == Operands(a, true) + Operands(b, true)
    ensures Operands(AppendOr(a, b), false) == Operands(a, false) + Operands(b, false)
  {
    if a.And? || a.Or? { OperandsOfAppend(a.right, b); }
  }

  function Norms(es: seq<Expr>): seq<Expr> {
    seq(|es|, i requires 0 <= i < |es| => Norm(es[i]))
  }

  /** How a chain is bracketed makes no difference to its operands: writing an expression out and reading it back
      leaves the list the same, operand by operand. */
  lemma {:induction false} SplitIgnoresBrackets(e: Expr, ofAnd: bool)
    ensures Operands(Norm(e), ofAnd) == Norms(Operands(e, ofAnd))
  {
    NormKeepsShape(e);
    if if ofAnd then e.And? else e.Or? {
      var l, r := Operands(e.left, ofAnd), Operands(e.right, ofAnd);
      SplitIgnoresBrackets(e.left, ofAnd);
      SplitIgnoresBrackets(e.right, ofAnd);
      NormIsRightNested(e.left);
      OperandsOfAppend(Norm(e.left), Norm(e.right));
      assert Norms(l + r) == Norms(l) + Norms(r);
    } else {
      assert Operands(e, ofAnd) == [e];
      assert Operands(Norm(e), ofAnd) == [Norm(e)];
    }
  }
}
