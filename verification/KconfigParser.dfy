/** The recursive-descent parser: one list of tokens, and a position that every method moves forward. None stands
    for the raised parse error. */
module KconfigParser {
  import opened KconfigExpr
  import opened Options
  import opened G = KconfigGrammar

  /** What a method must have done: it answers as the function does on the tokens ahead, and stands where the
      function's rest begins. */
  predicate Matches(r: Option<Expr>, tokens: seq<Token>, at: nat, p: Parsed) {
    match p
    case Malformed => r == None
    case Tree(e, rest) => r == Some(e) && at <= |tokens| && rest == tokens[at..]
  }

  class Parser {
    const tokens: seq<Token>
    const names: Names
    var at: nat

    constructor (tokens: seq<Token>, names: Names)
      ensures this.tokens == tokens && this.names == names && at == 0
    {
      this.tokens, this.names, at := tokens, names, 0;
    }

    /** The mark at the end of the line has not been passed. */
    predicate Ready()
      reads this
    {
      at < |tokens| && tokens[|tokens| - 1] == End
    }

    method CheckToken(token: Token) returns (found: bool)
      requires Ready() && token != End
      modifies this`at
      ensures found == (old(tokens[at]) == token) && at == old(at) + (if found then 1 else 0)
      ensures Ready()
    {
      found := tokens[at] == token;
      if found { at := at + 1; }
    }

    method ExpectSym() returns (s: Option<SymId>)
      requires Ready()
      modifies this`at
      ensures at == old(at) + 1
      ensures s == if old(tokens[at]).TSym? then Some(old(tokens[at]).id) else None
      ensures s.Some? ==> Ready()
    {
      var token := tokens[at];
      at := at + 1;
      s := if token.TSym? then Some(token.id) else None;
    }

    method ParseExpr(tm: bool) returns (r: Option<Expr>)
      requires Ready()
      modifies this`at
      ensures Matches(r, tokens, at, G.ParseExpr(names, tm, old(tokens[at..])))
      ensures r.Some? ==> Ready() && old(at) < at
      decreases |tokens| - at, 2
    {
      var andExpr := ParseAndExpr(tm);
      if andExpr.None? { return None; }
      var isOr := CheckToken(TOr);
      if !isOr { return andExpr; }
      var rest := ParseExpr(tm);
      r := if rest.None? then None else Some(Or(andExpr.value, rest.value));
    }

    method ParseAndExpr(tm: bool) returns (r: Option<Expr>)
      requires Ready()
      modifies this`at
      ensures Matches(r, tokens, at, G.ParseAnd(names, tm, old(tokens[at..])))
      ensures r.Some? ==> Ready() && old(at) < at
      decreases |tokens| - at, 1
    {
      var factor := ParseFactor(tm);
      if factor.None? { return None; }
      var isAnd := CheckToken(TAnd);
      if !isAnd { return factor; }
      var rest := ParseAndExpr(tm);
      r := if rest.None? then None else Some(And(factor.value, rest.value));
    }

    method ParseFactor(tm: bool) returns (r: Option<Expr>)
      requires Ready()
      modifies this`at
      ensures Matches(r, tokens, at, G.ParseFactor(names, tm, old(tokens[at..])))
      ensures r.Some? ==> Ready() && old(at) < at
      decreases |tokens| - at, 0
    {
      var token := tokens[at];
      at := at + 1;
      if token.TSym? {
        if !tokens[at].TRel? {
          if tm && token.id == names.m {
            return Some(And(Sym(names.m), Sym(names.modules)));
          }
          return Some(Sym(token.id));
        }
        at := at + 1;
        var rel := tokens[at - 1].rel;
        var rhs := ExpectSym();
        r := if rhs.None? then None else Some(Rel(rel, token.id, rhs.value));
        return;
      }
      if token.TNot? {
        var operand := ParseFactor(tm);
        r := if operand.None? then None else Some(Not(operand.value));
        return;
      }
      if token.TOpen? {
        var inner := ParseExpr(tm);
        if inner.Some? {
          var closed := CheckToken(TClose);
          if closed { return inner; }
        }
      }
      return None;
    }

    /** A condition that takes up the whole rest of the line. Whatever the symbols are worth, the expression is worth
        what the text is. */
    method ExpectExprAndEol() returns (r: Option<Expr>)
      requires Ready() && forall i :: 0 <= i < |tokens| - 1 ==> tokens[i] != End
      modifies this`at
      ensures r.Some? <==> exists t: OrText :: old(tokens[at..]) == OrTokens(t) + [End]
      ensures forall t: OrText :: old(tokens[at..]) == OrTokens(t) + [End] ==> r == Some(TransformM(names, OrTree(t)))
      ensures forall t: OrText, ty: Typing, env: Env ::
                old(tokens[at..]) == OrTokens(t) + [End] && Constants(names, ty, env) && InRange(OrTree(t), |env|) ==>
                r.Some? && InRange(r.value, |env|) && Meaning(ty, env, r.value) == OrWorth(names, ty, env, true, t)
    {
      ghost var ahead := tokens[at..];
      r := ParseExpr(true);
      ConditionIsTransformed(names, ahead);
      if r.Some? && tokens[at] != End {
        r := None;
      }
      forall t: OrText | ahead == OrTokens(t) + [End] ensures r == Some(TransformM(names, OrTree(t))) {
        TextIsParsed(names, t, ahead, [End]);
      }
      forall t: OrText, ty: Typing, env: Env |
        ahead == OrTokens(t) + [End] && Constants(names, ty, env) && InRange(OrTree(t), |env|)
        ensures r.Some? && InRange(r.value, |env|) && Meaning(ty, env, r.value) == OrWorth(names, ty, env, true, t)
      {
        TreeIsWorth(names, ty, env, t);
      }
      if r.Some? {
        ghost var t := ParsedIsText(names, ahead);
        assert tokens[at..] == [End];
      }
    }
  }
}
