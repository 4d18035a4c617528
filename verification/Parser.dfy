/** The grammar of values (lib/sql/parser.y) as the shift-reduce parser that its precedence
    declarations make of it. */
module Parser {
  import opened Rows
  import opened Ast
  import opened Lexer

  datatype Symbol = Tok(t: Token) | Val(e: Expr)

  /** The three %left declarations, the later binding tighter; 0 for tokens that are no operators. */
  function Precedence(t: Token): nat {
    match t
    case Le | Ge | Lt | Gt => 1
    case Plus | Minus => 2
    case Mul | Div => 3
    case _ => 0
  }

  function OperatorOf(t: Token): BinaryOperator
    requires Precedence(t) > 0
  {
    match t
    case Plus => PlusOp
    case Minus => MinusOp
    case Mul => MulOp
    case Div => DivOp
    case Le => LeOp
    case Ge => GeOp
    case Lt => LtOp
    case _ => GtOp
  }

  // ----- The automaton -----

  function Weight(stack: seq<Symbol>): nat {
    if |stack| == 0 then 0 else Weight(stack[..|stack| - 1]) + if stack[|stack| - 1].Tok? then 2 else 1
  }

  /** The stack after the reduction that is due before the lookahead is shifted, if any. Of two
      operators the one that binds tighter comes first, of equal ones the left one. */
  function Reduce(stack: seq<Symbol>, lookahead: Token): (r: Option<seq<Symbol>>)
    ensures r.Some? ==> Weight(r.value) < Weight(stack)
  {
    var n := |stack|;
    if n == 0 then None
    else
      match stack[n - 1]
      case Tok(Num(i)) =>
        if n >= 2 && stack[n - 2] == Tok(Minus) && !(n >= 3 && stack[n - 3].Val?) then
          Replaced(stack, 2, NumberLiteral(-i))
        else Replaced(stack, 1, NumberLiteral(i))
      case Tok(Name(s)) =>
        if n >= 2 && stack[n - 2] == Tok(Quotes) then None else Replaced(stack, 1, StringLiteral(s))
      case Tok(Quotes) =>
        if n >= 3 && stack[n - 2].Tok? && stack[n - 2].t.Name? && stack[n - 3] == Tok(Quotes) then
          Replaced(stack, 3, StringLiteral(stack[n - 2].t.s))
        else None
      case Tok(RPar) =>
        if n >= 3 && stack[n - 2].Val? && stack[n - 3] == Tok(LPar) then Replaced(stack, 3, stack[n - 2].e) else None
      case Val(rhs) =>
        if n >= 3 && stack[n - 2].Tok? && Precedence(stack[n - 2].t) > 0 && stack[n - 3].Val?
           && Precedence(lookahead) <= Precedence(stack[n - 2].t) then
          Replaced(stack, 3, Binary(OperatorOf(stack[n - 2].t), stack[n - 3].e, rhs))
        else None
      case _ => None
  }

  /** The topmost k symbols replaced by a value. */
  function Replaced(stack: seq<Symbol>, k: nat, e: Expr): (r: Option<seq<Symbol>>)
    requires 1 <= k <= |stack| && (k == 1 ==> stack[|stack| - 1].Tok?)
    ensures r == Some(stack[..|stack| - k] + [Val(e)]) && Weight(r.value) < Weight(stack)
  {
    WeightExtend(stack[..|stack| - k], Val(e));
    WeightPrefix(stack, k);
    Some(stack[..|stack| - k] + [Val(e)])
  }

  lemma WeightExtend(stack: seq<Symbol>, s: Symbol)
    ensures Weight(stack + [s]) == Weight(stack) + if s.Tok? then 2 else 1
  {
    assert (stack + [s])[..|stack|] == stack;
  }

  lemma {:induction false} WeightPrefix(stack: seq<Symbol>, k: nat)
    requires 1 <= k <= |stack|
    ensures Weight(stack) >= Weight(stack[..|stack| - k]) + k
    ensures stack[|stack| - 1].Tok? ==> Weight(stack) > Weight(stack[..|stack| - k]) + k
    decreases k
  {
    var init := stack[..|stack| - 1];
    if k > 1 {
      WeightPrefix(init, k - 1);
      assert init[..|init| - (k - 1)] == stack[..|stack| - k];
    }
  }

  function Lookahead(ts: seq<Token>): Token {
    if ts == [] then End else ts[0]
  }

  /** Reductions while one is due, otherwise shifts; a value, with or without a line end, is accepted. */
  function ParseFrom(stack: seq<Symbol>, ts: seq<Token>): Option<Expr>
    decreases |ts|, Weight(stack)
  {
    var reduced := Reduce(stack, Lookahead(ts));
    if reduced.Some? then ParseFrom(reduced.value, ts)
    else if ts != [] then ParseFrom(stack + [Tok(ts[0])], ts[1..])
    else if |stack| >= 1 && stack[0].Val? && (|stack| == 1 || stack[1..] == [Tok(Eol)]) then Some(stack[0].e)
    else None
  }

  function Parse(ts: seq<Token>): Option<Expr> {
    ParseFrom([], ts)
  }

  lemma Shift(stack: seq<Symbol>, t: Token, rest: seq<Token>)
    requires Reduce(stack, t) == None
    ensures ParseFrom(stack, [t] + rest) == ParseFrom(stack + [Tok(t)], rest)
  {
    assert ([t] + rest)[1..] == rest;
  }

  lemma Due(stack: seq<Symbol>, ts: seq<Token>, next: seq<Symbol>)
    requires Reduce(stack, Lookahead(ts)) == Some(next)
    ensures ParseFrom(stack, ts) == ParseFrom(next, ts)
  {
  }

  // ----- Reading single constructs -----

  /** A value may begin here, under a pending operator of precedence p, 0 for none. */
  ghost predicate Open(stack: seq<Symbol>, p: nat) {
    var n := |stack|;
    if n == 0 || stack[n - 1] == Tok(LPar) then p == 0
    else stack[n - 1].Tok? && Precedence(stack[n - 1].t) == p > 0 && n >= 2 && stack[n - 2].Val?
  }

  lemma StringRead(stack: seq<Symbol>, p: nat, x: Text, rest: seq<Token>)
    requires Open(stack, p)
    ensures ParseFrom(stack, [Quotes, Name(x), Quotes] + rest) == ParseFrom(stack + [Val(StringLiteral(x))], rest)
  {
    hide ParseFrom;
    var s1 := stack + [Tok(Quotes)];
    var s2 := s1 + [Tok(Name(x))];
    var s3 := s2 + [Tok(Quotes)];
    Shift(stack, Quotes, [Name(x), Quotes] + rest);
    Shift(s1, Name(x), [Quotes] + rest);
    Shift(s2, Quotes, rest);
    assert [Quotes, Name(x), Quotes] + rest == [Quotes] + ([Name(x), Quotes] + rest);
    assert [Name(x), Quotes] + rest == [Name(x)] + ([Quotes] + rest);
    assert s3[..|s3| - 3] == stack;
    Due(s3, rest, stack + [Val(StringLiteral(x))]);
  }

  lemma OpenParenthesis(stack: seq<Symbol>, p: nat, rest: seq<Token>)
    requires Open(stack, p)
    ensures ParseFrom(stack, [LPar] + rest) == ParseFrom(stack + [Tok(LPar)], rest)
    ensures Open(stack + [Tok(LPar)], 0)
  {
    Shift(stack, LPar, rest);
  }

  lemma CloseParenthesis(stack: seq<Symbol>, e: Expr, rest: seq<Token>)
    ensures ParseFrom(stack + [Tok(LPar)] + [Val(e)], [RPar] + rest) == ParseFrom(stack + [Val(e)], rest)
  {
    var s := stack + [Tok(LPar)] + [Val(e)];
    var s1 := s + [Tok(RPar)];
    assert s1[..|s1| - 3] == stack;
    hide ParseFrom;
    Shift(s, RPar, rest);
    Due(s1, rest, stack + [Val(e)]);
  }

  lemma OperatorRead(stack: seq<Symbol>, p: nat, lhs: Expr, op: BinaryOperator, rest: seq<Token>)
    requires Open(stack, p) && Lexable(op) && Precedence(OperatorToken(op)) > p
    ensures var s := stack + [Val(lhs)] + [Tok(OperatorToken(op))];
            ParseFrom(stack + [Val(lhs)], [OperatorToken(op)] + rest) == ParseFrom(s, rest) &&
            Open(s, Precedence(OperatorToken(op)))
  {
    Shift(stack + [Val(lhs)], OperatorToken(op), rest);
  }

  lemma BinaryReduced(stack: seq<Symbol>, lhs: Expr, op: BinaryOperator, rhs: Expr, rest: seq<Token>)
    requires Lexable(op) && Precedence(Lookahead(rest)) <= Precedence(OperatorToken(op))
    ensures ParseFrom(stack + [Val(lhs)] + [Tok(OperatorToken(op))] + [Val(rhs)], rest)
            == ParseFrom(stack + [Val(Binary(op, lhs, rhs))], rest)
  {
    var s := stack + [Val(lhs)] + [Tok(OperatorToken(op))] + [Val(rhs)];
    assert s[..|s| - 3] == stack;
    assert OperatorOf(OperatorToken(op)) == op;
  }

  lemma ValueAccepted(r: Expr)
    ensures ParseFrom([Val(r)], []) == Some(r) && ParseFrom([Val(r)], [Eol]) == Some(r)
  {
    Shift([Val(r)], Eol, []);
    assert [Eol] + [] == [Eol] && [Val(r)] + [Tok(Eol)] == [Val(r), Tok(Eol)];
  }

  lemma NameRead(stack: seq<Symbol>, p: nat, x: Text, rest: seq<Token>)
    requires Open(stack, p)
    ensures ParseFrom(stack, [Name(x)] + rest) == ParseFrom(stack + [Val(StringLiteral(x))], rest)
  {
    hide ParseFrom;
    Shift(stack, Name(x), rest);
    var s := stack + [Tok(Name(x))];
    assert s[..|s| - 1] == stack;
    Due(s, rest, stack + [Val(StringLiteral(x))]);
  }
}
