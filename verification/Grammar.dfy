/** The grammar of values (lib/sql/parser.y) with its precedence declarations written out as tiers,
    and that the parser accepts exactly its sentences and gives the trees they derive. */
module Grammar {
  import opened Rows
  import opened Seqs
  import opened Ast
  import opened Lexer
  import opened Parser

  /** The operator that a token stands for. */
  ghost predicate Means(t: Token, op: BinaryOperator) {
    match t
    case Plus => op == PlusOp
    case Minus => op == MinusOp
    case Mul => op == MulOp
    case Div => op == DivOp
    case Le => op == LeOp
    case Ge => op == GeOp
    case Lt => op == LtOp
    case Gt => op == GtOp
    case _ => false
  }

  /** Products bind tighter than sums, and sums tighter than comparisons. */
  ghost function Tier(t: Token): nat {
    if t in {Mul, Div} then 3 else if t in {Plus, Minus} then 2 else if t in {Le, Ge, Lt, Gt} then 1 else 0
  }

  /** The tokens of a literal: a name, with or without quotes, or a number with or without a sign. */
  ghost predicate Literal(ts: seq<Token>, e: Expr) {
    match e
    case NumberLiteral(i) => ts == [Num(i)] || ts == [Minus, Num(-i)]
    case StringLiteral(s) => ts == [Name(s)] || ts == [Quotes, Name(s), Quotes]
    case Binary(_, _, _) => false
  }

  /** The tokens derive the expression, whose operators outside parentheses have at least the given
      tier: a literal, an expression in parentheses, or two operands and an operator that associates
      to the left. */
  ghost predicate Derives(ts: seq<Token>, e: Expr, tier: nat)
    decreases |ts|, 1
  {
    Literal(ts, e) || Enclosed(ts, e) || exists i :: Applied(ts, e, tier, i)
  }

  ghost predicate Enclosed(ts: seq<Token>, e: Expr)
    decreases |ts|, 0
  {
    |ts| >= 2 && ts[0] == LPar && ts[|ts| - 1] == RPar && Derives(ts[1..|ts| - 1], e, 1)
  }

  /** Token i is the operator that is applied last. */
  ghost predicate Applied(ts: seq<Token>, e: Expr, tier: nat, i: int)
    decreases |ts|, 0
  {
    0 <= i < |ts| && e.Binary? && Means(ts[i], e.op) && tier <= Tier(ts[i]) &&
    Derives(ts[..i], e.lhs, Tier(ts[i])) && Derives(ts[i + 1..], e.rhs, Tier(ts[i]) + 1)
  }

  /** A whole input: a value, with or without a line end. */
  ghost predicate Sentence(ts: seq<Token>, e: Expr) {
    Derives(ts, e, 1) || (ts != [] && ts[|ts| - 1] == Eol && Derives(ts[..|ts| - 1], e, 1))
  }

  lemma InParentheses(ts: seq<Token>, e: Expr, tier: nat)
    requires Derives(ts, e, 1)
    ensures Derives([LPar] + ts + [RPar], e, tier)
  {
    var us := [LPar] + ts + [RPar];
    assert us[1..|us| - 1] == ts;
    assert Enclosed(us, e);
  }

  lemma Joined(l: seq<Token>, x: Expr, t: Token, op: BinaryOperator, r: seq<Token>, y: Expr, tier: nat)
    requires Derives(l, x, Tier(t)) && Derives(r, y, Tier(t) + 1) && Means(t, op) && tier <= Tier(t)
    ensures Derives(l + [t] + r, Binary(op, x, y), tier)
  {
    var ts := l + [t] + r;
    assert ts[..|l|] == l && ts[|l|] == t && ts[|l| + 1..] == r;
    assert Applied(ts, Binary(op, x, y), tier, |l|);
  }

  lemma TierIsPrecedence(t: Token)
    ensures Tier(t) == Precedence(t)
  {
  }

  lemma MeansToken(t: Token, op: BinaryOperator)
    requires Means(t, op)
    ensures Lexable(op) && OperatorToken(op) == t && Tier(t) > 0
  {
  }

  lemma TokenMeans(t: Token)
    requires Precedence(t) > 0
    ensures Means(t, OperatorOf(t))
  {
  }

  // ----- Every sentence is parsed -----

  lemma NumberRead(stack: seq<Symbol>, p: nat, n: int, rest: seq<Token>)
    requires Open(stack, p)
    ensures ParseFrom(stack, [Num(n)] + rest) == ParseFrom(stack + [Val(NumberLiteral(n))], rest)
  {
    hide ParseFrom;
    var s := stack + [Tok(Num(n))];
    Shift(stack, Num(n), rest);
    assert s[..|s| - 1] == stack;
    Due(s, rest, stack + [Val(NumberLiteral(n))]);
  }

  lemma SignedRead(stack: seq<Symbol>, p: nat, n: int, rest: seq<Token>)
    requires Open(stack, p)
    ensures ParseFrom(stack, [Minus, Num(n)] + rest) == ParseFrom(stack + [Val(NumberLiteral(-n))], rest)
  {
    hide ParseFrom;
    Shift(stack, Minus, [Num(n)] + rest);
    assert [Minus, Num(n)] + rest == [Minus] + ([Num(n)] + rest);
    Shift(stack + [Tok(Minus)], Num(n), rest);
    var t := stack + [Tok(Minus)] + [Tok(Num(n))];
    assert t[..|t| - 2] == stack;
    Due(t, rest, stack + [Val(NumberLiteral(-n))]);
  }

  lemma LiteralRead(stack: seq<Symbol>, p: nat, ts: seq<Token>, e: Expr, rest: seq<Token>)
    requires Open(stack, p) && Literal(ts, e)
    ensures ParseFrom(stack, ts + rest) == ParseFrom(stack + [Val(e)], rest)
  {
    hide ParseFrom, Open;
    match e
    case NumberLiteral(i) =>
      NumberRead(stack, p, i, rest);
      SignedRead(stack, p, -i, rest);
    case StringLiteral(s) =>
      NameRead(stack, p, s, rest);
      StringRead(stack, p, s, rest);
  }

  /** Tokens that derive an expression leave it on the stack. */
  lemma {:induction false} DerivedRead(stack: seq<Symbol>, p: nat, ts: seq<Token>, e: Expr, tier: nat, rest: seq<Token>)
    requires Open(stack, p) && Derives(ts, e, tier) && p < tier && Precedence(Lookahead(rest)) <= tier
    ensures ParseFrom(stack, ts + rest) == ParseFrom(stack + [Val(e)], rest)
    decreases |ts|, 1
  {
    hide ParseFrom, Reduce, Open, Precedence;
    if Literal(ts, e) {
      LiteralRead(stack, p, ts, e, rest);
    } else if Enclosed(ts, e) {
      EnclosedRead(stack, p, ts, e, rest);
    } else {
      var i :| Applied(ts, e, tier, i);
      AppliedRead(stack, p, ts, e, tier, i, rest);
    }
  }

  lemma {:induction false} EnclosedRead(stack: seq<Symbol>, p: nat, ts: seq<Token>, e: Expr, rest: seq<Token>)
    requires Open(stack, p) && Enclosed(ts, e)
    ensures ParseFrom(stack, ts + rest) == ParseFrom(stack + [Val(e)], rest)
    decreases |ts|, 0
  {
    hide ParseFrom, Reduce, Derives, Open;
    var inner := ts[1..|ts| - 1];
    assert ts == [LPar] + inner + [RPar];
    assert Precedence(Lookahead([RPar] + rest)) == 0;
    hide Enclosed, Precedence, Lookahead;
    OpenParenthesis(stack, p, inner + ([RPar] + rest));
    DerivedRead(stack + [Tok(LPar)], 0, inner, e, 1, [RPar] + rest);
    CloseParenthesis(stack, e, rest);
    assert ts + rest == [LPar] + (inner + ([RPar] + rest));
  }

  lemma {:induction false} AppliedRead(stack: seq<Symbol>, p: nat, ts: seq<Token>, e: Expr, tier: nat, i: int, rest: seq<Token>)
    requires Open(stack, p) && Applied(ts, e, tier, i) && p < tier && Precedence(Lookahead(rest)) <= tier
    ensures ParseFrom(stack, ts + rest) == ParseFrom(stack + [Val(e)], rest)
    decreases |ts|, 0
  {
    hide ParseFrom, Reduce, Open, Precedence, Derives, Tier;
    var l, t, r := ts[..i], ts[i], ts[i + 1..];
    MeansToken(t, e.op);
    TierIsPrecedence(t);
    hide Means;
    DerivedRead(stack, p, l, e.lhs, Tier(t), [t] + (r + rest));
    OperatorRead(stack, p, e.lhs, e.op, r + rest);
    DerivedRead(stack + [Val(e.lhs)] + [Tok(t)], Tier(t), r, e.rhs, Tier(t) + 1, rest);
    BinaryReduced(stack, e.lhs, e.op, e.rhs, rest);
    assert ts + rest == l + ([t] + (r + rest));
  }

  lemma SentenceParses(ts: seq<Token>, e: Expr)
    requires Sentence(ts, e)
    ensures Parse(ts) == Some(e)
  {
    hide ParseFrom, Derives;
    ValueAccepted(e);
    assert [] + [Val(e)] == [Val(e)];
    if Derives(ts, e, 1) {
      DerivedRead([], 0, ts, e, 1, []);
      assert ts + [] == ts;
    } else {
      DerivedRead([], 0, ts[..|ts| - 1], e, 1, [Eol]);
      assert ts[..|ts| - 1] + [Eol] == ts;
    }
  }

  // ----- Only sentences are parsed -----

  /** Symbol i is an operator between two operands. */
  ghost predicate Infix(stack: seq<Symbol>, i: int) {
    1 <= i < |stack| && stack[i].Tok? && Tier(stack[i].t) > 0 && stack[i - 1].Val?
  }

  /** What the tokens y of symbol i derive: one token, or a value of the tiers that the operators on
      both sides call for. */
  ghost predicate Stands(stack: seq<Symbol>, y: seq<Token>, i: nat, lookahead: Token)
    requires i < |stack|
  {
    match stack[i]
    case Tok(t) => y == [t]
    case Val(e) =>
      Derives(y, e, 1) && (Infix(stack, i - 1) ==> Derives(y, e, Tier(stack[i - 1].t) + 1)) &&
      (if i + 1 == |stack| then Derives(y, e, Tier(lookahead)) else stack[i + 1].Tok? ==> Derives(y, e, Tier(stack[i + 1].t)))
  }

  /** The tokens read so far, symbol by symbol; operators that wait bind tighter and tighter. */
  ghost predicate Held(stack: seq<Symbol>, ys: seq<seq<Token>>, lookahead: Token) {
    |ys| == |stack| && (forall i :: 0 <= i < |stack| ==> Stands(stack, ys[i], i, lookahead)) &&
    forall i :: Infix(stack, i) && Infix(stack, i - 2) ==> Tier(stack[i - 2].t) < Tier(stack[i].t)
  }

  lemma TopReplaced(stack: seq<Symbol>, ys: seq<seq<Token>>, lookahead: Token, k: nat, e: Expr, y: seq<Token>)
    requires Held(stack, ys, lookahead) && 1 <= k <= |stack|
    requires Derives(y, e, 1) && Derives(y, e, Tier(lookahead))
    requires var i := |stack| - k - 1; Infix(stack, i) ==> Derives(y, e, Tier(stack[i].t) + 1)
    ensures Held(stack[..|stack| - k] + [Val(e)], ys[..|stack| - k] + [y], lookahead)
  {
    hide Derives, Tier;
    var n := |stack| - k;
    var s, zs := stack[..n] + [Val(e)], ys[..n] + [y];
    assert forall i :: Infix(s, i) ==> i < n && Infix(stack, i);
    forall i | 0 <= i < |s| ensures Stands(s, zs[i], i, lookahead) {
      if i < n {
        assert Stands(stack, ys[i], i, lookahead);
      }
    }
  }

  lemma Regrouped(ys: seq<seq<Token>>, k: nat, y: seq<Token>)
    requires k <= |ys| && y == Flatten(ys[|ys| - k..])
    ensures Flatten(ys[..|ys| - k] + [y]) == Flatten(ys)
  {
    Three(y, y, y);
    hide Flatten;
    FlattenConcat(ys[..|ys| - k], [y]);
    FlattenConcat(ys[..|ys| - k], ys[|ys| - k..]);
    assert ys == ys[..|ys| - k] + ys[|ys| - k..];
  }

  lemma Three<T>(a: seq<T>, b: seq<T>, c: seq<T>)
    ensures Flatten([a, b, c]) == a + b + c && Flatten([b, c]) == b + c && Flatten([c]) == c
  {
    assert [a, b, c][1..] == [b, c] && [b, c][1..] == [c];
    assert Flatten([c]) == c + Flatten([]) == c;
    assert Flatten([b, c]) == b + c;
    assert a + (b + c) == a + b + c;
  }

  /** What the topmost k symbols derive when they are replaced. */
  lemma HeldTop(stack: seq<Symbol>, ys: seq<seq<Token>>, lookahead: Token, k: nat, e: Expr, y: seq<Token>)
    requires Held(stack, ys, lookahead) && 1 <= k <= |stack| == |ys| && y == Flatten(ys[|stack| - k..])
    requires forall tier :: Derives(y, e, tier)
    ensures var s, zs := stack[..|stack| - k] + [Val(e)], ys[..|stack| - k] + [y];
            Held(s, zs, lookahead) && Flatten(zs) == Flatten(ys)
  {
    hide Derives, Flatten, Held;
    TopReplaced(stack, ys, lookahead, k, e, y);
    Regrouped(ys, k, y);
  }

  lemma HeldSymbols(stack: seq<Symbol>, ys: seq<seq<Token>>, lookahead: Token, i: nat)
    requires Held(stack, ys, lookahead) && i < |stack|
    ensures |ys| == |stack| && Stands(stack, ys[i], i, lookahead)
  {
  }

  /** A literal, or an expression in parentheses, derives at every tier. */
  lemma LiteralTop(stack: seq<Symbol>, ys: seq<seq<Token>>, lookahead: Token, k: nat, e: Expr, y: seq<Token>)
    requires Held(stack, ys, lookahead) && 1 <= k <= |stack| == |ys| && y == Flatten(ys[|stack| - k..])
    requires Literal(y, e) || Enclosed(y, e)
    ensures var s, zs := stack[..|stack| - k] + [Val(e)], ys[..|stack| - k] + [y];
            Held(s, zs, lookahead) && Flatten(zs) == Flatten(ys)
  {
    hide Held, Literal, Enclosed, Flatten;
    assert forall tier :: Derives(y, e, tier);
    HeldTop(stack, ys, lookahead, k, e, y);
  }

  /** Two operands and their operator: the left one is of the operator's tier, the right one above
      it, and what waits before is below it. */
  lemma OperatorTop(stack: seq<Symbol>, ys: seq<seq<Token>>, lookahead: Token)
    requires Held(stack, ys, lookahead) && |stack| == |ys|
    requires var n := |stack|; n >= 3 && stack[n - 1].Val? && Infix(stack, n - 2) && Tier(lookahead) <= Tier(stack[n - 2].t)
    ensures var n := |stack|;
            var e := Binary(OperatorOf(stack[n - 2].t), stack[n - 3].e, stack[n - 1].e);
            var s, y := stack[..n - 3] + [Val(e)], ys[n - 3] + ys[n - 2] + ys[n - 1];
            Held(s, ys[..n - 3] + [y], lookahead) && Flatten(ys[..n - 3] + [y]) == Flatten(ys)
  {
    hide Derives, Means, Tier, Held, Flatten, OperatorOf, Precedence, Stands;
    var n := |stack|;
    var t := stack[n - 2].t;
    OperandsHeld(stack, ys, lookahead);
    TierIsPrecedence(t);
    TokenMeans(t);
    var e, y := Binary(OperatorOf(t), stack[n - 3].e, stack[n - 1].e), ys[n - 3] + ys[n - 2] + ys[n - 1];
    Joined(ys[n - 3], stack[n - 3].e, t, OperatorOf(t), ys[n - 1], stack[n - 1].e, 1);
    Joined(ys[n - 3], stack[n - 3].e, t, OperatorOf(t), ys[n - 1], stack[n - 1].e, Tier(lookahead));
    if Infix(stack, n - 4) {
      Joined(ys[n - 3], stack[n - 3].e, t, OperatorOf(t), ys[n - 1], stack[n - 1].e, Tier(stack[n - 4].t) + 1);
    }
    TopReplaced(stack, ys, lookahead, 3, e, y);
    LastFlattened(ys);
    Regrouped(ys, 3, y);
  }

  lemma OperandsHeld(stack: seq<Symbol>, ys: seq<seq<Token>>, lookahead: Token)
    requires Held(stack, ys, lookahead)
    requires var n := |stack|; n >= 3 && stack[n - 1].Val? && Infix(stack, n - 2)
    ensures var n, t := |stack|, stack[|stack| - 2].t;
            |ys| == n && ys[n - 2] == [t] && Tier(t) > 0 && stack[n - 3].Val? &&
            Derives(ys[n - 3], stack[n - 3].e, Tier(t)) && Derives(ys[n - 1], stack[n - 1].e, Tier(t) + 1) &&
            (Infix(stack, n - 4) ==> Tier(stack[n - 4].t) < Tier(t))
  {
    hide Derives, Tier;
    HeldSymbols(stack, ys, lookahead, |stack| - 1);
    HeldSymbols(stack, ys, lookahead, |stack| - 2);
    HeldSymbols(stack, ys, lookahead, |stack| - 3);
  }

  /** The last lists flattened. */
  lemma LastFlattened<T>(ys: seq<seq<T>>)
    ensures var n := |ys|;
            (n >= 1 ==> Flatten(ys[n - 1..]) == ys[n - 1]) && (n >= 2 ==> Flatten(ys[n - 2..]) == ys[n - 2] + ys[n - 1]) &&
            (n >= 3 ==> Flatten(ys[n - 3..]) == ys[n - 3] + ys[n - 2] + ys[n - 1])
  {
    hide Flatten;
    var n := |ys|;
    if n >= 1 {
      assert ys[n - 1..] == [ys[n - 1]];
      Three(ys[n - 1], ys[n - 1], ys[n - 1]);
    }
    if n >= 2 {
      assert ys[n - 2..] == [ys[n - 2], ys[n - 1]];
      Three(ys[n - 2], ys[n - 2], ys[n - 1]);
    }
    if n >= 3 {
      assert ys[n - 3..] == [ys[n - 3], ys[n - 2], ys[n - 1]];
      Three(ys[n - 3], ys[n - 2], ys[n - 1]);
    }
  }

  /** What is reduced at a token. */
  lemma TokenReduction(stack: seq<Symbol>, lookahead: Token)
    requires Reduce(stack, lookahead).Some?
    ensures var n, r := |stack|, Reduce(stack, lookahead).value;
            n >= 1 &&
            match stack[n - 1]
            case Val(_) => true
            case Tok(Num(_)) => true
            case Tok(Name(x)) => r == stack[..n - 1] + [Val(StringLiteral(x))]
            case Tok(Quotes) =>
              n >= 3 && stack[n - 2].Tok? && stack[n - 2].t.Name? && stack[n - 3] == Tok(Quotes) &&
              r == stack[..n - 3] + [Val(StringLiteral(stack[n - 2].t.s))]
            case Tok(RPar) =>
              n >= 3 && stack[n - 2].Val? && stack[n - 3] == Tok(LPar) && r == stack[..n - 3] + [Val(stack[n - 2].e)]
            case _ => false
  {
  }

  /** A reduction keeps what the symbols stand for. */
  lemma ReduceHeld(stack: seq<Symbol>, ys: seq<seq<Token>>, lookahead: Token) returns (zs: seq<seq<Token>>)
    requires Held(stack, ys, lookahead) && Reduce(stack, lookahead).Some?
    ensures Held(Reduce(stack, lookahead).value, zs, lookahead) && Flatten(zs) == Flatten(ys)
  {
    hide Derives, Flatten, Held, Infix, Enclosed, Tier, Reduce;
    TokenReduction(stack, lookahead);
    var n := |stack|;
    HeldSymbols(stack, ys, lookahead, n - 1);
    hide Stands;
    match stack[n - 1]
    case Val(_) => zs := ValueReduced(stack, ys, lookahead);
    case Tok(Num(i)) => zs := NumberReduced(stack, ys, lookahead, i);
    case Tok(Name(x)) => zs := NameReduced(stack, ys, lookahead, x);
    case Tok(Quotes) => zs := QuotesReduced(stack, ys, lookahead);
    case Tok(RPar) => zs := ParenthesesReduced(stack, ys, lookahead);
  }

  lemma NameReduced(stack: seq<Symbol>, ys: seq<seq<Token>>, lookahead: Token, x: Text) returns (zs: seq<seq<Token>>)
    requires Held(stack, ys, lookahead) && |stack| >= 1 && stack[|stack| - 1] == Tok(Name(x))
    ensures Held(stack[..|stack| - 1] + [Val(StringLiteral(x))], zs, lookahead) && Flatten(zs) == Flatten(ys)
  {
    hide Derives, Flatten, Held, Infix, Enclosed, Tier;
    HeldSymbols(stack, ys, lookahead, |stack| - 1);
    hide Stands;
    zs := LiteralReduced(stack, ys, lookahead, StringLiteral(x));
  }

  lemma QuotesReduced(stack: seq<Symbol>, ys: seq<seq<Token>>, lookahead: Token) returns (zs: seq<seq<Token>>)
    requires Held(stack, ys, lookahead) && |stack| >= 3
    requires var n := |stack|;
             stack[n - 1] == stack[n - 3] == Tok(Quotes) && stack[n - 2].Tok? && stack[n - 2].t.Name?
    ensures Held(stack[..|stack| - 3] + [Val(StringLiteral(stack[|stack| - 2].t.s))], zs, lookahead)
    ensures Flatten(zs) == Flatten(ys)
  {
    hide Derives, Flatten, Held, Infix, Enclosed, Tier;
    var n := |stack|;
    HeldSymbols(stack, ys, lookahead, n - 1);
    HeldSymbols(stack, ys, lookahead, n - 2);
    HeldSymbols(stack, ys, lookahead, n - 3);
    hide Stands;
    LastFlattened(ys);
    var y, e := ys[n - 3] + ys[n - 2] + ys[n - 1], StringLiteral(stack[n - 2].t.s);
    assert Literal(y, e);
    hide Literal;
    LiteralTop(stack, ys, lookahead, 3, e, y);
    zs := ys[..n - 3] + [y];
  }

  lemma NumberReduced(stack: seq<Symbol>, ys: seq<seq<Token>>, lookahead: Token, i: int) returns (zs: seq<seq<Token>>)
    requires Held(stack, ys, lookahead) && |stack| >= 1 && stack[|stack| - 1] == Tok(Num(i))
    ensures Held(Reduce(stack, lookahead).value, zs, lookahead) && Flatten(zs) == Flatten(ys)
  {
    hide Derives, Flatten, Held, Infix, Enclosed, Tier, Reduce;
    var n := |stack|;
    NumberReduction(stack, lookahead, i);
    HeldSymbols(stack, ys, lookahead, n - 1);
    hide Stands;
    if n >= 2 && stack[n - 2] == Tok(Minus) && !(n >= 3 && stack[n - 3].Val?) {
      zs := SignReduced(stack, ys, lookahead, i);
    } else {
      zs := LiteralReduced(stack, ys, lookahead, NumberLiteral(i));
    }
  }

  lemma LiteralReduced(stack: seq<Symbol>, ys: seq<seq<Token>>, lookahead: Token, e: Expr) returns (zs: seq<seq<Token>>)
    requires Held(stack, ys, lookahead) && 1 <= |stack| == |ys| && Literal(ys[|stack| - 1], e)
    ensures Held(stack[..|stack| - 1] + [Val(e)], zs, lookahead) && Flatten(zs) == Flatten(ys)
  {
    hide Derives, Flatten, Held, Infix, Enclosed, Tier, Literal, Stands;
    LastFlattened(ys);
    LiteralTop(stack, ys, lookahead, 1, e, ys[|stack| - 1]);
    zs := ys[..|stack| - 1] + [ys[|stack| - 1]];
  }

  lemma NumberReduction(stack: seq<Symbol>, lookahead: Token, i: int)
    requires |stack| >= 1 && stack[|stack| - 1] == Tok(Num(i))
    ensures var n := |stack|;
            Reduce(stack, lookahead) ==
            Some(if n >= 2 && stack[n - 2] == Tok(Minus) && !(n >= 3 && stack[n - 3].Val?)
                 then stack[..n - 2] + [Val(NumberLiteral(-i))] else stack[..n - 1] + [Val(NumberLiteral(i))])
  {
  }

  lemma SignReduced(stack: seq<Symbol>, ys: seq<seq<Token>>, lookahead: Token, i: int) returns (zs: seq<seq<Token>>)
    requires Held(stack, ys, lookahead) && |stack| >= 2
    requires stack[|stack| - 1] == Tok(Num(i)) && stack[|stack| - 2] == Tok(Minus)
    ensures Held(stack[..|stack| - 2] + [Val(NumberLiteral(-i))], zs, lookahead) && Flatten(zs) == Flatten(ys)
  {
    hide Derives, Flatten, Held, Infix, Enclosed, Tier;
    var n := |stack|;
    HeldSymbols(stack, ys, lookahead, n - 1);
    HeldSymbols(stack, ys, lookahead, n - 2);
    hide Stands;
    LastFlattened(ys);
    var y := ys[n - 2] + ys[n - 1];
    assert y == [Minus, Num(-(-i))];
    LiteralTop(stack, ys, lookahead, 2, NumberLiteral(-i), y);
    zs := ys[..n - 2] + [y];
  }

  lemma ParenthesesReduced(stack: seq<Symbol>, ys: seq<seq<Token>>, lookahead: Token) returns (zs: seq<seq<Token>>)
    requires Held(stack, ys, lookahead) && |stack| >= 3
    requires var n := |stack|; stack[n - 1] == Tok(RPar) && stack[n - 2].Val? && stack[n - 3] == Tok(LPar)
    ensures Held(stack[..|stack| - 3] + [Val(stack[|stack| - 2].e)], zs, lookahead) && Flatten(zs) == Flatten(ys)
  {
    hide Derives, Flatten, Held, Infix, Tier, Literal;
    var n := |stack|;
    HeldSymbols(stack, ys, lookahead, n - 1);
    HeldSymbols(stack, ys, lookahead, n - 2);
    HeldSymbols(stack, ys, lookahead, n - 3);
    hide Stands;
    LastFlattened(ys);
    var inner, e := ys[n - 2], stack[n - 2].e;
    var y := ys[n - 3] + inner + ys[n - 1];
    assert y[1..|y| - 1] == inner;
    LiteralTop(stack, ys, lookahead, 3, e, y);
    zs := ys[..n - 3] + [y];
  }

  lemma ValueReduced(stack: seq<Symbol>, ys: seq<seq<Token>>, lookahead: Token) returns (zs: seq<seq<Token>>)
    requires Held(stack, ys, lookahead) && |stack| >= 1 && stack[|stack| - 1].Val? && Reduce(stack, lookahead).Some?
    ensures Held(Reduce(stack, lookahead).value, zs, lookahead) && Flatten(zs) == Flatten(ys)
  {
    var n := |stack|;
    LastFlattened(ys);
    TierIsPrecedence(stack[n - 2].t);
    TierIsPrecedence(lookahead);
    hide Held, Flatten, Tier;
    OperatorTop(stack, ys, lookahead);
    zs := ys[..n - 3] + [ys[n - 3] + ys[n - 2] + ys[n - 1]];
  }

  /** Where no reduction is due, the next operator binds tighter than the one that waits. */
  lemma NotDue(stack: seq<Symbol>, t: Token)
    requires Reduce(stack, t).None? && |stack| >= 1 && stack[|stack| - 1].Val? && Infix(stack, |stack| - 2)
    ensures Tier(stack[|stack| - 2].t) < Tier(t)
  {
    TierIsPrecedence(stack[|stack| - 2].t);
    TierIsPrecedence(t);
    hide Tier;
  }

  /** A shift keeps it too. */
  lemma ShiftHeld(stack: seq<Symbol>, ys: seq<seq<Token>>, t: Token, next: Token)
    requires Held(stack, ys, t) && Reduce(stack, t).None?
    ensures Held(stack + [Tok(t)], ys + [[t]], next) && Flatten(ys + [[t]]) == Flatten(ys) + [t]
  {
    hide Derives, Flatten, Reduce, Tier;
    var n := |stack|;
    var s, zs := stack + [Tok(t)], ys + [[t]];
    FlattenConcat(ys, [[t]]);
    Three([t], [t], [t]);
    assert forall i :: Infix(s, i) && i < n ==> Infix(stack, i);
    forall i | 0 <= i < |s| ensures Stands(s, zs[i], i, next) {
      if i < n {
        HeldSymbols(stack, ys, t, i);
      }
    }
    if Infix(s, n) && Infix(s, n - 2) {
      NotDue(stack, t);
    }
  }

  /** What is parsed with symbols on the stack derives from their tokens and the rest. */
  lemma {:induction false} ParsedDerives(stack: seq<Symbol>, ys: seq<seq<Token>>, ts: seq<Token>)
    requires Held(stack, ys, Lookahead(ts))
    ensures var r := ParseFrom(stack, ts); r.Some? ==> Sentence(Flatten(ys) + ts, r.value)
    decreases |ts|, Weight(stack)
  {
    hide Held, Sentence, Flatten, Reduce, Weight;
    var reduced := Reduce(stack, Lookahead(ts));
    if reduced.Some? {
      var zs := ReduceHeld(stack, ys, Lookahead(ts));
      ParsedDerives(reduced.value, zs, ts);
    } else if ts != [] {
      ShiftHeld(stack, ys, ts[0], Lookahead(ts[1..]));
      ParsedDerives(stack + [Tok(ts[0])], ys + [[ts[0]]], ts[1..]);
      assert Flatten(ys) + [ts[0]] + ts[1..] == Flatten(ys) + ts;
    } else if ParseFrom(stack, ts).Some? {
      Accepted(stack, ys);
      assert Flatten(ys) + [] == Flatten(ys);
    }
  }

  lemma Accepted(stack: seq<Symbol>, ys: seq<seq<Token>>)
    requires Held(stack, ys, End) && |stack| >= 1 && stack[0].Val? && (|stack| == 1 || stack[1..] == [Tok(Eol)])
    ensures Sentence(Flatten(ys), stack[0].e)
  {
    hide Derives, Flatten;
    HeldSymbols(stack, ys, End, 0);
    Three(ys[0], [Eol], []);
    if |stack| == 1 {
      Three([], [], ys[0]);
      assert ys == [ys[0]];
    } else {
      assert stack[1] == stack[1..][0];
      HeldSymbols(stack, ys, End, 1);
      assert ys == [ys[0], [Eol]];
      Three([], ys[0], [Eol]);
      assert (ys[0] + [Eol])[..|ys[0]|] == ys[0];
    }
  }

  /** The parser accepts exactly the sentences of the grammar, each with the tree that it derives. */
  lemma ParsesSentences(ts: seq<Token>, e: Expr)
    ensures Parse(ts) == Some(e) <==> Sentence(ts, e)
  {
    hide Sentence, ParseFrom;
    if Sentence(ts, e) {
      SentenceParses(ts, e);
    }
    if Parse(ts) == Some(e) {
      assert Held([], [], Lookahead(ts));
      ParsedDerives([], [], ts);
      assert Flatten([]) + ts == ts;
    }
  }
}
