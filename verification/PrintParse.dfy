/** Expressions as texts and back: what is written, with or without the parentheses that precedences
    spare, parses to itself, and what is printed does exactly if the scanner knows its words. */
module PrintParse {
  import opened Rows
  import opened Texts
  import opened Ast
  import opened Lexer
  import opened Parser
  import opened Grammar

  // ----- Written expressions -----

  /** How tightly an expression holds together; literals most. */
  ghost function Level(e: Expr): nat {
    if e.Binary? then Tier(OperatorToken(e.op)) else 4
  }

  /** The tokens of an expression with every operand in parentheses, or with only those that the
      precedences and left association call for. */
  ghost function Written(e: Expr, all: bool): seq<Token> {
    match e
    case NumberLiteral(i) => NumberTokens(i)
    case StringLiteral(s) => [Quotes, Name(s), Quotes]
    case Binary(op, lhs, rhs) =>
      var p := Tier(OperatorToken(op));
      var l := if all || Level(lhs) < p then [LPar] + Written(lhs, all) + [RPar] else Written(lhs, all);
      var r := if all || Level(rhs) <= p then [LPar] + Written(rhs, all) + [RPar] else Written(rhs, all);
      l + [OperatorToken(op)] + r
  }

  /** An expression whose numbers have been narrowed to int on the way. */
  function Narrowed(e: Expr): Expr {
    match e
    case NumberLiteral(i) => NumberLiteral(if i < 0 then -IntOf(-i) else IntOf(i))
    case StringLiteral(s) => e
    case Binary(op, lhs, rhs) => Binary(op, Narrowed(lhs), Narrowed(rhs))
  }

  predicate InRange(e: Expr) {
    match e
    case NumberLiteral(i) => -0x8000_0000 < i < 0x8000_0000
    case StringLiteral(s) => true
    case Binary(op, lhs, rhs) => InRange(lhs) && InRange(rhs)
  }

  /** Exactly the numbers in range stay what they are. */
  lemma {:induction false} NarrowedIsSame(e: Expr)
    ensures Narrowed(e) == e <==> InRange(e)
  {
    if e.Binary? {
      NarrowedIsSame(e.lhs);
      NarrowedIsSame(e.rhs);
    }
  }

  predicate WellFormed(e: Expr) {
    e.Binary? ==> Lexable(e.op) && WellFormed(e.lhs) && WellFormed(e.rhs)
  }

  lemma Weaken(ts: seq<Token>, e: Expr, tier: nat, lower: nat)
    requires Derives(ts, e, tier) && lower <= tier
    ensures Derives(ts, e, lower)
  {
    if !Literal(ts, e) && !Enclosed(ts, e) {
      var i :| Applied(ts, e, tier, i);
      assert Applied(ts, e, lower, i);
    }
  }

  /** An operand as it is written. */
  ghost function Operand(e: Expr, all: bool, paren: bool): seq<Token> {
    if paren then [LPar] + Written(e, all) + [RPar] else Written(e, all)
  }

  lemma LexableMeans(op: BinaryOperator)
    requires Lexable(op)
    ensures Means(OperatorToken(op), op) && Tier(OperatorToken(op)) > 0
  {
  }

  lemma {:induction false} OperandDerives(e: Expr, all: bool, paren: bool, tier: nat)
    requires WellFormed(e) && (!paren ==> tier <= Level(e))
    ensures Derives(Operand(e, all, paren), Narrowed(e), tier)
    decreases e, 1
  {
    hide Derives, Written;
    WrittenDerives(e, all);
    if paren {
      Weaken(Written(e, all), Narrowed(e), Level(e), 1);
      InParentheses(Written(e, all), Narrowed(e), tier);
    } else {
      Weaken(Written(e, all), Narrowed(e), Level(e), tier);
    }
  }

  lemma {:induction false} WrittenDerives(e: Expr, all: bool)
    requires WellFormed(e)
    ensures Derives(Written(e, all), Narrowed(e), Level(e)) && Level(e) >= 1
    decreases e, 0
  {
    if e.Binary? {
      hide Derives;
      var t := OperatorToken(e.op);
      LexableMeans(e.op);
      var l, r := all || Level(e.lhs) < Tier(t), all || Level(e.rhs) <= Tier(t);
      var x, y := Operand(e.lhs, all, l), Operand(e.rhs, all, r);
      assert Written(e, all) == x + [t] + y;
      hide Written, Operand, Tier, OperatorToken, Means;
      OperandDerives(e.lhs, all, l, Tier(t));
      OperandDerives(e.rhs, all, r, Tier(t) + 1);
      Joined(x, Narrowed(e.lhs), t, e.op, y, Narrowed(e.rhs), Tier(t));
    }
  }

  /** An expression written with all parentheses, or with the necessary ones only, parses to
      itself but for the numbers that are out of range, with or without a line end. */
  lemma WrittenParses(e: Expr, all: bool)
    requires WellFormed(e)
    ensures Parse(Written(e, all)) == Some(Narrowed(e)) && Parse(Written(e, all) + [Eol]) == Some(Narrowed(e))
    ensures Narrowed(e) == e <==> InRange(e)
  {
    NarrowedIsSame(e);
    WrittenDerives(e, all);
    hide Derives, Written, Parse;
    var ts := Written(e, all);
    Weaken(ts, Narrowed(e), Level(e), 1);
    assert (ts + [Eol])[..|ts|] == ts;
    SentenceParses(ts, Narrowed(e));
    SentenceParses(ts + [Eol], Narrowed(e));
  }

  lemma {:induction false} PrintedIsWritten(e: Expr)
    requires Named(e)
    ensures PrintedTokens(e) == Written(e, true) && WellFormed(e)
    ensures Printable(e) <==> InRange(e)
  {
    if e.Binary? {
      PrintedIsWritten(e.lhs);
      PrintedIsWritten(e.rhs);
      var l, o, r := PrintedTokens(e.lhs), OperatorToken(e.op), PrintedTokens(e.rhs);
      BothInParentheses(LPar, l, RPar, o, r);
    }
  }

  lemma BothInParentheses<T>(left: T, l: seq<T>, right: T, o: T, r: seq<T>)
    ensures [left] + l + [right, o, left] + r + [right] == ([left] + l + [right]) + [o] + ([left] + r + [right])
  {
  }

  // ----- What a parse can give -----

  /** Names are words that are no keywords. */
  predicate Sane(t: Token) {
    t.Name? ==> IsName(t.s)
  }

  lemma {:induction false} NamesAreNames(t: Text)
    ensures forall token :: token in Tokens(t) ==> Sane(token)
    decreases |t|
  {
    ScannedName(t);
    var (token, n) := Scan(t);
    hide Scan, Sane;
    if token != End && token != Error {
      NamesAreNames(t[n..]);
    }
  }

  lemma {:induction false} ScannedName(t: Text)
    ensures Sane(Scan(t).0)
    decreases |t|
  {
    hide Keywords;
    if t != [] && IsSpace(t[0]) {
      ScannedName(t[1..]);
    }
  }

  lemma {:induction false} DerivedIsNamed(ts: seq<Token>, e: Expr, tier: nat)
    requires Derives(ts, e, tier) && forall t :: t in ts ==> Sane(t)
    ensures Named(e)
    decreases |ts|
  {
    hide IsName;
    if Literal(ts, e) {
      assert e.StringLiteral? ==> Name(e.s) in ts;
    } else if Enclosed(ts, e) {
      DerivedIsNamed(ts[1..|ts| - 1], e, 1);
    } else {
      var i :| Applied(ts, e, tier, i);
      MeansToken(ts[i], e.op);
      DerivedIsNamed(ts[..i], e.lhs, Tier(ts[i]));
      DerivedIsNamed(ts[i + 1..], e.rhs, Tier(ts[i]) + 1);
    }
  }

  /** Whatever is parsed from sane tokens has names for strings and operators with tokens. */
  lemma ParsedIsNamed(ts: seq<Token>, e: Expr)
    requires Parse(ts) == Some(e) && forall t :: t in ts ==> Sane(t)
    ensures Named(e)
  {
    hide Parse, Derives, Named, Sane;
    ParsesSentences(ts, e);
    if Derives(ts, e, 1) {
      DerivedIsNamed(ts, e, 1);
    } else {
      DerivedIsNamed(ts[..|ts| - 1], e, 1);
    }
  }

  // ----- Printing and parsing -----

  lemma PrintedReads(e: Expr)
    requires Named(e)
    ensures Parse(Tokens(Print(e) + [10])) == Some(Narrowed(e)) && (Narrowed(e) == e <==> Printable(e))
  {
    hide Tokens, Parse, Narrowed, InRange, Printable, Print;
    PrintedScans(e, [10]);
    LineEndScans();
    PrintedIsWritten(e);
    WrittenParses(e, true);
  }

  lemma LineEndScans()
    ensures Tokens([10]) == [Eol]
  {
    TokenStep(10, [], Eol);
    assert [10] + [] == [10] && Tokens([]) == [];
  }

  /** What execute does with the text of an expression: scanning and parsing its printed form and
      a line end gives back the tree exactly if every string is a name, every operator has a token
      and every number is in range. The literal -2^31 overflows
      when the program negates the number read; here it reads back as 2^31. */
  lemma PrintedParses(e: Expr)
    ensures Parse(Tokens(Print(e) + [10])) == Some(e) <==> Printable(e)
  {
    if Named(e) {
      PrintedReads(e);
    } else {
      var ts := Tokens(Print(e) + [10]);
      NamesAreNames(Print(e) + [10]);
      if Parse(ts) == Some(e) {
        ParsedIsNamed(ts, e);
      }
      if Printable(e) {
        PrintableIsNamed(e);
      }
    }
  }

  lemma {:induction false} PrintableIsNamed(e: Expr)
    requires Printable(e)
    ensures Named(e)
  {
    if e.Binary? {
      PrintableIsNamed(e.lhs);
      PrintableIsNamed(e.rhs);
    }
  }

  /** The text a==b is read as a>b. */
  lemma EqualsParsesAsGreater(a: Text, b: Text)
    requires IsName(a) && IsName(b)
    ensures Parse(Tokens(a + ([EQUAL, EQUAL] + b))) == Some(Binary(GtOp, StringLiteral(a), StringLiteral(b)))
  {
    hide Tokens, IsName, Parse, Enclosed, Applied;
    EqualSignsScanAsGreater(a, b);
    var l, r := StringLiteral(a), StringLiteral(b);
    assert Derives([Name(a)], l, 1) && Derives([Name(b)], r, 2);
    hide Derives;
    Joined([Name(a)], l, Gt, GtOp, [Name(b)], r, 1);
    assert [Name(a)] + ([Gt] + [Name(b)]) == [Name(a)] + [Gt] + [Name(b)];
    SentenceParses([Name(a)] + [Gt] + [Name(b)], Binary(GtOp, l, r));
  }

  /** Three literals and two operators without parentheses: the second operator is applied first if
      it binds tighter, and otherwise the first one. */
  lemma ThreeOperands(xs: seq<Token>, x: Expr, t: Token, o: BinaryOperator, ys: seq<Token>, y: Expr, u: Token, p: BinaryOperator, zs: seq<Token>, z: Expr)
    requires Literal(xs, x) && Literal(ys, y) && Literal(zs, z) && Means(t, o) && Means(u, p)
    ensures var tighter := (u in {Mul, Div} && t !in {Mul, Div}) || (u in {Plus, Minus} && t in {Le, Ge, Lt, Gt});
            Parse(xs + [t] + ys + [u] + zs) ==
            Some(if tighter then Binary(o, x, Binary(p, y, z)) else Binary(p, Binary(o, x, y), z))
  {
    assert forall tier :: Derives(xs, x, tier) && Derives(ys, y, tier) && Derives(zs, z, tier);
    MeansToken(t, o);
    MeansToken(u, p);
    hide Derives, Literal, Means, Parse;
    var ts := xs + [t] + ys + [u] + zs;
    if Tier(t) < Tier(u) {
      Joined(ys, y, u, p, zs, z, Tier(t) + 1);
      Joined(xs, x, t, o, ys + [u] + zs, Binary(p, y, z), 1);
      assert ts == xs + [t] + (ys + [u] + zs);
      SentenceParses(ts, Binary(o, x, Binary(p, y, z)));
    } else {
      Joined(xs, x, t, o, ys, y, Tier(u));
      Joined(xs + [t] + ys, Binary(o, x, y), u, p, zs, z, 1);
      SentenceParses(ts, Binary(p, Binary(o, x, y), z));
    }
  }
}
