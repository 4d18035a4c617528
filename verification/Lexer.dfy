/** The scanner of queries (lib/sql/lexer.l): longest matches, words checked against keywords. */
module Lexer {
  import opened Rows
  import opened Texts
  import opened Decimal
  import opened Ast

  datatype Token =
    | Num(n: int)
    | Name(s: Text)
    | Keyword(s: Text)
    | Coma | Quotes | LPar | RPar | Eol
    | Plus | Minus | Mul | Div | Le | Lt | Ge | Gt
    | End | Error

  predicate IsLetter(c: byte) {
    65 <= c <= 90 || 97 <= c <= 122 || c == 95
  }

  predicate IsWordChar(c: byte) {
    IsLetter(c) || IsDigit(c)
  }

  /** How many word characters a text begins with. */
  function WordCount(t: Text): (n: nat)
    ensures n <= |t| && forall i :: 0 <= i < n ==> IsWordChar(t[i])
    ensures n < |t| ==> !IsWordChar(t[n])
  {
    if t == [] || !IsWordChar(t[0]) then 0 else 1 + WordCount(t[1..])
  }

  lemma {:induction false} WordCountIs(t: Text, n: nat)
    requires n <= |t| && (forall i :: 0 <= i < n ==> IsWordChar(t[i])) && (n < |t| ==> !IsWordChar(t[n]))
    ensures WordCount(t) == n
  {
    if n > 0 {
      WordCountIs(t[1..], n - 1);
    }
  }

  /** CREATE, TABLE, DROP, varchar, INSERT, VALUES, SELECT, FROM, WHERE, ORDER, BY, DESC. */
  function Keywords(): set<Text> {
    {Letters("CREATE"), Letters("TABLE"), Letters("DROP"), Letters("varchar"), Letters("INSERT"), Letters("VALUES"),
     Letters("SELECT"), Letters("FROM"), Letters("WHERE"), Letters("ORDER"), Letters("BY"), Letters("DESC")}
  }

  /** A number as strtol and the conversion to int leave it. */
  function IntOf(n: nat): int {
    var m := (if n < TWO_63 then n else TWO_63 - 1) % 0x1_0000_0000;
    if m < 0x8000_0000 then m else m - 0x1_0000_0000
  }

  /** The next token and how many characters it takes, skipped spaces included. */
  function Scan(t: Text): (r: (Token, nat))
    ensures r.1 <= |t|
    ensures r.0 != End && r.0 != Error ==> r.1 > 0
    decreases |t|
  {
    if |t| == 0 then (End, 0)
    else
      var c, double := t[0], |t| > 1 && t[1] == EQUAL;
      if IsDigit(c) then var n := DigitCount(t); (Num(IntOf(NumberOf(t[..n]))), n)
      else if IsLetter(c) then
        var n := WordCount(t);
        (if t[..n] in Keywords() then Keyword(t[..n]) else Name(t[..n]), n)
      else if c == 44 then (Coma, 1)
      else if c == QUOTE then (Quotes, 1)
      else if c == LEFT then (LPar, 1)
      else if c == RIGHT then (RPar, 1)
      else if c == 10 then (Eol, 1)
      else if c == 43 then (Plus, 1)
      else if c == 45 then (Minus, 1)
      else if c == 42 then (Mul, 1)
      else if c == 47 then (Div, 1)
      else if c == LESS then if double then (Le, 2) else (Lt, 1)
      else if c == GREATER then if double then (Ge, 2) else (Gt, 1)
      else if c == EQUAL then if double then (Gt, 2) else (Error, 0)
      else if IsSpace(c) then var (token, n) := Scan(t[1..]); (token, n + 1)
      else (Error, 0)
  }

  /** All tokens of a text, up to the end or to an unexpected character. */
  function Tokens(t: Text): (ts: seq<Token>)
    decreases |t|
  {
    var (token, n) := Scan(t);
    if token == End then [] else if token == Error then [Error] else [token] + Tokens(t[n..])
  }

  // ----- Printed expressions -----

  /** Operators that print as the text of their own token. */
  predicate Lexable(op: BinaryOperator) {
    op in {PlusOp, MinusOp, MulOp, DivOp, LtOp, LeOp, GtOp, GeOp}
  }

  function OperatorToken(op: BinaryOperator): Token {
    match op
    case PlusOp => Plus
    case MinusOp => Minus
    case MulOp => Mul
    case DivOp => Div
    case LtOp => Lt
    case LeOp => Le
    case GtOp => Gt
    case GeOp => Ge
    case _ => Error
  }

  /** A word of letters, digits and underscores that does not begin with a digit and is no keyword. */
  predicate IsName(s: Text) {
    s != [] && IsLetter(s[0]) && (forall i :: 0 <= i < |s| ==> IsWordChar(s[i])) && s !in Keywords()
  }

  /** Every string is a name and every operator has a token of its own. */
  predicate Named(e: Expr) {
    match e
    case NumberLiteral(i) => true
    case StringLiteral(s) => IsName(s)
    case Binary(op, lhs, rhs) => Lexable(op) && Named(lhs) && Named(rhs)
  }

  /** ... and every number is an int that can be written with a sign. */
  predicate Printable(e: Expr) {
    match e
    case NumberLiteral(i) => -0x8000_0000 < i < 0x8000_0000
    case StringLiteral(s) => IsName(s)
    case Binary(op, lhs, rhs) => Lexable(op) && Printable(lhs) && Printable(rhs)
  }

  /** The tokens of a written number. */
  function NumberTokens(i: int): seq<Token> {
    if i < 0 then [Minus, Num(IntOf(-i))] else [Num(IntOf(i))]
  }

  function PrintedTokens(e: Expr): seq<Token> {
    match e
    case NumberLiteral(i) => NumberTokens(i)
    case StringLiteral(s) => [Quotes, Name(s), Quotes]
    case Binary(op, lhs, rhs) =>
      [LPar] + PrintedTokens(lhs) + [RPar, OperatorToken(op), LPar] + PrintedTokens(rhs) + [RPar]
  }

  /** A token of one character. */
  lemma TokenStep(c: byte, rest: Text, token: Token)
    requires !IsDigit(c) && !IsLetter(c) && Scan([c] + rest) == (token, 1) && token != End && token != Error
    ensures Tokens([c] + rest) == [token] + Tokens(rest)
  {
    assert ([c] + rest)[1..] == rest;
  }

  lemma SpaceStep(rest: Text)
    ensures Tokens([SPACE] + rest) == Tokens(rest)
  {
    SpaceSkipped([SPACE] + rest);
    assert ([SPACE] + rest)[1..] == rest;
  }

  lemma LParStep(rest: Text)
    ensures Tokens([LEFT] + rest) == [LPar] + Tokens(rest)
  {
    TokenStep(LEFT, rest, LPar);
  }

  lemma RParStep(rest: Text)
    ensures Tokens([RIGHT] + rest) == [RPar] + Tokens(rest)
  {
    TokenStep(RIGHT, rest, RPar);
  }

  lemma QuoteStep(rest: Text)
    ensures Tokens([QUOTE] + rest) == [Quotes] + Tokens(rest)
  {
    TokenStep(QUOTE, rest, Quotes);
  }

  lemma MinusStep(rest: Text)
    ensures Tokens([MINUS] + rest) == [Minus] + Tokens(rest)
  {
    TokenStep(MINUS, rest, Minus);
  }

  lemma DigitsScan(t: Text, n: nat)
    requires n == DigitCount(t) && n > 0
    ensures Scan(t) == (Num(IntOf(NumberOf(t[..n]))), n) && Tokens(t) == [Scan(t).0] + Tokens(t[n..])
  {
  }

  lemma DigitsStep(n: nat, rest: Text)
    requires rest != [] ==> !IsDigit(rest[0])
    ensures Tokens(Digits(n) + rest) == [Num(IntOf(n))] + Tokens(rest)
  {
    hide Tokens, Scan, Digits, DigitCount, NumberOf, IntOf;
    var t := Digits(n) + rest;
    DigitCountIs(t, |Digits(n)|);
    DigitsScan(t, |Digits(n)|);
    assert t[..|Digits(n)|] == Digits(n) && t[|Digits(n)|..] == rest;
    NumberOfDigits(n);
  }

  lemma WordStep(s: Text, rest: Text)
    requires s != [] && IsLetter(s[0]) && (forall i :: 0 <= i < |s| ==> IsWordChar(s[i])) && (rest != [] ==> !IsWordChar(rest[0]))
    ensures Tokens(s + rest) == [if s in Keywords() then Keyword(s) else Name(s)] + Tokens(rest)
  {
    hide Keywords;
    var t := s + rest;
    WordCountIs(t, |s|);
    assert t[..|s|] == s && t[|s|..] == rest;
  }

  lemma NameStep(s: Text, rest: Text)
    requires IsName(s) && (rest != [] ==> !IsWordChar(rest[0]))
    ensures Tokens(s + rest) == [Name(s)] + Tokens(rest)
  {
    WordStep(s, rest);
  }

  lemma OperatorStep(op: BinaryOperator, rest: Text)
    requires Lexable(op)
    ensures Tokens(OperatorText(op) + ([SPACE] + rest)) == [OperatorToken(op)] + Tokens([SPACE] + rest)
  {
    var more := [SPACE] + rest;
    var t := OperatorText(op) + more;
    var (token, n) := Scan(t);
    assert token == OperatorToken(op) && n == |OperatorText(op)|;
    assert t[n..] == more;
  }

  function Spaced(op: BinaryOperator, rest: Text): Text {
    [SPACE] + (OperatorText(op) + ([SPACE] + rest))
  }

  lemma SpacedScans(op: BinaryOperator, rest: Text)
    requires Lexable(op)
    ensures Tokens(Spaced(op, rest)) == [OperatorToken(op)] + Tokens(rest)
  {
    hide Scan, Tokens;
    SpaceStep(OperatorText(op) + ([SPACE] + rest));
    OperatorStep(op, rest);
    SpaceStep(rest);
  }

  lemma Reassociate<T>(a: seq<T>, b: seq<T>, c: seq<T>, d: seq<T>, e: seq<T>, f: seq<T>, g: seq<T>, rest: seq<T>)
    ensures a + b + c + d + e + f + g + rest == a + (b + (c + (d + (e + (f + (g + rest))))))
  {
  }

  lemma Two<T>(x: T, y: T, s: seq<T>)
    ensures [x, y] + s == [x] + ([y] + s)
  {
  }

  lemma BinaryText(op: BinaryOperator, lhs: Expr, rhs: Expr, rest: Text)
    ensures Print(Binary(op, lhs, rhs)) + rest ==
            [LEFT] + (Print(lhs) + ([RIGHT] + Spaced(op, [LEFT] + (Print(rhs) + ([RIGHT] + rest)))))
  {
    var l, o, r := Print(lhs), OperatorText(op), Print(rhs);
    var more := r + ([RIGHT] + rest);
    Reassociate([LEFT], l, [RIGHT, SPACE], o, [SPACE, LEFT], r, [RIGHT], rest);
    Two(SPACE, LEFT, more);
    Two(RIGHT, SPACE, o + ([SPACE] + ([LEFT] + more)));
    assert Print(Binary(op, lhs, rhs)) == [LEFT] + l + [RIGHT, SPACE] + o + [SPACE, LEFT] + r + [RIGHT];
    hide Print, OperatorText;
  }

  lemma BinaryTokens(op: BinaryOperator, lhs: Expr, rhs: Expr, rest: seq<Token>)
    ensures PrintedTokens(Binary(op, lhs, rhs)) + rest ==
            [LPar] + (PrintedTokens(lhs) + ([RPar] + ([OperatorToken(op)] + ([LPar] + (PrintedTokens(rhs) + ([RPar] + rest))))))
  {
    var l, o, r := PrintedTokens(lhs), OperatorToken(op), PrintedTokens(rhs);
    assert PrintedTokens(Binary(op, lhs, rhs)) == [LPar] + l + [RPar, o, LPar] + r + [RPar];
    hide PrintedTokens, OperatorToken;
    Parenthesized(LPar, l, RPar, o, r, rest);
  }

  lemma Parenthesized<T>(left: T, l: seq<T>, right: T, o: T, r: seq<T>, rest: seq<T>)
    ensures [left] + l + [right, o, left] + r + [right] + rest
            == [left] + (l + ([right] + ([o] + ([left] + (r + ([right] + rest))))))
  {
    var all, tail := [left] + l + [right, o, left] + r + [right] + rest, r + ([right] + rest);
    assert [right, o, left] + tail == [right] + ([o] + ([left] + tail));
    assert all == [left] + (l + ([right, o, left] + tail));
  }

  /** Scanning a printed expression gives its tokens, whatever follows that is no word. */
  lemma {:induction false} PrintedScans(e: Expr, rest: Text)
    requires Named(e) && (rest != [] ==> !IsWordChar(rest[0]))
    ensures Tokens(Print(e) + rest) == PrintedTokens(e) + Tokens(rest)
  {
    hide Tokens, Scan, Spaced, Lexable, IsName;
    match e
    case NumberLiteral(i) => NumberScans(i, rest);
    case StringLiteral(s) => StringScans(s, rest);
    case Binary(op, lhs, rhs) =>
      BinaryText(op, lhs, rhs, rest);
      BinaryTokens(op, lhs, rhs, Tokens(rest));
      hide Print, PrintedTokens, OperatorToken;
      var r2 := [RIGHT] + rest;
      var r1 := [LEFT] + (Print(rhs) + r2);
      var r0 := [RIGHT] + Spaced(op, r1);
      LParStep(Print(lhs) + r0);
      PrintedScans(lhs, r0);
      RParStep(Spaced(op, r1));
      SpacedScans(op, r1);
      LParStep(Print(rhs) + r2);
      PrintedScans(rhs, r2);
      RParStep(rest);
  }

  lemma NumberScans(i: int, rest: Text)
    requires rest != [] ==> !IsWordChar(rest[0])
    ensures Tokens(ToText(i) + rest) == PrintedTokens(NumberLiteral(i)) + Tokens(rest)
  {
    hide Tokens, Scan, Digits, IntOf;
    if i < 0 {
      DigitsStep(-i, rest);
      MinusStep(Digits(-i) + rest);
      assert ToText(i) + rest == [MINUS] + (Digits(-i) + rest);
    } else {
      DigitsStep(i, rest);
    }
  }

  lemma StringScans(s: Text, rest: Text)
    requires IsName(s)
    ensures Tokens([QUOTE] + s + [QUOTE] + rest) == [Quotes, Name(s), Quotes] + Tokens(rest)
  {
    hide Tokens, Scan, IsName;
    QuoteStep(rest);
    NameStep(s, [QUOTE] + rest);
    QuoteStep(s + ([QUOTE] + rest));
    assert [QUOTE] + s + [QUOTE] + rest == [QUOTE] + (s + ([QUOTE] + rest));
  }

  lemma NoTokens()
    ensures Tokens([]) == []
  {
  }

  lemma EqualSignsScan(rest: Text)
    ensures Tokens([EQUAL, EQUAL] + rest) == [Gt] + Tokens(rest)
  {
    assert ([EQUAL, EQUAL] + rest)[2..] == rest;
  }

  /** The text a==b has the tokens of a>b. */
  lemma EqualSignsScanAsGreater(a: Text, b: Text)
    requires IsName(a) && IsName(b)
    ensures Tokens(a + ([EQUAL, EQUAL] + b)) == [Name(a)] + ([Gt] + [Name(b)])
  {
    hide Tokens, Scan, IsName;
    NoTokens();
    NameStep(b, []);
    assert b + [] == b && [Name(b)] + [] == [Name(b)];
    EqualSignsScan(b);
    NameStep(a, [EQUAL, EQUAL] + b);
  }

  // ----- The token of each text -----

  /** Exactly these characters may begin a word; digits may follow. */
  lemma WordCharacters(c: byte)
    ensures IsLetter(c) <==> 'a' <= c as char <= 'z' || 'A' <= c as char <= 'Z' || c as char == '_'
    ensures IsWordChar(c) <==> IsLetter(c) || '0' <= c as char <= '9'
  {
  }

  /** The tokens of signs of one character. */
  ghost predicate SignOf(c: char, token: Token) {
    match c
    case ',' => token == Coma
    case '"' => token == Quotes
    case '(' => token == LPar
    case ')' => token == RPar
    case '+' => token == Plus
    case '-' => token == Minus
    case '*' => token == Mul
    case '/' => token == Div
    case '\n' => token == Eol
    case _ => false
  }

  lemma SignsScan(c: char, token: Token, rest: Text)
    requires SignOf(c, token)
    ensures Tokens([c as int] + rest) == [token] + Tokens(rest)
  {
    hide Tokens;
    var t := [c as int] + rest;
    assert t[0] == c as int;
    SignScan(t, c, token);
    TokenStep(c as int, rest, token);
  }

  lemma SignScan(t: Text, c: char, token: Token)
    requires t != [] && t[0] == c as int && SignOf(c, token)
    ensures Scan(t) == (token, 1) && !IsDigit(t[0]) && !IsLetter(t[0])
  {
  }

  lemma SignStep(c: byte, s: string, rest: Text, token: Token)
    requires |s| == 1 && c == s[0] as int
    requires !IsDigit(c) && !IsLetter(c) && Scan([c] + rest) == (token, 1) && token != End && token != Error
    ensures Tokens(Letters(s) + rest) == [token] + Tokens(rest)
  {
    assert Letters(s) == [c];
    TokenStep(c, rest, token);
  }

  /** Comparisons: with an equal sign behind it, a sign is read with that; a lone equal sign is no token. */
  lemma ComparisonsScan(rest: Text)
    ensures Tokens(Letters("<=") + rest) == [Le] + Tokens(rest) && Tokens(Letters(">=") + rest) == [Ge] + Tokens(rest)
    ensures rest == [] || rest[0] != EQUAL ==>
              Tokens(Letters("<") + rest) == [Lt] + Tokens(rest) && Tokens(Letters(">") + rest) == [Gt] + Tokens(rest) &&
              Tokens(Letters("=") + rest) == [Error]
  {
    hide Tokens;
    PairStep("<=", rest, Le);
    PairStep(">=", rest, Ge);
    if rest == [] || rest[0] != EQUAL {
      LoneSign([LESS] + rest);
      LoneSign([GREATER] + rest);
      LoneSign([EQUAL] + rest);
      SignStep(LESS, "<", rest, Lt);
      SignStep(GREATER, ">", rest, Gt);
      assert Letters("=") == [EQUAL];
      hide Letters;
      UnexpectedStep([EQUAL] + rest);
    }
  }

  /** Without an equal sign behind it. */
  lemma LoneSign(t: Text)
    requires t != [] && t[0] in {LESS, GREATER, EQUAL} && (|t| == 1 || t[1] != EQUAL)
    ensures Scan(t) == if t[0] == LESS then (Lt, 1) else if t[0] == GREATER then (Gt, 1) else (Error, 0)
  {
  }

  lemma UnexpectedStep(t: Text)
    requires Scan(t).0 == Error
    ensures Tokens(t) == [Error]
  {
  }

  lemma PairStep(s: string, rest: Text, token: Token)
    requires (s == "<=" && token == Le) || (s == ">=" && token == Ge)
    ensures Tokens(Letters(s) + rest) == [token] + Tokens(rest)
  {
    hide Tokens;
    var t := Letters(s) + rest;
    assert t[0] == s[0] as int && t[1] == EQUAL && t[2..] == rest;
    Consumed(t, token, 2);
  }

  /** Blanks, tabs, vertical tabs, form feeds and carriage returns between tokens are skipped. */
  lemma SpacesSkipped(c: byte, rest: Text)
    requires c in {32, 9, 11, 12, 13}
    ensures Tokens([c] + rest) == Tokens(rest)
  {
    SpaceSkipped([c] + rest);
    assert ([c] + rest)[1..] == rest;
  }

  /** A word is a name unless it is one of the twelve keywords. */
  lemma WordsScan(s: Text, rest: Text)
    requires s != [] && IsLetter(s[0]) && (forall i :: 0 <= i < |s| ==> IsWordChar(s[i])) && (rest != [] ==> !IsWordChar(rest[0]))
    ensures var keyword := exists k :: s == Letters(k) &&
                             k in {"CREATE", "TABLE", "DROP", "varchar", "INSERT", "VALUES", "SELECT", "FROM", "WHERE", "ORDER", "BY", "DESC"};
            Tokens(s + rest) == [if keyword then Keyword(s) else Name(s)] + Tokens(rest)
  {
    hide Tokens, Letters;
    WordStep(s, rest);
  }

  /** The number that a token has: the one written, modulo 2^32 as a signed one, and -1 from 2^63 on. */
  lemma NumbersScan(digits: Text, rest: Text) returns (m: int)
    requires digits != [] && (forall i :: 0 <= i < |digits| ==> IsDigit(digits[i])) && (rest != [] ==> !IsDigit(rest[0]))
    ensures Tokens(digits + rest) == [Num(m)] + Tokens(rest)
    ensures var n := NumberOf(digits);
            -0x8000_0000 <= m < 0x8000_0000 && if n < TWO_63 then (n - m) % 0x1_0000_0000 == 0 else m == -1
  {
    hide Tokens, Scan, IntOf, NumberOf;
    var t := digits + rest;
    DigitCountIs(t, |digits|);
    DigitsScan(t, |digits|);
    assert t[..|digits|] == digits && t[|digits|..] == rest;
    m := IntOf(NumberOf(digits));
    Narrowing(NumberOf(digits));
  }

  /** Any other character ends the scan with an error. */
  lemma UnexpectedScan(c: byte, rest: Text)
    requires !IsDigit(c) && !IsLetter(c) && !IsSpace(c) && c !in Letters(",\"()+-*/<>=")
    ensures Tokens([c] + rest) == [Error]
  {
    assert forall x :: x in [44, 34, 40, 41, 43, 45, 42, 47, 60, 62, 61] ==> x in Letters(",\"()+-*/<>=") by {
      assert Letters(",\"()+-*/<>=") == [44, 34, 40, 41, 43, 45, 42, 47, 60, 62, 61];
    }
    hide Letters;
    var t := [c] + rest;
    assert t[0] == c;
    UnexpectedStep(t);
  }

  lemma Narrowing(n: nat)
    ensures var m := IntOf(n);
            -0x8000_0000 <= m < 0x8000_0000 && if n < TWO_63 then (n - m) % 0x1_0000_0000 == 0 else m == -1
  {
  }

  // ----- The object -----

  class Lexer {
    const input: Text
    var p: nat

    ghost predicate Valid()
      reads this
    {
      p <= |input|
    }

    constructor (input: Text)
      ensures Valid() && this.input == input && p == 0
    {
      this.input, p := input, 0;
    }

    /** The next token; the scanner stops before an unexpected character. */
    method Lex() returns (token: Token)
      requires Valid()
      modifies this
      ensures Valid() && old(p) <= p
      ensures token == Scan(input[old(p)..]).0
      ensures token != End && token != Error ==> Tokens(input[old(p)..]) == [token] + Tokens(input[p..])
    {
      hide Keywords, IntOf, NumberOf, Tokens;
      SkipSpaces();
      ghost var ts := p;
      if p == |input| {
        return End;
      }
      var c := input[p];
      if IsDigit(c) {
        token := LexNumber();
      } else if IsLetter(c) {
        token := LexWord();
      } else {
        token := LexSign();
      }
      if token != Error {
        Consumed(input[ts..], token, p - ts);
        assert input[ts..][p - ts..] == input[p..];
      }
    }

    method SkipSpaces()
      requires Valid()
      modifies this
      ensures Valid() && old(p) <= p && (p < |input| ==> !IsSpace(input[p]) || input[p] == 10)
      ensures Scan(input[old(p)..]).0 == Scan(input[p..]).0 && Tokens(input[old(p)..]) == Tokens(input[p..])
    {
      while p < |input| && IsSpace(input[p]) && input[p] != 10
        invariant Valid() && old(p) <= p
        invariant Scan(input[old(p)..]).0 == Scan(input[p..]).0 && Tokens(input[old(p)..]) == Tokens(input[p..])
      {
        SpaceSkipped(input[p..]);
        assert input[p..][1..] == input[p + 1..];
        p := p + 1;
      }
    }

    method LexNumber() returns (token: Token)
      requires p < |input| && IsDigit(input[p])
      modifies this
      ensures old(p) < p <= |input| && Scan(input[old(p)..]) == (token, p - old(p))
    {
      ghost var t := input[p..];
      var te := p;
      while te < |input| && IsDigit(input[te])
        invariant p <= te <= |input| && forall i :: p <= i < te ==> IsDigit(input[i])
      {
        te := te + 1;
      }
      DigitCountIs(t, te - p);
      assert t[..te - p] == input[p..te];
      token := Num(IntOf(NumberOf(input[p..te])));
      p := te;
    }

    method LexWord() returns (token: Token)
      requires p < |input| && IsLetter(input[p])
      modifies this
      ensures old(p) < p <= |input| && Scan(input[old(p)..]) == (token, p - old(p))
    {
      hide Keywords;
      ghost var t := input[p..];
      var te := p;
      while te < |input| && IsWordChar(input[te])
        invariant p <= te <= |input| && forall i :: p <= i < te ==> IsWordChar(input[i])
      {
        te := te + 1;
      }
      WordCountIs(t, te - p);
      assert t[..te - p] == input[p..te];
      var identifier := input[p..te];
      token := if identifier in Keywords() then Keyword(identifier) else Name(identifier);
      p := te;
    }

    method LexSign() returns (token: Token)
      requires p < |input| && !IsDigit(input[p]) && !IsLetter(input[p]) && (!IsSpace(input[p]) || input[p] == 10)
      modifies this
      ensures old(p) <= p <= |input| && Scan(input[old(p)..]) == (token, p - old(p))
    {
      var c := input[p];
      var double := p + 1 < |input| && input[p + 1] == EQUAL;
      if (c == LESS || c == GREATER || c == EQUAL) && double {
        token := if c == LESS then Le else if c == GREATER then Ge else Gt;
        p := p + 2;
        return;
      }
      token := if c == 44 then Coma else if c == QUOTE then Quotes else if c == LEFT then LPar else if c == RIGHT then RPar
               else if c == 10 then Eol else if c == 43 then Plus else if c == 45 then Minus else if c == 42 then Mul
               else if c == 47 then Div else if c == LESS then Lt else if c == GREATER then Gt else Error;
      if token != Error {
        p := p + 1;
      }
    }
  }

  lemma SpaceSkipped(t: Text)
    requires t != [] && IsSpace(t[0]) && t[0] != 10
    ensures Scan(t).0 == Scan(t[1..]).0 && Tokens(t) == Tokens(t[1..])
  {
    hide Keywords, IntOf, NumberOf, DigitCount, WordCount;
    var (token, n) := Scan(t[1..]);
    assert t[n + 1..] == t[1..][n..];
  }

  lemma Consumed(t: Text, token: Token, n: nat)
    requires n <= |t| && Scan(t) == (token, n) && token != End && token != Error
    ensures Tokens(t) == [token] + Tokens(t[n..])
  {
  }
}
