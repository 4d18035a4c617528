/** Expression trees and how they are printed (lib/sql/ast.h, lib/sql/ast.cpp). */
module Ast {
  import opened Rows
  import opened Texts
  import opened Decimal

  datatype BinaryOperator = PlusOp | MinusOp | MulOp | DivOp | EqOp | NeOp | LtOp | LeOp | GtOp | GeOp | AndOp | OrOp

  /** Literals and binary operators. */
  datatype Expr =
    | NumberLiteral(i: int)
    | StringLiteral(s: Text)
    | Binary(op: BinaryOperator, lhs: Expr, rhs: Expr)

  const SPACE: byte := 32
  const QUOTE: byte := 34
  const LEFT: byte := 40
  const RIGHT: byte := 41
  const LESS: byte := 60
  const EQUAL: byte := 61
  const GREATER: byte := 62

  function OperatorText(op: BinaryOperator): Text {
    match op
    case PlusOp => [43]
    case MinusOp => [45]
    case MulOp => [42]
    case DivOp => [47]
    case EqOp => [EQUAL]
    case NeOp => [LESS, GREATER]
    case LtOp => [LESS]
    case LeOp => [LESS, EQUAL]
    case GtOp => [GREATER]
    case GeOp => [GREATER, EQUAL]
    case AndOp => [65, 78, 68]
    case OrOp => [79, 82]
  }

  /** toString of an expression: operands always stand in parentheses. */
  function Print(e: Expr): Text {
    match e
    case NumberLiteral(i) => ToText(i)
    case StringLiteral(s) => [QUOTE] + s + [QUOTE]
    case Binary(op, lhs, rhs) =>
      [LEFT] + Print(lhs) + [RIGHT, SPACE] + OperatorText(op) + [SPACE, LEFT] + Print(rhs) + [RIGHT]
  }

  /** The texts of all operators. */
  lemma OperatorTexts()
    ensures OperatorText(PlusOp) == Letters("+") && OperatorText(MinusOp) == Letters("-")
    ensures OperatorText(MulOp) == Letters("*") && OperatorText(DivOp) == Letters("/")
    ensures OperatorText(EqOp) == Letters("=") && OperatorText(NeOp) == Letters("<>")
    ensures OperatorText(LtOp) == Letters("<") && OperatorText(LeOp) == Letters("<=")
    ensures OperatorText(GtOp) == Letters(">") && OperatorText(GeOp) == Letters(">=")
    ensures OperatorText(AndOp) == Letters("AND") && OperatorText(OrOp) == Letters("OR")
  {
  }

  /** A printed expression: the operands in parentheses, the name in quotes. */
  lemma PrintedLayout()
    ensures Print(Binary(LeOp, NumberLiteral(-1), StringLiteral(Letters("x")))) == Letters("(-1) <= (\"x\")")
  {
  }
}
