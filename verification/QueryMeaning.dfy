/** What queries mean: the values of expressions, the rows that a WHERE keeps, and the order that
    an ORDER BY gives, in terms of the numbers in the rows. */
module QueryMeaning {
  import opened Rows
  import opened Comparator
  import opened Schemas
  import opened Ast
  import opened Join
  import opened Interpreter

  // ----- Tables -----

  /** The rows r are those at ascending positions, namely all rows that have values. */
  ghost predicate ValuedAt(rows: seq<Row>, r: seq<Row>, at: seq<nat>) {
    |at| == |r| && (forall i, j :: 0 <= i < j < |at| ==> at[i] < at[j]) &&
    (forall j :: 0 <= j < |at| ==> at[j] < |rows| && r[j] == rows[at[j]]) &&
    forall i: nat :: i < |rows| ==> (i in at <==> rows[i] != [])
  }

  lemma ValuedNext(rows: seq<Row>, row: Row, r: seq<Row>, at: seq<nat>)
    requires ValuedAt(rows, r, at)
    ensures if row == [] then ValuedAt(rows + [row], r, at) else ValuedAt(rows + [row], r + [row], at + [|rows|])
  {
  }

  /** What a scan of a table gives. */
  lemma {:induction false} PresentInOrder(rows: seq<Row>) returns (at: seq<nat>)
    ensures ValuedAt(rows, Present(rows), at)
    decreases |rows|
  {
    hide ValuedAt;
    if |rows| == 0 {
      at := NoRows(rows);
    } else {
      var n := |rows| - 1;
      at := PresentInOrder(rows[..n]);
      assert rows == rows[..n] + [rows[n]];
      ValuedNext(rows[..n], rows[n], Present(rows[..n]), at);
      at := if rows[n] == [] then at else at + [n];
      assert rows[n] == [] ==> Present(rows) == Present(rows[..n]);
    }
  }

  lemma NoRows(rows: seq<Row>) returns (at: seq<nat>)
    requires rows == []
    ensures ValuedAt(rows, [], at)
  {
    at := [];
  }

  // ----- Expressions -----

  ghost predicate Integers(lhs: Expr, rhs: Expr, v: Variables, a: int64, b: int64) {
    Eval(lhs, v) == Some(Int(a)) && Eval(rhs, v) == Some(Int(b))
  }

  /** Comparisons of two integers. */
  lemma ComparisonsEval(lhs: Expr, rhs: Expr, v: Variables, a: int64, b: int64)
    requires Integers(lhs, rhs, v, a, b)
    ensures Eval(Binary(EqOp, lhs, rhs), v) == Some(Bool(a == b))
    ensures Eval(Binary(LtOp, lhs, rhs), v) == Some(Bool(a < b))
    ensures Eval(Binary(LeOp, lhs, rhs), v) == Some(Bool(a <= b))
    ensures Eval(Binary(GtOp, lhs, rhs), v) == Some(Bool(a > b))
    ensures Eval(Binary(GeOp, lhs, rhs), v) == Some(Bool(a >= b))
  {
  }

  /** Sums, differences and products are those of the integers, as long as they have 64 bits. */
  lemma ArithmeticEval(lhs: Expr, rhs: Expr, v: Variables, a: int64, b: int64)
    requires Integers(lhs, rhs, v, a, b)
    ensures var r := Eval(Binary(PlusOp, lhs, rhs), v);
            if -TWO_63 <= a + b < TWO_63 then r == Some(Int(a + b)) else r.None?
    ensures var r := Eval(Binary(MinusOp, lhs, rhs), v);
            if -TWO_63 <= a - b < TWO_63 then r == Some(Int(a - b)) else r.None?
    ensures var r := Eval(Binary(MulOp, lhs, rhs), v);
            if -TWO_63 <= a * b < TWO_63 then r == Some(Int(a * b)) else r.None?
  {
  }

  /** q and r are the quotient of a and b, truncated toward zero, and the remainder, which is zero
      or has the sign of a. */
  ghost predicate Divides(a: int, b: int, q: int, r: int) {
    a == b * q + r && (if b < 0 then b < r < -b else -b < r < b) && (r == 0 || (r < 0 <==> a < 0))
  }

  lemma Truncated(m: nat, n: nat)
    requires n > 0
    ensures m == n * (m / n) + m % n && 0 <= m % n < n && m / n <= m
  {
    AtLeast(m / n, n);
  }

  lemma {:induction false} AtLeast(x: nat, y: nat)
    requires y >= 1
    ensures x * y >= x
  {
    if y > 1 {
      AtLeast(x, y - 1);
      assert x * y == x * (y - 1) + x;
    }
  }

  /** Both signs of two factors. */
  lemma Signs(x: int, y: int)
    ensures (-x) * y == -(x * y) && x * (-y) == -(x * y) && (-x) * (-y) == x * y
  {
  }

  lemma QuotientIs(a: int, b: int) returns (t: int)
    requires b != 0
    ensures 0 <= t <= Abs(a) && 0 <= Abs(a) - Abs(b) * t < Abs(b)
    ensures Quotient(a, b) == if (a < 0) == (b < 0) then t else -t
  {
    Truncated(Abs(a), Abs(b));
    t := Abs(a) / Abs(b);
  }

  lemma QuotientDivides(a: int, b: int)
    requires b != 0
    ensures Divides(a, b, Quotient(a, b), a - b * Quotient(a, b))
    ensures -TWO_63 <= a < TWO_63 ==> -TWO_63 <= Quotient(a, b) <= TWO_63
  {
    hide Quotient;
    var t := QuotientIs(a, b);
    Signs(b, t);
  }

  lemma SmallMultiple(b: int, d: int)
    requires b != 0 && d != 0
    ensures if b < 0 then b * d <= b || b * d >= -b else b * d >= b || b * d <= -b
  {
    Signs(Abs(b), Abs(d));
    AtLeast(Abs(b), Abs(d));
  }

  lemma QuotientUnique(a: int, b: int, q: int, r: int, q1: int, r1: int)
    requires b != 0 && Divides(a, b, q, r) && Divides(a, b, q1, r1)
    ensures q == q1
  {
    assert b * (q - q1) == r1 - r;
    if q != q1 {
      SmallMultiple(b, q - q1);
    }
  }

  /** Division gives the quotient, truncated toward zero; none by zero, and none for the quotient
      that has more than 64 bits. */
  lemma DivisionEval(lhs: Expr, rhs: Expr, v: Variables, a: int64, b: int64) returns (q: int, r: int)
    requires Integers(lhs, rhs, v, a, b)
    ensures b == 0 ==> Eval(Binary(DivOp, lhs, rhs), v).None?
    ensures b != 0 ==> Divides(a, b, q, r) && forall q1, r1 :: Divides(a, b, q1, r1) ==> q1 == q
    ensures b != 0 ==> Eval(Binary(DivOp, lhs, rhs), v) == if q < TWO_63 then Some(Int(q)) else None
  {
    q, r := 0, 0;
    if b != 0 {
      q := Quotient(a, b);
      r := a - b * q;
      QuotientDivides(a, b);
      forall q1, r1 | Divides(a, b, q1, r1) ensures q1 == q {
        QuotientUnique(a, b, q, r, q1, r1);
      }
    }
  }

  /** Anything but two integers and one of the nine operators is the exception. */
  lemma OnlyIntegers(op: BinaryOperator, lhs: Expr, rhs: Expr, v: Variables)
    requires Eval(Binary(op, lhs, rhs), v).Some?
    ensures op !in {NeOp, AndOp, OrOp} && exists a, b :: Integers(lhs, rhs, v, a, b)
  {
    assert Integers(lhs, rhs, v, Eval(lhs, v).value.i, Eval(rhs, v).value.i);
  }

  // ----- Names -----

  /** Column i is the last one with its name. */
  ghost predicate LastNamed(schema: Schema, i: nat) {
    i < |schema| && forall j :: i < j < |schema| ==> schema[j].name != schema[i].name
  }

  lemma {:induction false} LatestIsLast(schema: Schema, n: nat, name: Text)
    requires n <= |schema|
    ensures var i := Latest(schema, n, name); forall j :: 0 <= j < n && (i == n || i < j) ==> schema[j].name != name
  {
    if n > 0 {
      LatestIsLast(schema, n - 1, name);
    }
  }

  /** With a row bound, the name of a column is the value in the last column of that name. */
  lemma ColumnEval(v: Variables, schema: Schema, row: Row, i: nat)
    requires |schema| == |row| && LastNamed(schema, i)
    ensures Eval(StringLiteral(schema[i].name), Bound(v, schema, row)) == Some(row[i])
  {
    BindLookup(v, schema, row, |schema|, schema[i].name);
    LatestIsLast(schema, |schema|, schema[i].name);
  }

  /** Any other name is a variable that has been bound before, and otherwise a string. */
  lemma NameEval(v: Variables, schema: Schema, row: Row, name: Text)
    requires |schema| == |row| && forall j :: 0 <= j < |schema| ==> schema[j].name != name
    ensures Eval(StringLiteral(name), Bound(v, schema, row)) == Some(if name in v then v[name] else Str(name))
  {
    BindLookup(v, schema, row, |schema|, name);
  }

  // ----- WHERE -----

  ghost predicate Related(op: BinaryOperator, a: int, b: int) {
    (op == EqOp && a == b) || (op == LtOp && a < b) || (op == LeOp && a <= b) || (op == GtOp && a > b) || (op == GeOp && a >= b)
  }

  /** The filter that compares a column with a number. */
  function ColumnFilter(schema: Schema, i: nat, op: BinaryOperator, n: int): Expr
    requires i < |schema|
  {
    Binary(op, StringLiteral(schema[i].name), NumberLiteral(n))
  }

  /** Column i of every row is an integer, and the last column of its name. */
  ghost predicate IntegerColumn(schema: Schema, rows: seq<Row>, i: nat) {
    LastNamed(schema, i) && forall r :: 0 <= r < |rows| ==> |rows[r]| == |schema| && rows[r][i].Int?
  }

  lemma RowVerdict(v: Variables, schema: Schema, row: Row, i: nat, op: BinaryOperator, n: int64)
    requires |schema| == |row| && LastNamed(schema, i) && row[i].Int? && op in {EqOp, LtOp, LeOp, GtOp, GeOp}
    ensures Verdict(Some(ColumnFilter(schema, i, op, n)), Bound(v, schema, row)) == Some(Related(op, row[i].i, n))
  {
    ColumnEval(v, schema, row, i);
    ComparisonsEval(StringLiteral(schema[i].name), NumberLiteral(n), Bound(v, schema, row), row[i].i, n);
  }

  lemma {:induction false} SelectedSome(v: Variables, t: RowSet, m: nat, filter: Option<Expr>)
    requires m <= |t.rows| && forall i :: 0 <= i < |t.rows| ==> |t.rows[i]| == |t.schema|
    ensures Selected(v, t, m, filter).Some? <==>
            forall i :: 0 <= i < m ==> Verdict(filter, Bound(v, t.schema, t.rows[i])).Some?
  {
    hide Verdict, Bound;
    if m > 0 {
      SelectedSome(v, t, m - 1, filter);
    }
  }

  /** Without a WHERE all rows are kept. */
  lemma {:induction false} AllSelected(v: Variables, t: RowSet, m: nat)
    requires m <= |t.rows| && forall i :: 0 <= i < |t.rows| ==> |t.rows[i]| == |t.schema|
    ensures Selected(v, t, m, None) == Some(t.rows[..m])
  {
    if m > 0 {
      AllSelected(v, t, m - 1);
      assert t.rows[..m] == t.rows[..m - 1] + [t.rows[m - 1]];
    }
  }

  lemma VerdictMeaning(e: Expr, v: Variables, b: bool)
    ensures Verdict(Some(e), v) == Some(b) <==> Eval(e, v) == Some(Bool(b))
  {
  }

  /** WHERE throws exactly if its expression is no truth value for some row, and otherwise keeps, in
      order, exactly the rows for which it is true. */
  lemma WhereKeeps(v: Variables, t: RowSet, e: Expr) returns (at: seq<nat>)
    requires forall i :: 0 <= i < |t.rows| ==> |t.rows[i]| == |t.schema|
    ensures var r := Selected(v, t, |t.rows|, Some(e));
            (r.Some? <==> forall k :: 0 <= k < |t.rows| ==> exists b :: Eval(e, Bound(v, t.schema, t.rows[k])) == Some(Bool(b))) &&
            (r.Some? ==> |at| == |r.value| && forall j :: 0 <= j < |at| ==> at[j] < |t.rows| && r.value[j] == t.rows[at[j]])
    ensures forall j, k :: 0 <= j < k < |at| ==> at[j] < at[k]
    ensures Selected(v, t, |t.rows|, Some(e)).Some? ==>
              forall k: nat :: k < |t.rows| ==> (k in at <==> Eval(e, Bound(v, t.schema, t.rows[k])) == Some(Bool(true)))
  {
    at := [];
    SelectedSome(v, t, |t.rows|, Some(e));
    forall k: nat, b | k < |t.rows|
      ensures Verdict(Some(e), Bound(v, t.schema, t.rows[k])) == Some(b) <==> Eval(e, Bound(v, t.schema, t.rows[k])) == Some(Bool(b))
    {
      VerdictMeaning(e, Bound(v, t.schema, t.rows[k]), b);
    }
    hide Verdict, Eval, Bound, Selected;
    forall k | 0 <= k < |t.rows|
      ensures Verdict(Some(e), Bound(v, t.schema, t.rows[k])).Some? <==>
              exists b :: Eval(e, Bound(v, t.schema, t.rows[k])) == Some(Bool(b))
    {
      var verdict := Verdict(Some(e), Bound(v, t.schema, t.rows[k]));
      assert verdict.Some? ==> verdict == Some(verdict.value);
    }
    if Selected(v, t, |t.rows|, Some(e)).Some? {
      at := SelectedInOrder(v, t, |t.rows|, Some(e));
    }
  }

  /** WHERE with a comparison of an integer column and a number keeps, in order, exactly the rows
      whose value stands in that relation to it. */
  lemma WhereCompares(v: Variables, t: RowSet, i: nat, op: BinaryOperator, n: int64) returns (at: seq<nat>)
    requires IntegerColumn(t.schema, t.rows, i) && op in {EqOp, LtOp, LeOp, GtOp, GeOp}
    ensures var r := Selected(v, t, |t.rows|, Some(ColumnFilter(t.schema, i, op, n)));
            r.Some? && |at| == |r.value| && forall j :: 0 <= j < |at| ==> at[j] < |t.rows| && r.value[j] == t.rows[at[j]]
    ensures forall j, k :: 0 <= j < k < |at| ==> at[j] < at[k]
    ensures forall k: nat :: k < |t.rows| ==> (k in at <==> Related(op, t.rows[k][i].i, n))
  {
    var filter := Some(ColumnFilter(t.schema, i, op, n));
    forall k: nat | k < |t.rows|
      ensures Verdict(filter, Bound(v, t.schema, t.rows[k])) == Some(Related(op, t.rows[k][i].i, n))
    {
      RowVerdict(v, t.schema, t.rows[k], i, op, n);
    }
    hide Verdict, Bound, Selected;
    SelectedSome(v, t, |t.rows|, filter);
    at := SelectedInOrder(v, t, |t.rows|, filter);
  }

  // ----- ORDER BY -----

  /** The sort key of a row has the value of every expression, in order. */
  lemma {:induction false} KeyMeaning(v: Variables, schema: Schema, row: Row, exprs: seq<Expr>, n: nat)
    requires |schema| == |row| && n <= |exprs|
    ensures var key := KeyOf(v, schema, row, exprs, n);
            (key.Some? <==> forall j :: 0 <= j < n ==> Eval(exprs[j], Bound(v, schema, row)).Some?) &&
            (key.Some? ==> forall j :: 0 <= j < n ==> Eval(exprs[j], Bound(v, schema, row)) == Some(key.value[j]))
  {
    hide Eval, Bound;
    if n > 0 {
      KeyMeaning(v, schema, row, exprs, n - 1);
    }
  }

  lemma ColumnKey(v: Variables, schema: Schema, row: Row, i: nat)
    requires |schema| == |row| && LastNamed(schema, i)
    ensures Key(v, schema, row, [StringLiteral(schema[i].name)]) == Some([row[i]])
  {
    ColumnEval(v, schema, row, i);
    var exprs := [StringLiteral(schema[i].name)];
    KeyMeaning(v, schema, row, exprs, 1);
    var key := Key(v, schema, row, exprs);
    assert exprs[0] == StringLiteral(schema[i].name);
    assert key.value == [row[i]];
  }

  lemma SingleInts(x: int64, y: int64, descending: bool)
    ensures Lex([Int(x)], [Int(y)], [descending]) == -1 <==> if descending then x > y else x < y
  {
    LexMeaning([Int(x)], [Int(y)], [descending]);
    assert Before([Int(x)], [Int(y)], [descending], 0) <==> if descending then x > y else x < y;
  }

  /** ORDER BY an integer column: the values do not fall, and do not rise with DESC. */
  lemma OrderByColumn(v: Variables, schema: Schema, rows: seq<Row>, i: nat, descending: bool)
    requires IntegerColumn(schema, rows, i)
    ensures Wide(schema, rows)
    ensures OrderedBy(v, schema, rows, [StringLiteral(schema[i].name)], [descending]) <==>
            forall p, q :: 0 <= p < q < |rows| ==>
              if descending then rows[p][i].i >= rows[q][i].i else rows[p][i].i <= rows[q][i].i
  {
    var exprs := [StringLiteral(schema[i].name)];
    forall p | 0 <= p < |rows| ensures Key(v, schema, rows[p], exprs) == Some([rows[p][i]]) {
      ColumnKey(v, schema, rows[p], i);
    }
    hide Key, Lex;
    forall p, q | 0 <= p < q < |rows|
      ensures Lex([rows[q][i]], [rows[p][i]], [descending]) == -1 <==>
              if descending then rows[q][i].i > rows[p][i].i else rows[q][i].i < rows[p][i].i
    {
      SingleInts(rows[q][i].i, rows[p][i].i, descending);
    }
  }
}
