/** Queries (lib/sql/interpreter.cpp): the join loops, evaluation of expressions, and selection
    with a filter and an order. */
module Interpreter {
  import opened Rows
  import opened Seqs
  import opened Comparator
  import opened Schemas
  import opened Marshal
  import opened Ast
  import opened Join

  // ----- Joins -----

  method ExtractValue(row: Row, schema: Schema, column: Column) returns (v: Option<Value>)
    requires |row| == |schema|
    ensures v == Extract(row, schema, column)
  {
    for i := 0 to |schema|
      invariant column !in schema[..i]
    {
      if schema[i] == column {
        FirstPosition(schema, column, i);
        return Some(row[i]);
      }
    }
    assert schema[..|schema|] == schema;
    return None;
  }

  lemma {:induction false} FirstPosition(schema: Schema, c: Column, i: nat)
    requires i < |schema| && schema[i] == c && c !in schema[..i]
    ensures Position(schema, c) == i
  {
    if i > 0 {
      assert schema[0] == schema[..i][0];
      assert schema[1..][..i - 1] == schema[..i][1..];
      FirstPosition(schema[1..], c, i - 1);
    }
  }

  /** The shared columns, and the left columns followed by the new ones. */
  method SplitSchemas(left: Schema, right: Schema) returns (intersect: Schema, schema: Schema)
    ensures schema == left + Added(left, right)
    ensures forall c :: c in intersect <==> c in left && c in right
  {
    intersect, schema := [], left;
    assert left + [] == left;
    for i := 0 to |right|
      invariant schema == left + Added(left, right[..i])
      invariant forall c :: c in intersect <==> c in left && c in right[..i]
    {
      var count := false;
      for j := 0 to |left|
        invariant count <==> right[i] in left[..j]
      {
        assert left[..j + 1] == left[..j] + [left[j]];
        if right[i] == left[j] {
          count := true;
        }
      }
      assert left[..|left|] == left;
      assert right[..i + 1] == right[..i] + [right[i]] && right[..i + 1][..i] == right[..i];
      if count {
        intersect := intersect + [right[i]];
      } else {
        schema := schema + [right[i]];
      }
    }
    assert right[..|right|] == right;
  }

  lemma SingleColumn(a: Value, b: Value)
    ensures Lex([a], [b], []) == 0 <==> a == b
  {
    LexIsOrder([a], [b], [a], []);
    assert [a] == [b] <==> a == b;
  }

  /** Rows of two tables that the comparator may be asked about, column by column. */
  ghost predicate RowsComparable(left: Schema, leftRow: Row, right: Schema, rightRow: Row) {
    RowFits(left, leftRow) && RowFits(right, rightRow) &&
    forall c :: c in left && c in right ==>
      (leftRow[Position(left, c)].Null? <==> rightRow[Position(right, c)].Null?)
  }

  /** Values of one column have one type, unless one is null. */
  lemma SameKind(left: Schema, leftRow: Row, right: Schema, rightRow: Row, c: Column)
    requires RowsComparable(left, leftRow, right, rightRow) && c in left && c in right
    ensures Extract(leftRow, left, c).Some? && Extract(rightRow, right, c).Some?
    ensures SameShape([Extract(leftRow, left, c).value], [Extract(rightRow, right, c).value])
  {
    assert Fits(c, leftRow[Position(left, c)]) && Fits(c, rightRow[Position(right, c)]);
  }

  method IsMatched(left: Schema, leftRow: Row, right: Schema, rightRow: Row, intersect: Schema) returns (matched: bool)
    requires RowsComparable(left, leftRow, right, rightRow)
    requires forall c :: c in intersect <==> c in left && c in right
    ensures matched <==> Matching(left, leftRow, right, rightRow)
  {
    matched := true;
    for k := 0 to |intersect|
      invariant matched <==> forall c :: c in intersect[..k] ==> Extract(leftRow, left, c) == Extract(rightRow, right, c)
    {
      var l := ExtractValue(leftRow, left, intersect[k]);
      var r := ExtractValue(rightRow, right, intersect[k]);
      SameKind(left, leftRow, right, rightRow, intersect[k]);
      var compared := CompareRows([l.value], [r.value], []);
      SingleColumn(l.value, r.value);
      assert intersect[..k + 1] == intersect[..k] + [intersect[k]];
      matched := matched && compared == 0;
    }
    assert intersect[..|intersect|] == intersect;
  }

  method MakeRow(left: Schema, leftRow: Row, right: Schema, rightRow: Row, schema: Schema) returns (row: Row)
    requires |leftRow| == |left| && |rightRow| == |right| && schema == left + Added(left, right)
    ensures row == JoinRow(left, leftRow, right, rightRow)
  {
    row := [];
    for i := 0 to |schema|
      invariant |row| == i && forall j :: 0 <= j < i ==> row[j] == JoinValue(left, leftRow, right, rightRow, schema[j])
    {
      var l := ExtractValue(leftRow, left, schema[i]);
      if l.Some? {
        row := row + [l.value];
      } else {
        var r := ExtractValue(rightRow, right, schema[i]);
        InOneOf(left, right, i);
        row := row + [r.value];
      }
    }
  }

  lemma InOneOf(left: Schema, right: Schema, i: nat)
    requires i < |left + Added(left, right)|
    ensures (left + Added(left, right))[i] in left || (left + Added(left, right))[i] in right
  {
    if i >= |left| {
      AddedMember(left, right, Added(left, right)[i - |left|]);
    }
  }

  lemma TypedPair(left: RowSet, i: nat, right: RowSet, j: nat)
    requires WellTyped(left) && WellTyped(right) && Comparable(left, right) && i < |left.rows| && j < |right.rows|
    ensures RowsComparable(left.schema, left.rows[i], right.schema, right.rows[j])
  {
    assert RowFits(left.schema, left.rows[i]) && RowFits(right.schema, right.rows[j]);
    forall c | c in left.schema && c in right.schema
      ensures left.rows[i][Position(left.schema, c)].Null? <==> right.rows[j][Position(right.schema, c)].Null?
    {
      assert ValueAt(left, i, c).Null? <==> ValueAt(right, j, c).Null?;
    }
  }

  /** The loops over the rows of two tables. */
  method JoinPair(left: RowSet, right: RowSet) returns (r: RowSet)
    requires WellTyped(left) && WellTyped(right) && Shaped(left) && Shaped(right) && Comparable(left, right)
    ensures r == JoinTwo(left, right)
  {
    hide JoinRow, Matching, Distinct, RowFits, RowsComparable, Comparable;
    var intersect, schema := SplitSchemas(left.schema, right.schema);
    var rows := [];
    for i := 0 to |left.rows|
      invariant rows == RowsUpTo(left, i, right)
    {
      ghost var before := rows;
      for j := 0 to |right.rows|
        invariant rows == before + RowsFor(left, i, right, j)
      {
        TypedPair(left, i, right, j);
        var matched := IsMatched(left.schema, left.rows[i], right.schema, right.rows[j], intersect);
        if matched {
          var row := MakeRow(left.schema, left.rows[i], right.schema, right.rows[j], schema);
          rows := rows + [row];
        }
      }
    }
    r := RowSet(schema, rows);
  }

  /** The rows that a scan keeps: deleted slots read as rows without values. */
  function Present(rows: seq<Row>): seq<Row>
    decreases |rows|
  {
    if |rows| == 0 then []
    else Present(rows[..|rows| - 1]) + if rows[|rows| - 1] == [] then [] else [rows[|rows| - 1]]
  }

  function Scanned(tables: seq<RowSet>): (r: seq<RowSet>)
    ensures |r| == |tables|
    ensures forall t :: 0 <= t < |tables| ==> r[t] == RowSet(tables[t].schema, Present(tables[t].rows))
  {
    seq(|tables|, t requires 0 <= t < |tables| => RowSet(tables[t].schema, Present(tables[t].rows)))
  }

  method ScanTable(t: RowSet) returns (r: RowSet)
    ensures r == RowSet(t.schema, Present(t.rows))
  {
    var rows := [];
    for i := 0 to |t.rows|
      invariant rows == Present(t.rows[..i])
    {
      assert t.rows[..i + 1][..i] == t.rows[..i];
      if t.rows[i] != [] {
        rows := rows + [t.rows[i]];
      }
    }
    assert t.rows[..|t.rows|] == t.rows;
    r := RowSet(t.schema, rows);
  }

  /** Rows of a natural join are again typed. */
  lemma NaturalTyped(tables: seq<RowSet>)
    requires AllTyped(tables)
    ensures WellTyped(NaturalJoin(tables)) && Shaped(NaturalJoin(tables))
  {
    var j := NaturalJoin(tables);
    forall i | 0 <= i < |j.rows| ensures RowFits(j.schema, j.rows[i]) {
      var c := Choices(tables)[i];
      forall k | 0 <= k < |j.schema| ensures Fits(j.schema[k], j.rows[i][k]) {
        ValueFits(tables, c, j.schema[k]);
      }
    }
  }

  lemma ValueFits(tables: seq<RowSet>, c: seq<nat>, k: Column)
    requires AllTyped(tables) && IsChoice(tables, c) && k in AllColumns(tables)
    ensures Fits(k, ValueIn(tables, c, FirstWith(tables, k), k))
  {
    var t := FirstWith(tables, k);
    assert WellTyped(tables[t]);
    assert RowFits(tables[t].schema, tables[t].rows[c[t]]);
  }

  /** The natural join of the first tables may be compared with the last. */
  lemma NaturalComparable(tables: seq<RowSet>)
    requires |tables| >= 1 && AllTyped(tables) && AllComparable(tables) && AllTyped(tables[..|tables| - 1])
    ensures var init, last := tables[..|tables| - 1], tables[|tables| - 1];
            WellTyped(NaturalJoin(init)) && WellTyped(last) && Comparable(NaturalJoin(init), last)
  {
    var init, last := tables[..|tables| - 1], tables[|tables| - 1];
    NaturalTyped(init);
    var n := NaturalJoin(init);
    forall i: nat, j: nat, c | i < |n.rows| && j < |last.rows| && c in n.schema && c in last.schema
      ensures ValueAt(n, i, c).Null? <==> ValueAt(last, j, c).Null?
    {
      var x := Choices(init)[i];
      RowLookup(init, x, c);
      var f := FirstWith(init, c);
      assert init[f] == tables[f] && Comparable(tables[f], last);
      assert ValueAt(n, i, c) == ValueIn(init, x, f, c) == ValueAt(tables[f], x[f], c);
    }
  }

  /** executeJoin: the last table is joined to the join of the others; the result is the natural
      join of all of them. */
  method ExecuteJoin(tables: seq<RowSet>) returns (r: RowSet)
    requires tables != [] && AllTyped(Scanned(tables)) && AllComparable(Scanned(tables))
    ensures r == NaturalJoin(Scanned(tables))
    decreases |tables|
  {
    hide NaturalJoin, JoinTwo, WellTyped, Comparable;
    ghost var scanned := Scanned(tables);
    if |tables| == 1 {
      r := ScanTable(tables[0]);
      assert scanned == [r];
      SingleIsNatural(r);
    } else {
      var init, last := tables[..|tables| - 1], tables[|tables| - 1];
      assert scanned[..|scanned| - 1] == Scanned(init);
      JoinTwoIsNatural(scanned);
      NaturalTyped(Scanned(init));
      NaturalComparable(scanned);
      var left := ExecuteJoin(init);
      var right := ScanTable(last);
      r := JoinPair(left, right);
    }
  }

  // ----- Expressions -----

  type Variables = map<Text, Value>

  function Abs(i: int): nat {
    if i < 0 then 0 - i else i
  }

  /** Division that truncates toward zero. */
  function Quotient(a: int, b: int): int
    requires b != 0
  {
    if (a < 0) == (b < 0) then Abs(a) / Abs(b) else 0 - Abs(a) / Abs(b)
  }

  /** None where a signed 64-bit result overflows. */
  function InRange(i: int): Option<Value> {
    if -TWO_63 <= i < TWO_63 then Some(Int(i)) else None
  }

  function Apply(op: BinaryOperator, a: int64, b: int64): Option<Value> {
    match op
    case PlusOp => InRange(a + b)
    case MinusOp => InRange(a - b)
    case MulOp => InRange(a * b)
    case DivOp => if b == 0 then None else InRange(Quotient(a, b))
    case EqOp => Some(Bool(a == b))
    case GeOp => Some(Bool(a >= b))
    case GtOp => Some(Bool(a > b))
    case LtOp => Some(Bool(a < b))
    case LeOp => Some(Bool(a <= b))
    case NeOp | AndOp | OrOp => None
  }

  /** executeSomeAST: a name is a variable if there is one, otherwise a string; None where the
      program throws, asserts or has no defined result. */
  function Eval(e: Expr, variables: Variables): Option<Value> {
    match e
    case NumberLiteral(i) => InRange(i)
    case StringLiteral(s) => if s in variables then Some(variables[s]) else Some(Str(s))
    case Binary(op, lhs, rhs) =>
      var l, r := Eval(lhs, variables), Eval(rhs, variables);
      if l.Some? && r.Some? && l.value.Int? && r.value.Int? then Apply(op, l.value.i, r.value.i) else None
  }

  /** The variables after the first n columns of a row have been assigned. */
  function Bind(variables: Variables, schema: Schema, row: Row, n: nat): Variables
    requires n <= |schema| == |row|
  {
    if n == 0 then variables else Bind(variables, schema, row, n - 1)[schema[n - 1].name := row[n - 1]]
  }

  function Bound(variables: Variables, schema: Schema, row: Row): Variables
    requires |schema| == |row|
  {
    Bind(variables, schema, row, |schema|)
  }

  /** The last of the first n columns with a name. */
  function Latest(schema: Schema, n: nat, name: Text): (i: nat)
    requires n <= |schema|
    ensures i <= n && (i < n ==> schema[i].name == name)
  {
    if n == 0 then 0
    else if schema[n - 1].name == name then n - 1
    else
      var i := Latest(schema, n - 1, name);
      if i == n - 1 then n else i
  }

  lemma {:induction false} BindLookup(variables: Variables, schema: Schema, row: Row, n: nat, x: Text)
    requires n <= |schema| == |row|
    ensures var i, b := Latest(schema, n, x), Bind(variables, schema, row, n);
            if i < n then x in b && b[x] == row[i]
            else (x in b <==> x in variables) && (x in b ==> b[x] == variables[x])
  {
    if n > 0 {
      BindLookup(variables, schema, row, n - 1, x);
    }
  }

  /** Binding a row after another leaves what binding it alone leaves. */
  lemma BoundAgain(variables: Variables, schema: Schema, before: Row, row: Row)
    requires |schema| == |before| == |row|
    ensures Bound(Bound(variables, schema, before), schema, row) == Bound(variables, schema, row)
  {
    var a, b := Bound(Bound(variables, schema, before), schema, row), Bound(variables, schema, row);
    forall x: Text ensures (x in a <==> x in b) && (x in a ==> a[x] == b[x]) {
      BindLookup(variables, schema, before, |schema|, x);
      BindLookup(variables, schema, row, |schema|, x);
      BindLookup(Bound(variables, schema, before), schema, row, |schema|, x);
    }
  }

  // ----- Filters -----

  /** Whether a row passes; None where the filter throws or is no boolean. */
  function Verdict(filter: Option<Expr>, variables: Variables): Option<bool> {
    if filter.None? then Some(true)
    else
      var v := Eval(filter.value, variables);
      if v.Some? && v.value.Bool? then Some(v.value.b) else None
  }

  /** The rows that pass, each judged with its own columns as variables. */
  function Selected(variables: Variables, t: RowSet, n: nat, filter: Option<Expr>): Option<seq<Row>>
    requires n <= |t.rows| && forall i :: 0 <= i < |t.rows| ==> |t.rows[i]| == |t.schema|
  {
    if n == 0 then Some([])
    else
      var rest := Selected(variables, t, n - 1, filter);
      var verdict := Verdict(filter, Bound(variables, t.schema, t.rows[n - 1]));
      if rest.None? || verdict.None? then None
      else if verdict.value then Some(rest.value + [t.rows[n - 1]]) else rest
  }

  /** The selected rows are those at ascending positions, namely all at which the filter is true. */
  lemma {:induction false} SelectedInOrder(variables: Variables, t: RowSet, n: nat, filter: Option<Expr>)
    returns (at: seq<nat>)
    requires n <= |t.rows| && forall i :: 0 <= i < |t.rows| ==> |t.rows[i]| == |t.schema|
    requires Selected(variables, t, n, filter).Some?
    ensures var rows := Selected(variables, t, n, filter).value;
            |at| == |rows| && (forall j :: 0 <= j < |at| ==> at[j] < n && rows[j] == t.rows[at[j]]) &&
            (forall i, j :: 0 <= i < j < |at| ==> at[i] < at[j])
    ensures forall i: nat :: i < n ==> (i in at <==> Verdict(filter, Bound(variables, t.schema, t.rows[i])) == Some(true))
  {
    at := [];
    if n > 0 {
      at := SelectedInOrder(variables, t, n - 1, filter);
      if Verdict(filter, Bound(variables, t.schema, t.rows[n - 1])) == Some(true) {
        at := at + [n - 1];
      }
    }
  }

  // ----- Order -----

  /** The sort key of a row, None where an expression throws. */
  function KeyOf(variables: Variables, schema: Schema, row: Row, exprs: seq<Expr>, n: nat): (key: Option<Row>)
    requires |schema| == |row| && n <= |exprs|
    ensures key.Some? ==> |key.value| == n
  {
    if n == 0 then Some([])
    else
      var rest, v := KeyOf(variables, schema, row, exprs, n - 1), Eval(exprs[n - 1], Bound(variables, schema, row));
      if rest.Some? && v.Some? then Some(rest.value + [v.value]) else None
  }

  function Key(variables: Variables, schema: Schema, row: Row, exprs: seq<Expr>): (key: Option<Row>)
    requires |schema| == |row|
  {
    KeyOf(variables, schema, row, exprs, |exprs|)
  }

  ghost predicate SameKinds(v: Variables, w: Variables) {
    v.Keys == w.Keys && forall x :: x in v ==> v[x].Kind() == w[x].Kind()
  }

  /** The type of a result depends on the types of the variables only. */
  lemma {:induction false} EvalKind(e: Expr, v: Variables, w: Variables)
    requires SameKinds(v, w) && Eval(e, v).Some? && Eval(e, w).Some?
    ensures Eval(e, v).value.Kind() == Eval(e, w).value.Kind()
  {
  }

  /** A row without nulls. */
  ghost predicate FullRow(schema: Schema, row: Row) {
    RowFits(schema, row) && forall i :: 0 <= i < |row| ==> row[i] != Null
  }

  lemma FullRowsShape(schema: Schema, a: Row, b: Row)
    requires FullRow(schema, a) && FullRow(schema, b)
    ensures SameShape(a, b)
  {
    forall i | 0 <= i < |a| ensures a[i].Kind() == b[i].Kind() {
      assert Fits(schema[i], a[i]) && Fits(schema[i], b[i]);
    }
  }

  lemma BoundKinds(variables: Variables, schema: Schema, a: Row, b: Row)
    requires FullRow(schema, a) && FullRow(schema, b)
    ensures SameKinds(Bound(variables, schema, a), Bound(variables, schema, b))
  {
    FullRowsShape(schema, a, b);
    var v, w := Bound(variables, schema, a), Bound(variables, schema, b);
    forall x: Text ensures (x in v <==> x in w) && (x in v ==> v[x].Kind() == w[x].Kind()) {
      BindLookup(variables, schema, a, |schema|, x);
      BindLookup(variables, schema, b, |schema|, x);
    }
  }

  lemma {:induction false} KeysShape(variables: Variables, schema: Schema, a: Row, b: Row, exprs: seq<Expr>, n: nat)
    requires FullRow(schema, a) && FullRow(schema, b) && n <= |exprs|
    requires KeyOf(variables, schema, a, exprs, n).Some? && KeyOf(variables, schema, b, exprs, n).Some?
    ensures SameShape(KeyOf(variables, schema, a, exprs, n).value, KeyOf(variables, schema, b, exprs, n).value)
  {
    if n > 0 {
      KeysShape(variables, schema, a, b, exprs, n - 1);
      BoundKinds(variables, schema, a, b);
      EvalKind(exprs[n - 1], Bound(variables, schema, a), Bound(variables, schema, b));
    }
  }

  /** A sort key and the index of its row. */
  type SortArg = (Row, nat)

  ghost predicate Ordered(args: seq<SortArg>, desc: seq<bool>) {
    forall i, j :: 0 <= i < j < |args| ==> Lex(args[j].0, args[i].0, desc) != -1
  }

  ghost predicate AllShaped(args: seq<SortArg>, width: nat) {
    (forall i :: 0 <= i < |args| ==> |args[i].0| == width) &&
    forall i, j :: 0 <= i < |args| && 0 <= j < |args| ==> SameShape(args[i].0, args[j].0)
  }

  lemma InsertOrdered(args: seq<SortArg>, x: SortArg, at: nat, desc: seq<bool>)
    requires Ordered(args, desc) && at <= |args|
    requires forall j :: 0 <= j < at ==> Lex(x.0, args[j].0, desc) != -1
    requires at < |args| ==> Lex(x.0, args[at].0, desc) == -1
    ensures Ordered(InsertAt(args, at, x), desc)
  {
    forall j | at <= j < |args| ensures Lex(args[j].0, x.0, desc) != -1 {
      LexIsOrder(args[j].0, x.0, args[at].0, desc);
      LexIsOrder(args[at].0, x.0, args[j].0, desc);
    }
  }

  /** A sort by the comparator, as the program asks of std::sort. */
  method Sort(args: seq<SortArg>, desc: seq<bool>) returns (sorted: seq<SortArg>)
    requires AllShaped(args, |desc|)
    ensures Ordered(sorted, desc) && multiset(sorted) == multiset(args)
  {
    hide Lex;
    sorted := [];
    for i := 0 to |args|
      invariant Ordered(sorted, desc) && multiset(sorted) == multiset(args[..i])
    {
      var at := 0;
      while at < |sorted|
        invariant 0 <= at <= |sorted|
        invariant forall j :: 0 <= j < at ==> Lex(args[i].0, sorted[j].0, desc) != -1
      {
        FromArgs(args, i, sorted, at);
        var compared := CompareRows(args[i].0, sorted[at].0, desc);
        if compared == -1 {
          break;
        }
        at := at + 1;
      }
      InsertOrdered(sorted, args[i], at, desc);
      InsertMultiset(sorted, at, args[i]);
      assert args[..i + 1] == args[..i] + [args[i]];
      sorted := InsertAt(sorted, at, args[i]);
    }
    assert args[..|args|] == args;
  }

  lemma InsertMultiset<T>(s: seq<T>, at: nat, x: T)
    requires at <= |s|
    ensures multiset(InsertAt(s, at, x)) == multiset(s) + multiset{x}
  {
    assert s == s[..at] + s[at..];
  }

  lemma FromArgs(args: seq<SortArg>, i: nat, sorted: seq<SortArg>, at: nat)
    requires i < |args| && at < |sorted| && multiset(sorted) == multiset(args[..i])
    ensures exists j :: 0 <= j < |args| && args[j] == sorted[at]
  {
    assert sorted[at] in multiset(sorted);
    assert sorted[at] in args[..i];
  }

  /** The rows that sort arguments stand for. */
  function Image(args: seq<SortArg>, rows: seq<Row>): (r: seq<Row>)
    requires forall i :: 0 <= i < |args| ==> args[i].1 < |rows|
    ensures |r| == |args| && forall i :: 0 <= i < |r| ==> r[i] == rows[args[i].1]
  {
    seq(|args|, i requires 0 <= i < |args| => rows[args[i].1])
  }

  lemma ImageInsert(s: seq<SortArg>, at: nat, x: SortArg, rows: seq<Row>)
    requires at <= |s| && x.1 < |rows| && forall i :: 0 <= i < |s| ==> s[i].1 < |rows|
    ensures forall i :: 0 <= i < |InsertAt(s, at, x)| ==> InsertAt(s, at, x)[i].1 < |rows|
    ensures multiset(Image(InsertAt(s, at, x), rows)) == multiset(Image(s, rows)) + multiset{rows[x.1]}
  {
    assert Image(InsertAt(s, at, x), rows) == InsertAt(Image(s, rows), at, rows[x.1]);
    InsertMultiset(Image(s, rows), at, rows[x.1]);
  }

  lemma RemoveMultiset<T>(s: seq<T>, i: nat)
    requires i < |s|
    ensures s == InsertAt(RemoveAt(s, i), i, s[i]) && multiset(s) == multiset(RemoveAt(s, i)) + multiset{s[i]}
  {
    var r := RemoveAt(s, i);
    assert r[..i] == s[..i] && r[i..] == s[i + 1..];
    assert s == s[..i] + [s[i]] + s[i + 1..];
    InsertMultiset(r, i, s[i]);
  }

  lemma RestMultiset<T>(a: seq<T>, b: seq<T>, j: nat)
    requires multiset(a) == multiset(b) && a != [] && j < |b| && b[j] == a[0]
    ensures a == InsertAt(RemoveAt(a, 0), 0, a[0]) && b == InsertAt(RemoveAt(b, j), j, a[0])
    ensures multiset(RemoveAt(a, 0)) == multiset(RemoveAt(b, j))
  {
    RemoveMultiset(a, 0);
    RemoveMultiset(b, j);
    hide RemoveAt, InsertAt;
    assert multiset(RemoveAt(a, 0)) == multiset(a) - multiset{a[0]} == multiset(RemoveAt(b, j));
  }

  lemma {:induction false} ImageMultiset(a: seq<SortArg>, b: seq<SortArg>, rows: seq<Row>)
    requires multiset(a) == multiset(b)
    requires (forall i :: 0 <= i < |a| ==> a[i].1 < |rows|) && forall i :: 0 <= i < |b| ==> b[i].1 < |rows|
    ensures multiset(Image(a, rows)) == multiset(Image(b, rows))
    decreases |a|
  {
    hide Image;
    if a == [] {
      assert |b| == |multiset(b)| == 0;
    } else {
      var x, tail := a[0], RemoveAt(a, 0);
      assert x in multiset(b);
      var j :| 0 <= j < |b| && b[j] == x;
      var rest := RemoveAt(b, j);
      RestMultiset(a, b, j);
      hide RemoveAt, InsertAt;
      ImageMultiset(tail, rest, rows);
      ImageInsert(tail, 0, x, rows);
      ImageInsert(rest, j, x, rows);
    }
  }

  ghost predicate Wide(schema: Schema, rows: seq<Row>) {
    forall i :: 0 <= i < |rows| ==> |rows[i]| == |schema|
  }

  /** Keys of any two rows have the same types, as the comparator asserts. */
  ghost predicate Sortable(variables: Variables, schema: Schema, rows: seq<Row>, exprs: seq<Expr>)
    requires Wide(schema, rows)
  {
    forall i, j :: 0 <= i < |rows| && 0 <= j < |rows| ==>
      var a, b := Key(variables, schema, rows[i], exprs), Key(variables, schema, rows[j], exprs);
      a.Some? && b.Some? ==> SameShape(a.value, b.value)
  }

  /** Rows without nulls can be sorted by any expressions. */
  lemma FullRowsSortable(variables: Variables, schema: Schema, rows: seq<Row>, exprs: seq<Expr>)
    requires forall i :: 0 <= i < |rows| ==> FullRow(schema, rows[i])
    ensures Wide(schema, rows) && Sortable(variables, schema, rows, exprs)
  {
    forall i | 0 <= i < |rows| ensures |rows[i]| == |schema| {
      assert FullRow(schema, rows[i]);
    }
    forall i, j | 0 <= i < |rows| && 0 <= j < |rows|
      ensures var a, b := Key(variables, schema, rows[i], exprs), Key(variables, schema, rows[j], exprs);
              a.Some? && b.Some? ==> SameShape(a.value, b.value)
    {
      if Key(variables, schema, rows[i], exprs).Some? && Key(variables, schema, rows[j], exprs).Some? {
        KeysShape(variables, schema, rows[i], rows[j], exprs, |exprs|);
      }
    }
  }

  /** Every row has a sort key. */
  ghost predicate Keyed(variables: Variables, schema: Schema, rows: seq<Row>, exprs: seq<Expr>)
    requires Wide(schema, rows)
  {
    forall i :: 0 <= i < |rows| ==> Key(variables, schema, rows[i], exprs).Some?
  }

  /** No row comes before an earlier one in the order of the keys. */
  ghost predicate OrderedBy(variables: Variables, schema: Schema, rows: seq<Row>, exprs: seq<Expr>, desc: seq<bool>)
    requires Wide(schema, rows)
  {
    Keyed(variables, schema, rows, exprs) &&
    forall i, j :: 0 <= i < j < |rows| ==>
      Lex(Key(variables, schema, rows[j], exprs).value, Key(variables, schema, rows[i], exprs).value, desc) != -1
  }

  /** Sort arguments that hold the keys of their rows. */
  ghost predicate KeyArgs(variables: Variables, schema: Schema, rows: seq<Row>, exprs: seq<Expr>, args: seq<SortArg>)
    requires Wide(schema, rows)
  {
    forall i :: 0 <= i < |args| ==> args[i].1 < |rows| && Key(variables, schema, rows[args[i].1], exprs) == Some(args[i].0)
  }

  lemma KeyArgsShaped(variables: Variables, schema: Schema, rows: seq<Row>, exprs: seq<Expr>, args: seq<SortArg>)
    requires Wide(schema, rows) && Sortable(variables, schema, rows, exprs) && KeyArgs(variables, schema, rows, exprs, args)
    ensures AllShaped(args, |exprs|)
  {
    forall i, j | 0 <= i < |args| && 0 <= j < |args| ensures SameShape(args[i].0, args[j].0) {
      assert Key(variables, schema, rows[args[i].1], exprs) == Some(args[i].0);
      assert Key(variables, schema, rows[args[j].1], exprs) == Some(args[j].0);
    }
  }

  lemma AllKeyed(variables: Variables, schema: Schema, rows: seq<Row>, exprs: seq<Expr>, args: seq<SortArg>)
    requires Wide(schema, rows) && KeyArgs(variables, schema, rows, exprs, args)
    requires |args| == |rows| && forall i :: 0 <= i < |args| ==> args[i].1 == i
    ensures Keyed(variables, schema, rows, exprs)
  {
    forall i | 0 <= i < |rows| ensures Key(variables, schema, rows[i], exprs).Some? {
      assert args[i].1 == i;
    }
  }

  /** Sorting the arguments sorts the rows. */
  lemma SortedRows(variables: Variables, schema: Schema, rows: seq<Row>, exprs: seq<Expr>, desc: seq<bool>, args: seq<SortArg>, sorted: seq<SortArg>)
    requires Wide(schema, rows) && KeyArgs(variables, schema, rows, exprs, args)
    requires |args| == |rows| && forall i :: 0 <= i < |args| ==> args[i].1 == i
    requires Ordered(sorted, desc) && multiset(sorted) == multiset(args)
    ensures forall i :: 0 <= i < |sorted| ==> sorted[i].1 < |rows|
    ensures var r := Image(sorted, rows);
            Wide(schema, r) && multiset(r) == multiset(rows) && OrderedBy(variables, schema, r, exprs, desc)
  {
    forall i | 0 <= i < |sorted|
      ensures sorted[i].1 < |rows| && Key(variables, schema, rows[sorted[i].1], exprs) == Some(sorted[i].0)
    {
      assert sorted[i] in multiset(args);
    }
    ImageMultiset(sorted, args, rows);
    assert Image(args, rows) == rows;
  }

  // ----- The object -----

  /** Sort expressions and, for each, whether it is descending. */
  datatype Order = Order(exprs: seq<Expr>, desc: seq<bool>)

  class Interpreter {
    var variables: Variables

    method BindRow(schema: Schema, row: Row)
      requires |schema| == |row|
      modifies this
      ensures variables == Bound(old(variables), schema, row)
    {
      for i := 0 to |schema|
        invariant variables == Bind(old(variables), schema, row, i)
      {
        variables := variables[schema[i].name := row[i]];
      }
    }

    /** The rows that pass the filter, None where it throws. */
    method SelectRows(start: RowSet, filter: Option<Expr>) returns (r: Option<seq<Row>>)
      requires forall i :: 0 <= i < |start.rows| ==> |start.rows[i]| == |start.schema|
      modifies this
      ensures r == Selected(old(variables), start, |start.rows|, filter)
      ensures forall row: Row :: |row| == |start.schema| ==>
                Bound(variables, start.schema, row) == Bound(old(variables), start.schema, row)
    {
      var rows := [];
      for i := 0 to |start.rows|
        invariant Selected(old(variables), start, i, filter) == Some(rows)
        invariant forall row: Row :: |row| == |start.schema| ==>
                    Bound(variables, start.schema, row) == Bound(old(variables), start.schema, row)
      {
        ghost var before := variables;
        BindRow(start.schema, start.rows[i]);
        forall row: Row | |row| == |start.schema|
          ensures Bound(variables, start.schema, row) == Bound(old(variables), start.schema, row)
        {
          BoundAgain(before, start.schema, start.rows[i], row);
        }
        var verdict := Verdict(filter, variables);
        if verdict.None? {
          StaysNone(old(variables), start, i + 1, |start.rows|, filter);
          return None;
        }
        if verdict.value {
          rows := rows + [start.rows[i]];
        }
      }
      return Some(rows);
    }

    /** The key of the row that has been bound last. */
    method EvalKey(schema: Schema, row: Row, exprs: seq<Expr>, ghost was: Variables) returns (key: Option<Row>)
      requires |schema| == |row| && variables == Bound(was, schema, row)
      ensures key == Key(was, schema, row, exprs)
    {
      var values: Row := [];
      for j := 0 to |exprs|
        invariant KeyOf(was, schema, row, exprs, j) == Some(values)
      {
        var v := Eval(exprs[j], variables);
        if v.None? {
          KeyStaysNone(was, schema, row, exprs, j + 1, |exprs|);
          return None;
        }
        values := values + [v.value];
      }
      return Some(values);
    }

    /** The rows in the order of their keys, None where a key throws. */
    method OrderRows(schema: Schema, rows: seq<Row>, exprs: seq<Expr>, desc: seq<bool>) returns (r: Option<seq<Row>>)
      requires Wide(schema, rows) && |exprs| == |desc| && Sortable(variables, schema, rows, exprs)
      modifies this
      ensures r.Some? <==> Keyed(old(variables), schema, rows, exprs)
      ensures r.Some? ==> Wide(schema, r.value) && multiset(r.value) == multiset(rows) &&
                          OrderedBy(old(variables), schema, r.value, exprs, desc)
    {
      hide Key, Lex, Sortable;
      var args: seq<SortArg> := [];
      ghost var was := variables;
      for i := 0 to |rows|
        invariant |args| == i && KeyArgs(was, schema, rows, exprs, args)
        invariant forall k :: 0 <= k < i ==> args[k].1 == k
        invariant forall row: Row :: |row| == |schema| ==> Bound(variables, schema, row) == Bound(was, schema, row)
      {
        ghost var before := variables;
        BindRow(schema, rows[i]);
        forall row: Row | |row| == |schema| ensures Bound(variables, schema, row) == Bound(was, schema, row) {
          BoundAgain(before, schema, rows[i], row);
        }
        var key := EvalKey(schema, rows[i], exprs, was);
        if key.None? {
          return None;
        }
        args := args + [(key.value, i)];
      }
      AllKeyed(was, schema, rows, exprs, args);
      KeyArgsShaped(was, schema, rows, exprs, args);
      var sorted := Sort(args, desc);
      SortedRows(was, schema, rows, exprs, desc, args, sorted);
      return Some(Image(sorted, rows));
    }

    /** The keys of the rows that a query joins may be compared; they may, for example, if there are
        no nulls. */
    ghost predicate JoinSortable(tables: seq<RowSet>, exprs: seq<Expr>)
      requires AllTyped(Scanned(tables))
      reads this
    {
      var j := NaturalJoin(Scanned(tables));
      Wide(j.schema, j.rows) && Sortable(variables, j.schema, j.rows, exprs)
    }

    /** SELECT * FROM tables with an optional filter and order: the rows of the natural join that
        pass, in the order of their keys; None where an expression throws. */
    method ExecuteSelect(tables: seq<RowSet>, filter: Option<Expr>, order: Option<Order>) returns (r: Option<seq<Row>>)
      requires tables != [] && AllTyped(Scanned(tables)) && AllComparable(Scanned(tables))
      requires order.Some? ==> |order.value.exprs| == |order.value.desc| && JoinSortable(tables, order.value.exprs)
      modifies this
      ensures var j := NaturalJoin(Scanned(tables));
              Shaped(j) &&
              var rows := Selected(old(variables), j, |j.rows|, filter);
              if rows.None? || order.None? then r == rows
              else
                Wide(j.schema, rows.value) &&
                (r.Some? <==> Keyed(old(variables), j.schema, rows.value, order.value.exprs)) &&
                (r.Some? ==> Wide(j.schema, r.value) && multiset(r.value) == multiset(rows.value) &&
                             OrderedBy(old(variables), j.schema, r.value, order.value.exprs, order.value.desc))
    {
      hide NaturalJoin, Selected, Keyed, OrderedBy, Wide, WellTyped, Sortable, Comparable;
      NaturalTyped(Scanned(tables));
      var start := ExecuteJoin(tables);
      ghost var was := variables;
      var rows := SelectRows(start, filter);
      if rows.None? || order.None? {
        return rows;
      }
      SelectedSortable(variables, was, start, filter, order.value.exprs);
      OrderSame(variables, was, start.schema, rows.value, order.value.exprs, order.value.desc);
      ghost var now := variables;
      r := OrderRows(start.schema, rows.value, order.value.exprs, order.value.desc);
      if r.Some? {
        OrderSame(now, was, start.schema, r.value, order.value.exprs, order.value.desc);
      }
    }
  }

  /** Where two sets of variables are bound alike, they give the same keys and order. */
  lemma {:induction false} KeySame(v: Variables, w: Variables, schema: Schema, row: Row, exprs: seq<Expr>, n: nat)
    requires |schema| == |row| && n <= |exprs| && Bound(v, schema, row) == Bound(w, schema, row)
    ensures KeyOf(v, schema, row, exprs, n) == KeyOf(w, schema, row, exprs, n)
  {
    if n > 0 {
      KeySame(v, w, schema, row, exprs, n - 1);
    }
  }

  lemma OrderSame(v: Variables, w: Variables, schema: Schema, rows: seq<Row>, exprs: seq<Expr>, desc: seq<bool>)
    requires Wide(schema, rows)
    requires forall row: Row :: |row| == |schema| ==> Bound(v, schema, row) == Bound(w, schema, row)
    ensures Keyed(v, schema, rows, exprs) == Keyed(w, schema, rows, exprs)
    ensures OrderedBy(v, schema, rows, exprs, desc) == OrderedBy(w, schema, rows, exprs, desc)
  {
    forall i | 0 <= i < |rows| ensures Key(v, schema, rows[i], exprs) == Key(w, schema, rows[i], exprs) {
      KeySame(v, w, schema, rows[i], exprs, |exprs|);
    }
  }

  /** Selected rows can be sorted if all can, with any variables that bind rows alike. */
  lemma SelectedSortable(v: Variables, w: Variables, t: RowSet, filter: Option<Expr>, exprs: seq<Expr>)
    requires Shaped(t) && Wide(t.schema, t.rows) && Sortable(w, t.schema, t.rows, exprs)
    requires Selected(w, t, |t.rows|, filter).Some?
    requires forall row: Row :: |row| == |t.schema| ==> Bound(v, t.schema, row) == Bound(w, t.schema, row)
    ensures var rows := Selected(w, t, |t.rows|, filter).value;
            Wide(t.schema, rows) && Sortable(v, t.schema, rows, exprs)
  {
    var at := SelectedInOrder(w, t, |t.rows|, filter);
    var rows := Selected(w, t, |t.rows|, filter).value;
    hide Selected, Bound, SameShape;
    forall i | 0 <= i < |rows| ensures |rows[i]| == |t.schema| && Key(v, t.schema, rows[i], exprs) == Key(w, t.schema, t.rows[at[i]], exprs) {
      KeySame(v, w, t.schema, rows[i], exprs, |exprs|);
    }
  }

  lemma {:induction false} StaysNone(variables: Variables, t: RowSet, m: nat, n: nat, filter: Option<Expr>)
    requires m <= n <= |t.rows| && forall i :: 0 <= i < |t.rows| ==> |t.rows[i]| == |t.schema|
    requires Selected(variables, t, m, filter).None?
    ensures Selected(variables, t, n, filter).None?
    decreases n
  {
    if m < n {
      StaysNone(variables, t, m, n - 1, filter);
    }
  }

  lemma {:induction false} KeyStaysNone(variables: Variables, schema: Schema, row: Row, exprs: seq<Expr>, m: nat, n: nat)
    requires |schema| == |row| && m <= n <= |exprs| && KeyOf(variables, schema, row, exprs, m).None?
    ensures KeyOf(variables, schema, row, exprs, n).None?
    decreases n
  {
    if m < n {
      KeyStaysNone(variables, schema, row, exprs, m, n - 1);
    }
  }
}
