/** Joins of tables (lib/sql/interpreter.cpp): the left-recursive pairwise join is the natural join
    of all tables at once. */
module Join {
  import opened Rows
  import opened Seqs
  import opened Schemas
  import opened Marshal

  datatype RowSet = RowSet(schema: Schema, rows: seq<Row>)

  /** Distinct columns, and rows of their types. */
  ghost predicate WellTyped(t: RowSet) {
    Distinct(t.schema) && forall i :: 0 <= i < |t.rows| ==> RowFits(t.schema, t.rows[i])
  }

  ghost predicate AllTyped(tables: seq<RowSet>) {
    forall t :: 0 <= t < |tables| ==> WellTyped(tables[t])
  }

  /** The value of row i in a column. */
  ghost function ValueAt(t: RowSet, i: nat, c: Column): Value
    requires WellTyped(t) && i < |t.rows| && c in t.schema
  {
    assert RowFits(t.schema, t.rows[i]);
    t.rows[i][Position(t.schema, c)]
  }

  /** In a shared column values are null in both tables or in none, as the comparator asserts. */
  ghost predicate Comparable(left: RowSet, right: RowSet)
    requires WellTyped(left) && WellTyped(right)
  {
    forall i: nat, j: nat, c :: i < |left.rows| && j < |right.rows| && c in left.schema && c in right.schema ==>
      (ValueAt(left, i, c).Null? <==> ValueAt(right, j, c).Null?)
  }

  ghost predicate AllComparable(tables: seq<RowSet>)
    requires AllTyped(tables)
  {
    forall t, u :: 0 <= t < u < |tables| ==> Comparable(tables[t], tables[u])
  }

  // ----- The natural join -----

  /** The first position of a column, the number of columns if there is none. */
  function Position(schema: Schema, c: Column): (i: nat)
    ensures i <= |schema| && (i < |schema| ==> schema[i] == c)
    ensures i < |schema| <==> c in schema
  {
    if schema == [] || schema[0] == c then 0 else 1 + Position(schema[1..], c)
  }

  lemma PositionIs(schema: Schema, c: Column, i: nat)
    requires Distinct(schema) && i < |schema| && schema[i] == c
    ensures Position(schema, c) == i
  {
  }

  /** Each column where it first occurs. */
  function FirstOccurrences(cs: Schema): (r: Schema)
    ensures Distinct(r) && forall c :: c in r <==> c in cs
    decreases |cs|
  {
    if |cs| == 0 then []
    else
      var init, last := cs[..|cs| - 1], cs[|cs| - 1];
      assert cs == init + [last];
      if last in init then FirstOccurrences(init) else FirstOccurrences(init) + [last]
  }

  function AllColumns(tables: seq<RowSet>): Schema
    decreases |tables|
  {
    if |tables| == 0 then [] else AllColumns(tables[..|tables| - 1]) + tables[|tables| - 1].schema
  }

  /** The columns of the natural join. */
  function SchemaOf(tables: seq<RowSet>): Schema {
    FirstOccurrences(AllColumns(tables))
  }

  /** A choice of one row of each table. */
  predicate IsChoice(tables: seq<RowSet>, choice: seq<nat>) {
    |choice| == |tables| && forall t :: 0 <= t < |tables| ==> choice[t] < |tables[t].rows|
  }

  function Chosen(tables: seq<RowSet>, choice: seq<nat>, t: nat): Row
    requires IsChoice(tables, choice) && t < |tables|
  {
    tables[t].rows[choice[t]]
  }

  /** The value of column c in the chosen row of table t. */
  ghost function ValueIn(tables: seq<RowSet>, choice: seq<nat>, t: nat, c: Column): Value
    requires AllTyped(tables) && IsChoice(tables, choice) && t < |tables| && c in tables[t].schema
  {
    assert RowFits(tables[t].schema, Chosen(tables, choice, t));
    Chosen(tables, choice, t)[Position(tables[t].schema, c)]
  }

  /** The chosen rows have the same value in every column that two tables share. */
  ghost predicate Agreeing(tables: seq<RowSet>, choice: seq<nat>)
    requires AllTyped(tables)
  {
    IsChoice(tables, choice) &&
    forall t, u, c :: 0 <= t < u < |tables| && c in tables[t].schema && c in tables[u].schema ==>
      ValueIn(tables, choice, t, c) == ValueIn(tables, choice, u, c)
  }

  /** The first table with a column. */
  function FirstWith(tables: seq<RowSet>, c: Column): (t: nat)
    requires c in AllColumns(tables)
    ensures t < |tables| && c in tables[t].schema
    decreases |tables|
  {
    var init := tables[..|tables| - 1];
    if c in AllColumns(init) then FirstWith(init, c) else |tables| - 1
  }

  /** The row that a choice stands for: in each column the value of the first table that has it. */
  ghost function RowOf(tables: seq<RowSet>, choice: seq<nat>): (row: Row)
    requires AllTyped(tables) && IsChoice(tables, choice)
    ensures |row| == |SchemaOf(tables)|
    ensures forall i :: 0 <= i < |row| ==>
              row[i] == ValueIn(tables, choice, FirstWith(tables, SchemaOf(tables)[i]), SchemaOf(tables)[i])
  {
    var schema := SchemaOf(tables);
    seq(|schema|, i requires 0 <= i < |schema| => assert schema[i] in schema;
        ValueIn(tables, choice, FirstWith(tables, schema[i]), schema[i]))
  }

  // ----- The pairwise join -----

  /** The columns of right that left does not have. */
  function Added(left: Schema, right: Schema): (r: Schema)
    decreases |right|
  {
    if |right| == 0 then []
    else
      var r, c := Added(left, right[..|right| - 1]), right[|right| - 1];
      if c in left then r else r + [c]
  }

  ghost predicate Matching(left: Schema, leftRow: Row, right: Schema, rightRow: Row)
    requires |leftRow| == |left| && |rightRow| == |right|
  {
    forall c :: c in left && c in right ==> leftRow[Position(left, c)] == rightRow[Position(right, c)]
  }

  function Extract(row: Row, schema: Schema, c: Column): Option<Value>
    requires |row| == |schema|
  {
    var i := Position(schema, c);
    if i < |schema| then Some(row[i]) else None
  }

  /** The row of two matching rows. */
  function JoinRow(left: Schema, leftRow: Row, right: Schema, rightRow: Row): (row: Row)
    requires |leftRow| == |left| && |rightRow| == |right|
    ensures |row| == |left + Added(left, right)|
    ensures forall i :: 0 <= i < |row| ==> row[i] == JoinValue(left, leftRow, right, rightRow, (left + Added(left, right))[i])
  {
    var schema := left + Added(left, right);
    seq(|schema|, i requires 0 <= i < |schema| => JoinValue(left, leftRow, right, rightRow, schema[i]))
  }

  function JoinValue(left: Schema, leftRow: Row, right: Schema, rightRow: Row, c: Column): Value
    requires |leftRow| == |left| && |rightRow| == |right|
  {
    if Extract(leftRow, left, c).Some? then Extract(leftRow, left, c).value
    else if Extract(rightRow, right, c).Some? then Extract(rightRow, right, c).value
    else Null
  }

  ghost predicate Shaped(t: RowSet) {
    forall i :: 0 <= i < |t.rows| ==> |t.rows[i]| == |t.schema|
  }

  /** The joined rows of one left row and the first n right rows. */
  ghost function RowsFor(left: RowSet, i: nat, right: RowSet, n: nat): seq<Row>
    requires Shaped(left) && Shaped(right) && i < |left.rows| && n <= |right.rows|
  {
    if n == 0 then []
    else
      RowsFor(left, i, right, n - 1) +
      if Matching(left.schema, left.rows[i], right.schema, right.rows[n - 1])
      then [JoinRow(left.schema, left.rows[i], right.schema, right.rows[n - 1])] else []
  }

  ghost function RowsUpTo(left: RowSet, m: nat, right: RowSet): seq<Row>
    requires Shaped(left) && Shaped(right) && m <= |left.rows|
  {
    if m == 0 then [] else RowsUpTo(left, m - 1, right) + RowsFor(left, m - 1, right, |right.rows|)
  }

  ghost function JoinTwo(left: RowSet, right: RowSet): RowSet
    requires Shaped(left) && Shaped(right)
  {
    RowSet(left.schema + Added(left.schema, right.schema), RowsUpTo(left, |left.rows|, right))
  }

  // ----- Choices in the order of the loops -----

  /** The choices of the first tables that c extends to, with the first n rows of the last. */
  ghost function Picks(tables: seq<RowSet>, c: seq<nat>, n: nat): seq<seq<nat>>
    requires |tables| >= 1 && AllTyped(tables) && IsChoice(tables[..|tables| - 1], c) && n <= |tables[|tables| - 1].rows|
  {
    if n == 0 then []
    else Picks(tables, c, n - 1) + if Agreeing(tables, c + [n - 1]) then [c + [n - 1]] else []
  }

  ghost predicate AllChoices(tables: seq<RowSet>, cs: seq<seq<nat>>) {
    forall i :: 0 <= i < |cs| ==> IsChoice(tables, cs[i])
  }

  ghost function Extensions(tables: seq<RowSet>, cs: seq<seq<nat>>, m: nat): seq<seq<nat>>
    requires |tables| >= 1 && AllTyped(tables) && AllChoices(tables[..|tables| - 1], cs) && m <= |cs|
  {
    if m == 0 then [] else Extensions(tables, cs, m - 1) + Picks(tables, cs[m - 1], |tables[|tables| - 1].rows|)
  }

  /** All agreeing choices, those of the first tables outermost. */
  ghost function Choices(tables: seq<RowSet>): (cs: seq<seq<nat>>)
    requires AllTyped(tables)
    ensures AllChoices(tables, cs)
    decreases |tables|
  {
    if |tables| == 0 then [[]]
    else
      var init := tables[..|tables| - 1];
      ExtensionsAreChoices(tables, Choices(init), |Choices(init)|);
      Extensions(tables, Choices(init), |Choices(init)|)
  }

  lemma {:induction false} PicksMembers(tables: seq<RowSet>, c: seq<nat>, n: nat, x: seq<nat>)
    requires |tables| >= 1 && AllTyped(tables) && IsChoice(tables[..|tables| - 1], c) && n <= |tables[|tables| - 1].rows|
    ensures x in Picks(tables, c, n) <==> |x| == |tables| && x[..|x| - 1] == c && x[|x| - 1] < n && Agreeing(tables, x)
  {
    assert |c| == |tables| - 1;
    hide Agreeing, AllTyped, IsChoice;
    if n > 0 {
      PicksMembers(tables, c, n - 1, x);
      assert |x| == |tables| && x[..|x| - 1] == c && x[|x| - 1] == n - 1 ==> x == c + [n - 1];
    }
  }

  lemma NoSuchRow(tables: seq<RowSet>, x: seq<nat>)
    requires |tables| >= 1 && AllTyped(tables) && |x| == |tables| && x[|x| - 1] >= |tables[|tables| - 1].rows|
    ensures !Agreeing(tables, x)
  {
  }

  lemma {:induction false} ExtensionsMembers(tables: seq<RowSet>, cs: seq<seq<nat>>, m: nat, x: seq<nat>)
    requires |tables| >= 1 && AllTyped(tables) && AllChoices(tables[..|tables| - 1], cs) && m <= |cs|
    ensures x in Extensions(tables, cs, m) <==> |x| == |tables| && x[..|x| - 1] in cs[..m] && Agreeing(tables, x)
  {
    hide Agreeing, AllTyped, Picks;
    if m > 0 {
      ExtensionsMembers(tables, cs, m - 1, x);
      var ps := Picks(tables, cs[m - 1], |tables[|tables| - 1].rows|);
      PicksMembers(tables, cs[m - 1], |tables[|tables| - 1].rows|, x);
      assert Extensions(tables, cs, m) == Extensions(tables, cs, m - 1) + ps;
      assert cs[..m] == cs[..m - 1] + [cs[m - 1]];
      if |x| == |tables| && x[|x| - 1] >= |tables[|tables| - 1].rows| {
        NoSuchRow(tables, x);
      }
    }
  }

  lemma ExtensionsAreChoices(tables: seq<RowSet>, cs: seq<seq<nat>>, m: nat)
    requires |tables| >= 1 && AllTyped(tables) && AllChoices(tables[..|tables| - 1], cs) && m <= |cs|
    ensures AllChoices(tables, Extensions(tables, cs, m))
  {
    forall i | 0 <= i < |Extensions(tables, cs, m)| ensures IsChoice(tables, Extensions(tables, cs, m)[i]) {
      ExtensionsMembers(tables, cs, m, Extensions(tables, cs, m)[i]);
    }
  }

  lemma InitAgrees(tables: seq<RowSet>, x: seq<nat>)
    requires |tables| >= 1 && AllTyped(tables) && Agreeing(tables, x)
    ensures AllTyped(tables[..|tables| - 1]) && Agreeing(tables[..|tables| - 1], x[..|x| - 1])
  {
    var init, c := tables[..|tables| - 1], x[..|x| - 1];
    forall t, u, k | 0 <= t < u < |init| && k in init[t].schema && k in init[u].schema
      ensures ValueIn(init, c, t, k) == ValueIn(init, c, u, k)
    {
      assert ValueIn(init, c, t, k) == ValueIn(tables, x, t, k) && ValueIn(init, c, u, k) == ValueIn(tables, x, u, k);
    }
  }

  /** The choices are exactly the agreeing ones. */
  lemma {:induction false} ChoicesAreAgreeing(tables: seq<RowSet>, x: seq<nat>)
    requires AllTyped(tables)
    ensures x in Choices(tables) <==> Agreeing(tables, x)
    decreases |tables|
  {
    if |tables| > 0 {
      var init := tables[..|tables| - 1];
      var cs := Choices(init);
      ExtensionsMembers(tables, cs, |cs|, x);
      assert cs[..|cs|] == cs;
      if |x| == |tables| {
        ChoicesAreAgreeing(init, x[..|x| - 1]);
        if Agreeing(tables, x) {
          InitAgrees(tables, x);
        }
      }
    }
  }

  /** Lexicographic order of choices. */
  ghost predicate LexLess(a: seq<nat>, b: seq<nat>) {
    exists k :: 0 <= k < |a| && k < |b| && a[..k] == b[..k] && a[k] < b[k]
  }

  ghost predicate LexAscending(cs: seq<seq<nat>>) {
    forall i, j :: 0 <= i < j < |cs| ==> LexLess(cs[i], cs[j])
  }

  lemma LastDecides(c: seq<nat>, m: nat, n: nat)
    requires m < n
    ensures LexLess(c + [m], c + [n])
  {
    var a, b := c + [m], c + [n];
    assert a[..|c|] == b[..|c|] && a[|c|] < b[|c|];
  }

  lemma PrefixDecides(a: seq<nat>, b: seq<nat>, m: nat, n: nat)
    requires LexLess(a, b)
    ensures LexLess(a + [m], b + [n])
  {
    var k :| 0 <= k < |a| && k < |b| && a[..k] == b[..k] && a[k] < b[k];
    assert (a + [m])[..k] == (b + [n])[..k] && (a + [m])[k] < (b + [n])[k];
  }

  lemma AscendingConcat(a: seq<seq<nat>>, b: seq<seq<nat>>)
    requires LexAscending(a) && LexAscending(b)
    requires forall i, j :: 0 <= i < |a| && 0 <= j < |b| ==> LexLess(a[i], b[j])
    ensures LexAscending(a + b)
  {
  }

  lemma {:induction false} PicksAscend(tables: seq<RowSet>, c: seq<nat>, n: nat)
    requires |tables| >= 1 && AllTyped(tables) && IsChoice(tables[..|tables| - 1], c) && n <= |tables[|tables| - 1].rows|
    ensures LexAscending(Picks(tables, c, n))
  {
    hide Agreeing, AllTyped, LexLess;
    if n > 0 {
      PicksAscend(tables, c, n - 1);
      var ps, next := Picks(tables, c, n - 1), if Agreeing(tables, c + [n - 1]) then [c + [n - 1]] else [];
      forall i, j | 0 <= i < |ps| && 0 <= j < |next| ensures LexLess(ps[i], next[j]) {
        PickLess(tables, c, n - 1, ps[i]);
      }
      AscendingConcat(ps, next);
    }
  }

  lemma PickLess(tables: seq<RowSet>, c: seq<nat>, n: nat, x: seq<nat>)
    requires |tables| >= 1 && AllTyped(tables) && IsChoice(tables[..|tables| - 1], c) && n <= |tables[|tables| - 1].rows|
    requires x in Picks(tables, c, n)
    ensures LexLess(x, c + [n])
  {
    hide Agreeing, AllTyped, Picks, LexLess;
    PicksMembers(tables, c, n, x);
    assert x == c + [x[|c|]];
    LastDecides(c, x[|c|], n);
  }

  lemma {:induction false} ExtensionsAscend(tables: seq<RowSet>, cs: seq<seq<nat>>, m: nat)
    requires |tables| >= 1 && AllTyped(tables) && AllChoices(tables[..|tables| - 1], cs) && m <= |cs|
    requires LexAscending(cs)
    ensures LexAscending(Extensions(tables, cs, m))
  {
    hide Agreeing, AllTyped, LexLess, Picks;
    if m > 0 {
      var n := |tables[|tables| - 1].rows|;
      ExtensionsAscend(tables, cs, m - 1);
      PicksAscend(tables, cs[m - 1], n);
      var es, ps := Extensions(tables, cs, m - 1), Picks(tables, cs[m - 1], n);
      forall i, j | 0 <= i < |es| && 0 <= j < |ps| ensures LexLess(es[i], ps[j]) {
        ExtensionLess(tables, cs, m - 1, es[i], ps[j]);
      }
      AscendingConcat(es, ps);
    }
  }

  lemma ExtensionLess(tables: seq<RowSet>, cs: seq<seq<nat>>, m: nat, x: seq<nat>, y: seq<nat>)
    requires |tables| >= 1 && AllTyped(tables) && AllChoices(tables[..|tables| - 1], cs) && m < |cs| && LexAscending(cs)
    requires x in Extensions(tables, cs, m) && y in Picks(tables, cs[m], |tables[|tables| - 1].rows|)
    ensures LexLess(x, y)
  {
    hide Agreeing, AllTyped, LexLess, Picks, Extensions;
    ExtensionsMembers(tables, cs, m, x);
    PicksMembers(tables, cs[m], |tables[|tables| - 1].rows|, y);
    var a, b := x[..|x| - 1], y[..|y| - 1];
    var i :| 0 <= i < m && cs[i] == a;
    assert x == a + [x[|a|]] && y == b + [y[|b|]];
    PrefixDecides(a, b, x[|a|], y[|b|]);
  }

  /** ... each once, in lexicographic order. */
  lemma {:induction false} ChoicesAscend(tables: seq<RowSet>)
    requires AllTyped(tables)
    ensures LexAscending(Choices(tables))
    decreases |tables|
  {
    if |tables| > 0 {
      var init := tables[..|tables| - 1];
      ChoicesAscend(init);
      ExtensionsAscend(tables, Choices(init), |Choices(init)|);
    }
  }

  // ----- The pairwise join is the natural join -----

  lemma AllColumnsMember(tables: seq<RowSet>, t: nat, k: Column)
    requires t < |tables| && k in tables[t].schema
    ensures k in AllColumns(tables)
    decreases |tables|
  {
    if t < |tables| - 1 {
      AllColumnsMember(tables[..|tables| - 1], t, k);
    }
  }

  lemma {:induction false} AddedFirstOccurrences(a: Schema, b: Schema)
    requires Distinct(b)
    ensures FirstOccurrences(a + b) == FirstOccurrences(a) + Added(FirstOccurrences(a), b)
    decreases |b|
  {
    if |b| == 0 {
      assert a + b == a;
    } else {
      var init, last := b[..|b| - 1], b[|b| - 1];
      AddedFirstOccurrences(a, init);
      assert (a + b)[..|a + b| - 1] == a + init;
      assert last !in init;
    }
  }

  lemma AddedMember(left: Schema, right: Schema, c: Column)
    ensures c in Added(left, right) <==> c in right && c !in left
    decreases |right|
  {
    if |right| > 0 {
      AddedMember(left, right[..|right| - 1], c);
      assert right == right[..|right| - 1] + [right[|right| - 1]];
    }
  }

  /** A column's value does not change when more tables are joined. */
  lemma ValueKept(tables: seq<RowSet>, x: seq<nat>, t: nat, k: Column)
    requires |tables| >= 1 && AllTyped(tables) && IsChoice(tables, x)
    requires t < |tables| - 1 && k in tables[t].schema
    ensures AllTyped(tables[..|tables| - 1]) && IsChoice(tables[..|tables| - 1], x[..|x| - 1])
    ensures ValueIn(tables[..|tables| - 1], x[..|x| - 1], t, k) == ValueIn(tables, x, t, k)
    ensures k in AllColumns(tables[..|tables| - 1])
    ensures FirstWith(tables, k) == FirstWith(tables[..|tables| - 1], k) < |tables| - 1
  {
    AllColumnsMember(tables[..|tables| - 1], t, k);
  }

  /** Looking a column up in the joined row gives the value of the first table that has it. */
  lemma RowLookup(tables: seq<RowSet>, x: seq<nat>, k: Column)
    requires AllTyped(tables) && IsChoice(tables, x) && k in AllColumns(tables)
    ensures k in SchemaOf(tables)
    ensures RowOf(tables, x)[Position(SchemaOf(tables), k)] == ValueIn(tables, x, FirstWith(tables, k), k)
  {
  }

  lemma MatchingAgrees(tables: seq<RowSet>, c: seq<nat>, r: nat)
    requires |tables| >= 1 && AllTyped(tables) && r < |tables[|tables| - 1].rows|
    requires AllTyped(tables[..|tables| - 1]) && Agreeing(tables[..|tables| - 1], c)
    requires MatchingLast(tables, c, r)
    ensures Agreeing(tables, c + [r])
  {
    var init, last, x := tables[..|tables| - 1], |tables| - 1, c + [r];
    assert x[..|x| - 1] == c;
    forall t, u, k | 0 <= t < u < |tables| && k in tables[t].schema && k in tables[u].schema
      ensures ValueIn(tables, x, t, k) == ValueIn(tables, x, u, k)
    {
      if u < last {
        ValueKept(tables, x, t, k);
        ValueKept(tables, x, u, k);
      } else {
        MatchingPair(tables, c, r, t, k);
      }
    }
  }

  lemma MatchingPair(tables: seq<RowSet>, c: seq<nat>, r: nat, t: nat, k: Column)
    requires |tables| >= 1 && AllTyped(tables) && r < |tables[|tables| - 1].rows|
    requires AllTyped(tables[..|tables| - 1]) && Agreeing(tables[..|tables| - 1], c)
    requires MatchingLast(tables, c, r) && t < |tables| - 1 && k in tables[t].schema && k in tables[|tables| - 1].schema
    ensures IsChoice(tables, c + [r]) && ValueIn(tables, c + [r], t, k) == ValueIn(tables, c + [r], |tables| - 1, k)
  {
    var init, x := tables[..|tables| - 1], c + [r];
    assert IsChoice(init, c);
    hide Agreeing, AllTyped, FirstWith, SchemaOf, ValueIn, MatchingLast;
    assert x[..|x| - 1] == c;
    ValueKept(tables, x, t, k);
    LastValue(tables, c, r, k);
    AgreeEach(init, c, FirstWith(init, k), t, k);
  }

  lemma AgreeEach(tables: seq<RowSet>, c: seq<nat>, t: nat, u: nat, k: Column)
    requires AllTyped(tables) && Agreeing(tables, c) && t < |tables| && u < |tables|
    requires k in tables[t].schema && k in tables[u].schema
    ensures ValueIn(tables, c, t, k) == ValueIn(tables, c, u, k)
  {
    hide ValueIn, AllTyped;
    if t < u {
      assert ValueIn(tables, c, t, k) == ValueIn(tables, c, u, k);
    } else if u < t {
      assert ValueIn(tables, c, u, k) == ValueIn(tables, c, t, k);
    }
  }

  lemma LastValue(tables: seq<RowSet>, c: seq<nat>, r: nat, k: Column)
    requires |tables| >= 1 && AllTyped(tables) && r < |tables[|tables| - 1].rows|
    requires AllTyped(tables[..|tables| - 1]) && IsChoice(tables[..|tables| - 1], c)
    requires MatchingLast(tables, c, r) && k in AllColumns(tables[..|tables| - 1]) && k in tables[|tables| - 1].schema
    ensures IsChoice(tables, c + [r])
    ensures ValueIn(tables[..|tables| - 1], c, FirstWith(tables[..|tables| - 1], k), k) == ValueIn(tables, c + [r], |tables| - 1, k)
  {
    RowLookup(tables[..|tables| - 1], c, k);
    hide AllTyped, FirstWith, SchemaOf, AllColumns, RowOf;
  }

  /** The row of the first tables matches row r of the last. */
  ghost predicate MatchingLast(tables: seq<RowSet>, c: seq<nat>, r: nat)
    requires |tables| >= 1 && AllTyped(tables) && r < |tables[|tables| - 1].rows|
    requires AllTyped(tables[..|tables| - 1]) && IsChoice(tables[..|tables| - 1], c)
  {
    var init, last := tables[..|tables| - 1], tables[|tables| - 1];
    assert RowFits(last.schema, last.rows[r]);
    Matching(SchemaOf(init), RowOf(init, c), last.schema, last.rows[r])
  }

  lemma AgreeingMatches(tables: seq<RowSet>, c: seq<nat>, r: nat)
    requires |tables| >= 1 && AllTyped(tables) && r < |tables[|tables| - 1].rows|
    requires AllTyped(tables[..|tables| - 1]) && IsChoice(tables[..|tables| - 1], c)
    requires Agreeing(tables, c + [r])
    ensures MatchingLast(tables, c, r)
  {
    var init, last, x := tables[..|tables| - 1], tables[|tables| - 1], c + [r];
    assert x[..|x| - 1] == c;
    forall k | k in SchemaOf(init) && k in last.schema
      ensures RowOf(init, c)[Position(SchemaOf(init), k)] == last.rows[r][Position(last.schema, k)]
    {
      RowLookup(init, c, k);
      var f := FirstWith(init, k);
      ValueKept(tables, x, f, k);
      assert ValueIn(tables, x, f, k) == ValueIn(tables, x, |tables| - 1, k);
    }
  }

  lemma SchemaStep(tables: seq<RowSet>)
    requires |tables| >= 1 && AllTyped(tables)
    ensures var init, last := tables[..|tables| - 1], tables[|tables| - 1];
            SchemaOf(tables) == SchemaOf(init) + Added(SchemaOf(init), last.schema)
  {
    assert WellTyped(tables[|tables| - 1]);
    AddedFirstOccurrences(AllColumns(tables[..|tables| - 1]), tables[|tables| - 1].schema);
  }

  /** The pairwise joined row is that of the choice. */
  lemma JoinedRow(tables: seq<RowSet>, c: seq<nat>, r: nat)
    requires |tables| >= 1 && AllTyped(tables) && r < |tables[|tables| - 1].rows|
    requires AllTyped(tables[..|tables| - 1]) && IsChoice(tables[..|tables| - 1], c)
    ensures var init, last := tables[..|tables| - 1], tables[|tables| - 1];
            IsChoice(tables, c + [r]) && |last.rows[r]| == |last.schema| &&
            JoinRow(SchemaOf(init), RowOf(init, c), last.schema, last.rows[r]) == RowOf(tables, c + [r])
  {
    var init, last, x := tables[..|tables| - 1], tables[|tables| - 1], c + [r];
    assert RowFits(last.schema, last.rows[r]);
    assert x[..|x| - 1] == c;
    SchemaStep(tables);
    var row := JoinRow(SchemaOf(init), RowOf(init, c), last.schema, last.rows[r]);
    hide SchemaOf, Added, JoinValue, ValueIn, FirstWith, RowOf, JoinRow, WellTyped, RowFits, AllTyped, AllColumns, IsChoice;
    forall i | 0 <= i < |SchemaOf(tables)| ensures row[i] == RowOf(tables, x)[i] {
      InSchema(tables, i);
      JoinedValue(tables, c, r, SchemaOf(tables)[i]);
    }
  }

  lemma InSchema(tables: seq<RowSet>, i: nat)
    requires i < |SchemaOf(tables)|
    ensures SchemaOf(tables)[i] in AllColumns(tables)
  {
    assert SchemaOf(tables)[i] in SchemaOf(tables);
  }

  lemma JoinedValue(tables: seq<RowSet>, c: seq<nat>, r: nat, k: Column)
    requires |tables| >= 1 && AllTyped(tables) && r < |tables[|tables| - 1].rows|
    requires AllTyped(tables[..|tables| - 1]) && IsChoice(tables[..|tables| - 1], c) && IsChoice(tables, c + [r])
    requires k in AllColumns(tables) && |tables[|tables| - 1].rows[r]| == |tables[|tables| - 1].schema|
    ensures var init, last := tables[..|tables| - 1], tables[|tables| - 1];
            JoinValue(SchemaOf(init), RowOf(init, c), last.schema, last.rows[r], k)
            == ValueIn(tables, c + [r], FirstWith(tables, k), k)
  {
    var init, last, x := tables[..|tables| - 1], tables[|tables| - 1], c + [r];
    assert x[..|x| - 1] == c;
    if k in AllColumns(init) {
      RowLookup(init, c, k);
      ValueKept(tables, x, FirstWith(init, k), k);
    }
  }

  ghost function RowsOf(tables: seq<RowSet>, cs: seq<seq<nat>>): (rows: seq<Row>)
    requires AllTyped(tables) && AllChoices(tables, cs)
    ensures |rows| == |cs| && forall i :: 0 <= i < |cs| ==> rows[i] == RowOf(tables, cs[i])
  {
    seq(|cs|, i requires 0 <= i < |cs| => RowOf(tables, cs[i]))
  }

  /** The n-ary natural join. */
  ghost function NaturalJoin(tables: seq<RowSet>): RowSet
    requires AllTyped(tables)
  {
    RowSet(SchemaOf(tables), RowsOf(tables, Choices(tables)))
  }

  lemma PicksAreChoices(tables: seq<RowSet>, c: seq<nat>, n: nat)
    requires |tables| >= 1 && AllTyped(tables) && IsChoice(tables[..|tables| - 1], c) && n <= |tables[|tables| - 1].rows|
    ensures AllChoices(tables, Picks(tables, c, n))
  {
    forall i | 0 <= i < |Picks(tables, c, n)| ensures IsChoice(tables, Picks(tables, c, n)[i]) {
      PicksMembers(tables, c, n, Picks(tables, c, n)[i]);
    }
  }

  lemma InitTyped(tables: seq<RowSet>)
    requires |tables| >= 1 && AllTyped(tables)
    ensures AllTyped(tables[..|tables| - 1]) && Shaped(NaturalJoin(tables[..|tables| - 1])) && Shaped(tables[|tables| - 1])
  {
    assert WellTyped(tables[|tables| - 1]);
  }

  /** The inner loop yields the rows of the choices that extend choice i. */
  lemma {:induction false} RowsForPicks(tables: seq<RowSet>, i: nat, n: nat)
    requires |tables| >= 1 && AllTyped(tables) && n <= |tables[|tables| - 1].rows|
    requires AllTyped(tables[..|tables| - 1]) && Shaped(NaturalJoin(tables[..|tables| - 1])) && Shaped(tables[|tables| - 1])
    requires i < |Choices(tables[..|tables| - 1])|
    ensures var init := tables[..|tables| - 1];
            AllChoices(tables, Picks(tables, Choices(init)[i], n)) &&
            RowsFor(NaturalJoin(init), i, tables[|tables| - 1], n) == RowsOf(tables, Picks(tables, Choices(init)[i], n))
  {
    hide Agreeing, MatchingLast, Choices, RowOf, JoinRow, SchemaOf, AllTyped, Matching, RowsFor, RowsOf, Picks, IsChoice;
    hide NaturalJoin, AllChoices, Shaped, WellTyped;
    ChoiceAt(tables[..|tables| - 1], i);
    PicksAreChoices(tables, Choices(tables[..|tables| - 1])[i], n);
    if n == 0 {
      RowsForNone(tables, i);
    } else {
      RowsForPicks(tables, i, n - 1);
      RowsForNext(tables, i, n);
    }
  }

  lemma RowsForNone(tables: seq<RowSet>, i: nat)
    requires |tables| >= 1 && AllTyped(tables)
    requires AllTyped(tables[..|tables| - 1]) && Shaped(NaturalJoin(tables[..|tables| - 1])) && Shaped(tables[|tables| - 1])
    requires i < |Choices(tables[..|tables| - 1])| && IsChoice(tables[..|tables| - 1], Choices(tables[..|tables| - 1])[i])
    requires AllChoices(tables, Picks(tables, Choices(tables[..|tables| - 1])[i], 0))
    ensures RowsFor(NaturalJoin(tables[..|tables| - 1]), i, tables[|tables| - 1], 0)
            == RowsOf(tables, Picks(tables, Choices(tables[..|tables| - 1])[i], 0))
  {
  }

  lemma RowsForNext(tables: seq<RowSet>, i: nat, n: nat)
    requires |tables| >= 1 && AllTyped(tables) && 0 < n <= |tables[|tables| - 1].rows|
    requires AllTyped(tables[..|tables| - 1]) && Shaped(NaturalJoin(tables[..|tables| - 1])) && Shaped(tables[|tables| - 1])
    requires i < |Choices(tables[..|tables| - 1])| && IsChoice(tables[..|tables| - 1], Choices(tables[..|tables| - 1])[i])
    requires var c := Choices(tables[..|tables| - 1])[i];
             AllChoices(tables, Picks(tables, c, n)) && AllChoices(tables, Picks(tables, c, n - 1)) &&
             RowsFor(NaturalJoin(tables[..|tables| - 1]), i, tables[|tables| - 1], n - 1) == RowsOf(tables, Picks(tables, c, n - 1))
    ensures RowsFor(NaturalJoin(tables[..|tables| - 1]), i, tables[|tables| - 1], n)
            == RowsOf(tables, Picks(tables, Choices(tables[..|tables| - 1])[i], n))
  {
    hide Agreeing, MatchingLast, Choices, RowOf, JoinRow, SchemaOf, AllTyped, Matching, RowsFor, RowsOf, Picks, IsChoice;
    hide NaturalJoin, AllChoices, Shaped, WellTyped;
    ChoiceAt(tables[..|tables| - 1], i);
    var c := Choices(tables[..|tables| - 1])[i];
    JoinedRow(tables, c, n - 1);
    PickOfRow(tables, c, n - 1);
    RowsForStep(tables, i, n);
  }

  lemma ChoiceAt(tables: seq<RowSet>, i: nat)
    requires AllTyped(tables) && i < |Choices(tables)|
    ensures IsChoice(tables, Choices(tables)[i]) && Agreeing(tables, Choices(tables)[i])
  {
    ChoicesAreAgreeing(tables, Choices(tables)[i]);
  }

  /** An agreeing choice is extended by exactly the rows that match. */
  lemma PickOfRow(tables: seq<RowSet>, c: seq<nat>, r: nat)
    requires |tables| >= 1 && AllTyped(tables) && r < |tables[|tables| - 1].rows|
    requires AllTyped(tables[..|tables| - 1]) && Agreeing(tables[..|tables| - 1], c) && IsChoice(tables[..|tables| - 1], c)
    ensures Agreeing(tables, c + [r]) <==> MatchingLast(tables, c, r)
  {
    if Agreeing(tables, c + [r]) {
      AgreeingMatches(tables, c, r);
    } else if MatchingLast(tables, c, r) {
      MatchingAgrees(tables, c, r);
    }
  }

  lemma RowsForStep(tables: seq<RowSet>, i: nat, n: nat)
    requires |tables| >= 1 && AllTyped(tables) && 0 < n <= |tables[|tables| - 1].rows|
    requires AllTyped(tables[..|tables| - 1]) && Shaped(NaturalJoin(tables[..|tables| - 1])) && Shaped(tables[|tables| - 1])
    requires i < |Choices(tables[..|tables| - 1])|
    requires var init, last, c := tables[..|tables| - 1], tables[|tables| - 1], Choices(tables[..|tables| - 1])[i];
             AllChoices(tables, Picks(tables, c, n)) && AllChoices(tables, Picks(tables, c, n - 1)) && IsChoice(tables, c + [n - 1]) &&
             RowsFor(NaturalJoin(init), i, last, n - 1) == RowsOf(tables, Picks(tables, c, n - 1)) &&
             (Agreeing(tables, c + [n - 1]) <==> MatchingLast(tables, c, n - 1)) &&
             JoinRow(SchemaOf(init), RowOf(init, c), last.schema, last.rows[n - 1]) == RowOf(tables, c + [n - 1])
    ensures RowsFor(NaturalJoin(tables[..|tables| - 1]), i, tables[|tables| - 1], n)
            == RowsOf(tables, Picks(tables, Choices(tables[..|tables| - 1])[i], n))
  {
    hide Agreeing, Matching, JoinRow, RowOf, SchemaOf, AllTyped, Choices;
  }

  lemma {:induction false} RowsUpToExtensions(tables: seq<RowSet>, m: nat)
    requires |tables| >= 1 && AllTyped(tables)
    requires AllTyped(tables[..|tables| - 1]) && Shaped(NaturalJoin(tables[..|tables| - 1])) && Shaped(tables[|tables| - 1])
    requires m <= |Choices(tables[..|tables| - 1])|
    ensures var init := tables[..|tables| - 1];
            AllChoices(tables, Extensions(tables, Choices(init), m)) &&
            RowsUpTo(NaturalJoin(init), m, tables[|tables| - 1]) == RowsOf(tables, Extensions(tables, Choices(init), m))
  {
    hide Agreeing, RowOf, SchemaOf, AllTyped, Choices, RowsFor, Picks;
    var cs := Choices(tables[..|tables| - 1]);
    ExtensionsAreChoices(tables, cs, m);
    if m > 0 {
      RowsUpToExtensions(tables, m - 1);
      RowsForPicks(tables, m - 1, |tables[|tables| - 1].rows|);
    }
  }

  /** One more pairwise join is one more table in the natural join. */
  lemma JoinTwoIsNatural(tables: seq<RowSet>)
    requires |tables| >= 1 && AllTyped(tables)
    ensures AllTyped(tables[..|tables| - 1]) && Shaped(NaturalJoin(tables[..|tables| - 1])) && Shaped(tables[|tables| - 1])
    ensures JoinTwo(NaturalJoin(tables[..|tables| - 1]), tables[|tables| - 1]) == NaturalJoin(tables)
  {
    InitTyped(tables);
    SchemaStep(tables);
    RowsUpToExtensions(tables, |Choices(tables[..|tables| - 1])|);
    hide RowsUpTo, Extensions, SchemaOf, RowOf;
  }

  const NONE: RowSet := RowSet([], [[]])

  /** A single table is its own natural join. */
  lemma SingleIsNatural(t: RowSet)
    requires WellTyped(t)
    ensures AllTyped([t]) && NaturalJoin([t]) == t
  {
    JoinTwoIsNatural([t]);
    assert [t][..0] == [];
    NoTables();
    JoinWithNone(t);
    hide NaturalJoin, JoinTwo, AllTyped, WellTyped;
  }

  lemma JoinWithNone(t: RowSet)
    requires WellTyped(t)
    ensures Shaped(t) && Shaped(NONE) && JoinTwo(NONE, t) == t
  {
    hide WellTyped, Shaped, Distinct, RowsFor, Added;
    TypedShape(t);
    AddedToNone(t.schema);
    RowsWithNone(t, |t.rows|);
    assert NONE.schema + t.schema == t.schema && t.rows[..|t.rows|] == t.rows;
    assert RowsUpTo(NONE, 1, t) == RowsUpTo(NONE, 0, t) + RowsFor(NONE, 0, t, |t.rows|);
  }

  lemma NoTables()
    ensures AllTyped([]) && NaturalJoin([]) == NONE
  {
  }

  lemma {:induction false} AddedToNone(s: Schema)
    ensures Added([], s) == s
    decreases |s|
  {
    if |s| > 0 {
      AddedToNone(s[..|s| - 1]);
      assert s == s[..|s| - 1] + [s[|s| - 1]];
    }
  }

  lemma ValueWithNone(schema: Schema, row: Row, i: nat)
    requires Distinct(schema) && |row| == |schema| && i < |row|
    ensures JoinValue([], [], schema, row, schema[i]) == row[i]
  {
    PositionIs(schema, schema[i], i);
  }

  lemma RowWithNone(schema: Schema, row: Row)
    requires Distinct(schema) && |row| == |schema|
    ensures JoinRow([], [], schema, row) == row
  {
    hide JoinValue, Distinct, Added;
    AddedToNone(schema);
    assert [] + schema == schema;
    forall i | 0 <= i < |row| ensures JoinRow([], [], schema, row)[i] == row[i] {
      ValueWithNone(schema, row, i);
    }
  }

  lemma TypedShape(t: RowSet)
    requires WellTyped(t)
    ensures Shaped(t) && Shaped(NONE) && Distinct(t.schema)
  {
    assert forall i :: 0 <= i < |t.rows| ==> RowFits(t.schema, t.rows[i]);
  }

  lemma {:induction false} RowsWithNone(t: RowSet, n: nat)
    requires Shaped(t) && Shaped(NONE) && Distinct(t.schema) && n <= |t.rows|
    ensures RowsFor(NONE, 0, t, n) == t.rows[..n]
  {
    hide JoinRow, Distinct;
    if n > 0 {
      RowsWithNone(t, n - 1);
      RowWithNone(t.schema, t.rows[n - 1]);
      assert Matching(NONE.schema, NONE.rows[0], t.schema, t.rows[n - 1]);
      hide Matching;
      assert t.rows[..n] == t.rows[..n - 1] + [t.rows[n - 1]];
    }
  }
}
