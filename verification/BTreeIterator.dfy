/** Scans of the index with conditions on key columns (lib/sql/btree.cpp, lib/sql/index.h). */
module BTreeIterator {
  import opened Rows
  import opened Comparator
  import opened Schemas
  import opened BTreeModel
  import opened BTreeScan
  import opened BTreePage
  import opened BTree

  datatype IndexComparator = Equal | NotEqual | Greater | GreaterOrEqual | LessThan | LessOrEqual

  /** A comparison of a key column with a constant; conditions are combined by AND. */
  datatype Condition = Condition(column: Text, comparator: IndexComparator, value: Value)

  // ----- What a condition means -----

  /** Index of the first column with the given name, the number of columns if there is none. */
  function ColumnIndex(schema: Schema, name: Text): (i: nat)
    ensures i <= |schema|
    ensures forall j :: 0 <= j < i ==> schema[j].name != name
    ensures i < |schema| ==> schema[i].name == name
  {
    if schema == [] || schema[0].name == name then 0 else 1 + ColumnIndex(schema[1..], name)
  }

  predicate Known(schema: Schema, c: Condition) {
    ColumnIndex(schema, c.column) < |schema|
  }

  /** The key's column stands in the stated relation to the constant. */
  predicate Satisfies(schema: Schema, key: Row, c: Condition)
    requires Known(schema, c) && |key| == |schema|
  {
    var w := key[ColumnIndex(schema, c.column)];
    match c.comparator
    case Equal => w == c.value
    case NotEqual => w != c.value
    case Greater => CompareValues(c.value, w) == -1
    case GreaterOrEqual => w == c.value || CompareValues(c.value, w) == -1
    case LessThan => CompareValues(w, c.value) == -1
    case LessOrEqual => w == c.value || CompareValues(w, c.value) == -1
  }

  /** What checking a key against the conditions gives; an unknown column throws. */
  datatype Verdict = Accepted | Rejected | UnknownColumn

  function Check(schema: Schema, conditions: seq<Condition>, key: Row): Verdict
    requires |key| == |schema|
  {
    if conditions == [] then Accepted
    else if !Known(schema, conditions[0]) then UnknownColumn
    else if !Satisfies(schema, key, conditions[0]) then Rejected
    else Check(schema, conditions[1..], key)
  }

  /** The constant of each condition on a known column is of the key column's type, as the
      comparator demands. */
  ghost predicate Comparable(schema: Schema, conditions: seq<Condition>, key: Row) {
    |key| == |schema| &&
    forall c :: c in conditions && Known(schema, c) ==> c.value.Kind() == key[ColumnIndex(schema, c.column)].Kind()
  }

  lemma {:induction false} CheckMeaning(schema: Schema, conditions: seq<Condition>, key: Row)
    requires |key| == |schema| && forall c :: c in conditions ==> Known(schema, c)
    ensures Check(schema, conditions, key) != UnknownColumn
    ensures Check(schema, conditions, key) == Accepted <==> forall c :: c in conditions ==> Satisfies(schema, key, c)
  {
    if conditions != [] {
      assert forall c :: c in conditions <==> c == conditions[0] || c in conditions[1..];
      CheckMeaning(schema, conditions[1..], key);
    }
  }

  // ----- What a comparison accepts -----

  /** The single condition that compares column i with a constant. */
  function Only(schema: Schema, i: nat, comparator: IndexComparator, x: Value): seq<Condition>
    requires i < |schema|
  {
    [Condition(schema[i].name, comparator, x)]
  }

  /** A single condition on column i accepts a key exactly if its value stands in the stated relation
      to the constant in the order of values. */
  lemma {:induction false} ConditionMeaning(schema: Schema, i: nat, w: Value, x: Value, key: Row)
    requires i < |schema| == |key| && key[i] == w && w.Kind() == x.Kind()
    requires forall j :: 0 <= j < i ==> schema[j].name != schema[i].name
    ensures Check(schema, Only(schema, i, Equal, x), key) == Accepted <==> w == x
    ensures Check(schema, Only(schema, i, NotEqual, x), key) == Accepted <==> w != x
    ensures Check(schema, Only(schema, i, LessThan, x), key) == Accepted <==> ValueBefore(w, x)
    ensures Check(schema, Only(schema, i, LessOrEqual, x), key) == Accepted <==> !ValueBefore(x, w)
    ensures Check(schema, Only(schema, i, Greater, x), key) == Accepted <==> ValueBefore(x, w)
    ensures Check(schema, Only(schema, i, GreaterOrEqual, x), key) == Accepted <==> !ValueBefore(w, x)
  {
    ColumnIndexUnique(schema, schema[i].name, i);
    CompareValuesMeaning(w, x);
    CompareValuesMeaning(x, w);
    CompareValuesTotal(w, x);
    hide CompareValues, ValueBefore;
  }

  /** On a column of signed integers conditions are comparisons of integers. */
  lemma {:induction false} IntConditions(schema: Schema, i: nat, y: int64, x: int64, key: Row)
    requires i < |schema| == |key| && key[i] == Int(y)
    requires forall j :: 0 <= j < i ==> schema[j].name != schema[i].name
    ensures Check(schema, Only(schema, i, Equal, Int(x)), key) == Accepted <==> y == x
    ensures Check(schema, Only(schema, i, NotEqual, Int(x)), key) == Accepted <==> y != x
    ensures Check(schema, Only(schema, i, LessThan, Int(x)), key) == Accepted <==> y < x
    ensures Check(schema, Only(schema, i, LessOrEqual, Int(x)), key) == Accepted <==> y <= x
    ensures Check(schema, Only(schema, i, Greater, Int(x)), key) == Accepted <==> y > x
    ensures Check(schema, Only(schema, i, GreaterOrEqual, Int(x)), key) == Accepted <==> y >= x
  {
    hide Check;
    ConditionMeaning(schema, i, Int(y), Int(x), key);
  }

  /** ... and on a column of unsigned ones. */
  lemma {:induction false} UIntConditions(schema: Schema, i: nat, y: uint64, x: uint64, key: Row)
    requires i < |schema| == |key| && key[i] == UInt(y)
    requires forall j :: 0 <= j < i ==> schema[j].name != schema[i].name
    ensures Check(schema, Only(schema, i, Equal, UInt(x)), key) == Accepted <==> y == x
    ensures Check(schema, Only(schema, i, NotEqual, UInt(x)), key) == Accepted <==> y != x
    ensures Check(schema, Only(schema, i, LessThan, UInt(x)), key) == Accepted <==> y < x
    ensures Check(schema, Only(schema, i, LessOrEqual, UInt(x)), key) == Accepted <==> y <= x
    ensures Check(schema, Only(schema, i, Greater, UInt(x)), key) == Accepted <==> y > x
    ensures Check(schema, Only(schema, i, GreaterOrEqual, UInt(x)), key) == Accepted <==> y >= x
  {
    hide Check;
    ConditionMeaning(schema, i, UInt(y), UInt(x), key);
  }

  // ----- What a scan with conditions gives -----

  datatype Fetched = Fetched(entry: Entry) | AtEnd | Threw

  /** The next result when the entries xs are still ahead, and the entries ahead after it. */
  function NextOf(schema: Schema, conditions: seq<Condition>, xs: seq<Entry>): (r: (Fetched, seq<Entry>))
    requires forall e :: e in xs ==> |e.key| == |schema|
    ensures |r.1| <= |xs| && (r.0.Fetched? ==> |r.1| < |xs|)
    ensures forall e :: e in r.1 ==> |e.key| == |schema|
  {
    if xs == [] then (AtEnd, [])
    else
      match Check(schema, conditions, xs[0].key)
      case Accepted => (Fetched(xs[0]), xs[1..])
      case Rejected => NextOf(schema, conditions, xs[1..])
      case UnknownColumn => (Threw, xs)
  }

  /** All entries that repeated calls give. */
  function Iterated(schema: Schema, conditions: seq<Condition>, xs: seq<Entry>): seq<Entry>
    requires forall e :: e in xs ==> |e.key| == |schema|
    decreases |xs|
  {
    var (r, rest) := NextOf(schema, conditions, xs);
    if r.Fetched? then [r.entry] + Iterated(schema, conditions, rest) else []
  }

  ghost function Filter(xs: seq<Entry>, keep: Row -> bool): seq<Entry> {
    if xs == [] then [] else (if keep(xs[0].key) then [xs[0]] else []) + Filter(xs[1..], keep)
  }

  ghost function AllSatisfied(schema: Schema, conditions: seq<Condition>): Row -> bool {
    key => |key| == |schema| && forall c :: c in conditions && Known(schema, c) ==> Satisfies(schema, key, c)
  }

  /** A scan with conditions on known columns gives exactly the filter of the full scan. */
  lemma {:induction false} IteratedIsFilter(schema: Schema, conditions: seq<Condition>, xs: seq<Entry>)
    requires forall e :: e in xs ==> |e.key| == |schema|
    requires forall c :: c in conditions ==> Known(schema, c)
    ensures Iterated(schema, conditions, xs) == Filter(xs, AllSatisfied(schema, conditions))
    decreases |xs|
  {
    if xs != [] {
      CheckMeaning(schema, conditions, xs[0].key);
      IteratedIsFilter(schema, conditions, xs[1..]);
    }
  }

  // ----- The iterator -----

  lemma LexSingle(v: Value, w: Value)
    ensures Lex([v], [w], []) == CompareValues(v, w)
  {
    CompareValuesTotal(v, w);
    assert LexFrom([v], [w], [], 1) == 0;
  }

  method GetIndexColumn(schema: Schema, name: Text) returns (i: nat)
    ensures i == ColumnIndex(schema, name)
  {
    i := 0;
    while i < |schema|
      invariant 0 <= i <= |schema|
      invariant forall j :: 0 <= j < i ==> schema[j].name != name
    {
      if schema[i].name == name {
        break;
      }
      i := i + 1;
    }
    ColumnIndexUnique(schema, name, i);
  }

  lemma ColumnIndexUnique(schema: Schema, name: Text, i: nat)
    requires i <= |schema| && forall j :: 0 <= j < i ==> schema[j].name != name
    requires i < |schema| ==> schema[i].name == name
    ensures i == ColumnIndex(schema, name)
  {
  }

  /** isRowValid: the comparisons of the program, condition by condition. */
  method IsRowValid(schema: Schema, conditions: seq<Condition>, key: Row) returns (v: Verdict)
    requires Comparable(schema, conditions, key)
    ensures v == Check(schema, conditions, key)
  {
    hide CompareValues, Lex;
    var i := 0;
    while i < |conditions|
      invariant 0 <= i <= |conditions|
      invariant Check(schema, conditions, key) == Check(schema, conditions[i..], key)
    {
      var c := conditions[i];
      assert conditions[i..][0] == c && conditions[i..][1..] == conditions[i + 1..] && c in conditions;
      var column := GetIndexColumn(schema, c.column);
      if column == |schema| {
        return UnknownColumn;
      }
      var r := CompareRows([c.value], [key[column]], []);
      LexSingle(c.value, key[column]);
      CompareValuesTotal(c.value, key[column]);
      if c.comparator == Equal && r != 0 {
        return Rejected;
      }
      if c.comparator == NotEqual && r == 0 {
        return Rejected;
      }
      if c.comparator == Greater && r != -1 {
        return Rejected;
      }
      if c.comparator == GreaterOrEqual && r == 1 {
        return Rejected;
      }
      if c.comparator == LessThan && r != 1 {
        return Rejected;
      }
      if c.comparator == LessOrEqual && r == -1 {
        return Rejected;
      }
      i := i + 1;
    }
    v := Accepted;
  }

  class Iterator {
    const tree: Tree
    const conditions: seq<Condition>
    var leafPage: int
    var offset: nat
    var isEnd: bool

    /** The iterator's position. */
    ghost function Position(): Cursor
      reads this
    {
      Cursor(leafPage, offset, isEnd)
    }

    /** The entries xs are ahead of the iterator, and the conditions can be checked on their keys. */
    ghost predicate Ahead(xs: seq<Entry>)
      reads this, tree, tree.pages
    {
      tree.Valid() && Yields(tree.Content(), Position(), xs) &&
      forall e :: e in xs ==> Comparable(tree.marshal.schema, conditions, e.key)
    }

    /** read(predicates): starts at the leaf that slot 0 of each page leads to. */
    constructor (tree: Tree, conditions: seq<Condition>)
      requires tree.Valid() && Shaped(tree.Content())
      ensures this.tree == tree && this.conditions == conditions
      ensures Position() == Start(tree.Content())
    {
      this.tree, this.conditions := tree, conditions;
      new;
      hide View;
      ghost var ps := tree.Content();
      assert tree.PageView(0) == ps[0];
      var root := tree.GetRootPageIndex();
      var page: nat := root;
      assert tree.PageView(page) == ps[page];
      var kind := tree.GetPageType(page);
      KindOfView(tree.marshal.schema, tree.pages[page][..]);
      if kind != LEAF_PAGE {
        var child := tree.GetChild(page, 0);
        page := child;
      }
      leafPage, offset, isEnd := page, 0, false;
    }

    /** The entry at the position; None at the end. */
    method Current() returns (e: Option<Entry>)
      requires tree.Valid() && IsLeafPage(tree.Content(), leafPage)
      ensures var n := Next(tree.Content(), Position());
              if n.None? then e == None else e == Some(n.value.0)
    {
      hide View, LeafSlots, LeafHeader;
      if isEnd {
        return None;
      }
      assert tree.PageView(leafPage) == tree.Content()[leafPage];
      var leaf := tree.OpenLeaf(leafPage);
      var size := leaf.GetSize();
      if offset >= size {
        return None;
      }
      var value := leaf.GetValue(offset);
      var key := leaf.GetKey(offset);
      return Some(Entry(key, value));
    }

    /** One entry further, into the next leaf behind the last entry of a leaf. */
    method Advance()
      requires tree.Valid() && IsLeafPage(tree.Content(), leafPage) && Next(tree.Content(), Position()).Some?
      modifies this
      ensures Position() == Next(tree.Content(), old(Position())).value.1
    {
      hide View, LeafSlots, LeafHeader;
      assert tree.PageView(leafPage) == tree.Content()[leafPage];
      offset := offset + 1;
      var size := tree.GetLeafSize(leafPage);
      if offset >= size {
        var next := tree.GetNext(leafPage);
        if next == -1 {
          isEnd := true;
        } else {
          leafPage, offset := next, 0;
        }
      }
    }

    /** nextRow: the next entry that satisfies the conditions. */
    method NextRow(ghost xs: seq<Entry>) returns (r: Fetched)
      requires Ahead(xs)
      modifies this
      ensures var (found, rest) := NextOf(tree.marshal.schema, conditions, xs); r == found && Ahead(rest)
    {
      hide View, Tree.Content, Tree.Valid;
      ghost var ahead := xs;
      while true
        invariant Ahead(ahead)
        invariant NextOf(tree.marshal.schema, conditions, ahead) == NextOf(tree.marshal.schema, conditions, xs)
        decreases |ahead|
      {
        var e := Current();
        if e.None? {
          return AtEnd;
        }
        var verdict := IsRowValid(tree.marshal.schema, conditions, e.value.key);
        if verdict == UnknownColumn {
          return Threw;
        }
        Advance();
        ahead := ahead[1..];
        if verdict == Accepted {
          return Fetched(e.value);
        }
      }
    }
  }
}
