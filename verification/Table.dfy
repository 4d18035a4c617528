/** A table over fixed pages (lib/sql/table.cpp): an insertion point that only moves forward, and
    a map from row ids to rows behind it. */
module Table {
  import opened Rows
  import opened Bytes
  import opened Schemas
  import opened Marshal
  import opened Slots
  import opened FixedPage

  // ----- The table as a value -----

  /** The slots of every page, and current_page_index. */
  datatype Store = Store(pages: seq<seq<Option<Row>>>, current: nat)

  ghost predicate Sound(s: Store, capacity: nat) {
    s.current <= |s.pages| && forall p :: 0 <= p < |s.pages| ==> |s.pages[p]| == capacity
  }

  predicate Within(s: Store, id: RowId) {
    0 <= id.page < |s.pages| && 0 <= id.row < |s.pages[id.page]|
  }

  /** The row under an id; None for a free slot and for an id outside the table. */
  function Get(s: Store, id: RowId): Option<Row> {
    if Within(s, id) then s.pages[id.page][id.row] else None
  }

  /** The first page from a page on that has a free slot, the number of pages if there is none. */
  function FirstOpen(pages: seq<seq<Option<Row>>>, from: nat): (p: nat)
    requires from <= |pages|
    ensures from <= p <= |pages|
    ensures p < |pages| ==> FirstFree(pages[p]) < |pages[p]|
    ensures forall q :: from <= q < p ==> FirstFree(pages[q]) == |pages[q]|
    decreases |pages| - from
  {
    if from == |pages| || FirstFree(pages[from]) < |pages[from]| then from else FirstOpen(pages, from + 1)
  }

  /** Where the next row goes: the first free slot from the current page on, a new page's first
      slot if there is none. */
  function Place(s: Store, capacity: nat): (p: (nat, nat))
    requires Sound(s, capacity)
  {
    var p := FirstOpen(s.pages, s.current);
    (p, if p < |s.pages| then FirstFree(s.pages[p]) else 0)
  }

  /** The place is free or in a new page, and everything before it from the current page on is taken. */
  lemma PlaceIsFirst(s: Store, capacity: nat)
    requires Sound(s, capacity) && capacity > 0
    ensures var (p, i) := Place(s, capacity);
            s.current <= p && (if p == |s.pages| then i == 0 else p < |s.pages| && i < capacity && s.pages[p][i] == None) &&
            (forall q, j :: s.current <= q < |s.pages| && 0 <= j < capacity && (q < p || (q == p && j < i)) ==> s.pages[q][j].Some?) &&
            AfterInsert(s, capacity, []).current == p
  {
  }

  function EmptySlots(capacity: nat): (slots: seq<Option<Row>>)
    ensures |slots| == capacity && forall i :: 0 <= i < capacity ==> slots[i] == None
  {
    if capacity == 0 then [] else EmptySlots(capacity - 1) + [None]
  }

  ghost function AfterInsert(s: Store, capacity: nat, row: Row): (r: Store)
    requires Sound(s, capacity) && capacity > 0
    ensures Sound(r, capacity)
  {
    var (p, i) := Place(s, capacity);
    var pages := if p < |s.pages| then s.pages else s.pages + [EmptySlots(capacity)];
    Store(pages[p := pages[p][i := Some(row)]], p)
  }

  function AfterDelete(s: Store, id: RowId): Store
    requires Within(s, id)
  {
    Store(s.pages[id.page := s.pages[id.page][id.row := None]], s.current)
  }

  /** Page and slot numbers fit the 32-bit fields of a row id. */
  predicate Numbered(s: Store, capacity: nat) {
    |s.pages| < 0x7fff_ffff && capacity < 0x8000_0000
  }

  ghost function PlacedId(s: Store, capacity: nat): RowId
    requires Sound(s, capacity) && Numbered(s, capacity) && capacity > 0
  {
    var (p, i) := Place(s, capacity);
    RowId(p, i)
  }

  // ----- The plain map -----

  ghost predicate Agrees(s: Store, m: map<RowId, Row>) {
    forall id: RowId :: Get(s, id) == if id in m then Some(m[id]) else None
  }

  /** An insertion returns an id that was free and binds it; every other id keeps its row. */
  lemma InsertIsUpdate(s: Store, capacity: nat, row: Row, m: map<RowId, Row>)
    requires Sound(s, capacity) && Numbered(s, capacity) && capacity > 0 && Agrees(s, m)
    ensures var id := PlacedId(s, capacity);
            id !in m && Within(AfterInsert(s, capacity, row), id) && Agrees(AfterInsert(s, capacity, row), m[id := row])
  {
    var id, r := PlacedId(s, capacity), AfterInsert(s, capacity, row);
    var (p, i) := Place(s, capacity);
    assert Get(s, id) == None;
    forall x: RowId ensures Get(r, x) == if x == id then Some(row) else Get(s, x) {
    }
  }

  lemma DeleteIsErase(s: Store, id: RowId, m: map<RowId, Row>)
    requires Within(s, id) && Agrees(s, m)
    ensures Agrees(AfterDelete(s, id), m - {id})
  {
    forall x: RowId ensures Get(AfterDelete(s, id), x) == if x == id then None else Get(s, x) {
    }
  }

  // ----- Runs -----

  datatype Operation = InsertOp(row: Row, id: RowId) | DeleteOp(id: RowId)

  /** A run of the table; an insertion names the id that it returned. */
  ghost predicate RunsTo(s: Store, capacity: nat, ops: seq<Operation>, r: Store)
    requires capacity > 0
    decreases |ops|
  {
    if ops == [] then r == s
    else
      Sound(s, capacity) && Numbered(s, capacity) &&
      match ops[0]
      case InsertOp(row, id) =>
        id == PlacedId(s, capacity) && RunsTo(AfterInsert(s, capacity, row), capacity, ops[1..], r)
      case DeleteOp(id) => Within(s, id) && RunsTo(AfterDelete(s, id), capacity, ops[1..], r)
  }

  /** The same run on a plain map, whose insertions bind free ids only. */
  ghost predicate PlainRunsTo(m: map<RowId, Row>, ops: seq<Operation>, r: map<RowId, Row>)
    decreases |ops|
  {
    if ops == [] then r == m
    else
      match ops[0]
      case InsertOp(row, id) => id !in m && PlainRunsTo(m[id := row], ops[1..], r)
      case DeleteOp(id) => PlainRunsTo(m - {id}, ops[1..], r)
  }

  function PlainRun(m: map<RowId, Row>, ops: seq<Operation>): map<RowId, Row>
    decreases |ops|
  {
    if ops == [] then m
    else
      match ops[0]
      case InsertOp(row, id) => PlainRun(m[id := row], ops[1..])
      case DeleteOp(id) => PlainRun(m - {id}, ops[1..])
  }

  /** Over any run, live ids read their own row and all others read empty. */
  lemma {:induction false} RunIsMap(s: Store, capacity: nat, ops: seq<Operation>, r: Store, m: map<RowId, Row>)
    requires capacity > 0 && Sound(s, capacity) && RunsTo(s, capacity, ops, r) && Agrees(s, m)
    ensures Sound(r, capacity) && PlainRunsTo(m, ops, PlainRun(m, ops)) && Agrees(r, PlainRun(m, ops))
    decreases |ops|
  {
    hide Agrees, Within;
    if ops != [] {
      match ops[0]
      case InsertOp(row, id) =>
        InsertIsUpdate(s, capacity, row, m);
        RunIsMap(AfterInsert(s, capacity, row), capacity, ops[1..], r, m[id := row]);
      case DeleteOp(id) =>
        DeleteIsErase(s, id, m);
        DeleteSound(s, capacity, id);
        RunIsMap(AfterDelete(s, id), capacity, ops[1..], r, m - {id});
    }
  }

  lemma DeleteSound(s: Store, capacity: nat, id: RowId)
    requires Sound(s, capacity) && Within(s, id)
    ensures Sound(AfterDelete(s, id), capacity)
  {
  }

  /** Moving past a full page does not change where the next row goes. */
  lemma FullPageSkipped(s: Store, capacity: nat, row: Row)
    requires Sound(s, capacity) && Numbered(s, capacity) && capacity > 0
    requires s.current < |s.pages| && FirstFree(s.pages[s.current]) == capacity
    ensures var t := s.(current := s.current + 1);
            Sound(t, capacity) && PlacedId(t, capacity) == PlacedId(s, capacity) &&
            AfterInsert(t, capacity, row) == AfterInsert(s, capacity, row)
  {
  }

  lemma OpenPageTaken(s: Store, capacity: nat, row: Row)
    requires Sound(s, capacity) && Numbered(s, capacity) && capacity > 0
    requires s.current < |s.pages| && FirstFree(s.pages[s.current]) < capacity
    ensures var slots, i := s.pages[s.current], FirstFree(s.pages[s.current]);
            PlacedId(s, capacity) == RowId(s.current, i) &&
            AfterInsert(s, capacity, row) == Store(s.pages[s.current := slots[i := Some(row)]], s.current)
  {
  }

  // ----- The object -----

  class Table {
    const marshal: Marshaller
    var pages: seq<array<byte>>
    var current: nat

    /** The frames of the table are separate pages. */
    ghost predicate Valid()
      reads this
    {
      KeySchema(marshal.schema) && current <= |pages| &&
      (forall i :: 0 <= i < |pages| ==> pages[i].Length == PAGE_SIZE) &&
      (forall i, j :: 0 <= i < j < |pages| ==> pages[i] != pages[j])
    }

    ghost function State(): (s: Store)
      requires Valid()
      reads this, pages
      ensures Sound(s, Capacity(marshal.schema)) && |s.pages| == |pages| && s.current == current
      ensures forall p :: 0 <= p < |pages| ==> s.pages[p] == PageRows(marshal.schema, pages[p][..])
    {
      Store(seq(|pages|, p requires 0 <= p < |pages| && Valid() reads this, pages => PageRows(marshal.schema, pages[p][..])),
            current)
    }

    constructor (marshal: Marshaller)
      requires KeySchema(marshal.schema)
      ensures Valid() && this.marshal == marshal && State() == Store([], 0)
    {
      this.marshal := marshal;
      pages := [];
      current := 0;
    }

    method GetPage(index: nat) returns (page: FixedPage)
      requires Valid() && index < |pages|
      ensures page.Valid() && page.data == pages[index] && page.marshal == marshal
    {
      page := new FixedPage(pages[index], marshal);
    }

    method AllocPage() returns (index: nat)
      requires Valid()
      modifies this`pages
      ensures Valid() && index == |old(pages)| && |pages| == index + 1 && fresh(pages[index]) && pages[..index] == old(pages)
      ensures State() == Store(old(State()).pages + [EmptySlots(Capacity(marshal.schema))], old(State()).current)
    {
      var frame := new byte[PAGE_SIZE](_ => 0);
      EmptyPage(marshal.schema, frame[..]);
      index := |pages|;
      pages := pages + [frame];
      assert State().pages == old(State()).pages + [EmptySlots(Capacity(marshal.schema))];
    }

    /** Ends, since a new page has room for a row. */
    method InsertRow(row: Row) returns (id: RowId)
      requires Valid() && Storable(marshal.schema, row) && Capacity(marshal.schema) > 0
      requires Numbered(State(), Capacity(marshal.schema))
      modifies this, pages
      ensures Valid() && id == old(PlacedId(State(), Capacity(marshal.schema)))
      ensures State() == AfterInsert(old(State()), Capacity(marshal.schema), row)
    {
      hide FirstOpen, AfterInsert, PlacedId, Capacity;
      ghost var was, capacity := State(), Capacity(marshal.schema);
      while true
        invariant Valid() && pages == old(pages) && Numbered(State(), capacity)
        invariant PlacedId(State(), capacity) == PlacedId(was, capacity)
        invariant AfterInsert(State(), capacity, row) == AfterInsert(was, capacity, row)
        decreases |pages| - current
      {
        ghost var s := State();
        if current == |pages| {
          id := InsertInNewPage(row);
          return;
        }
        var inserted, index := InsertInPage(row);
        if inserted {
          OpenPageTaken(s, capacity, row);
          return RowId(current, index);
        }
        FullPageSkipped(s, capacity, row);
        current := current + 1;
        assert State() == s.(current := s.current + 1);
      }
    }

    /** The turn of the loop on an existing page. */
    method InsertInPage(row: Row) returns (inserted: bool, index: nat)
      requires Valid() && Storable(marshal.schema, row) && current < |pages|
      modifies pages
      ensures Valid()
      ensures var slots := old(State()).pages[current];
              inserted == (FirstFree(slots) < |slots|) &&
              if inserted then
                index == FirstFree(slots) &&
                State().pages == old(State()).pages[current := slots[index := Some(row)]]
              else State() == old(State())
    {
      ghost var was := State();
      var page := GetPage(current);
      assert was.pages[current] == page.Rows();
      inserted, index := page.InsertRow(row);
      if inserted {
        assert State().pages == was.pages[current := was.pages[current][index := Some(row)]];
      } else {
        assert State().pages == was.pages;
      }
    }

    /** The turn of the loop that allocates a page. */
    method InsertInNewPage(row: Row) returns (id: RowId)
      requires Valid() && Storable(marshal.schema, row) && Capacity(marshal.schema) > 0
      requires Numbered(State(), Capacity(marshal.schema)) && current == |pages|
      modifies this
      ensures Valid() && id == old(PlacedId(State(), Capacity(marshal.schema)))
      ensures State() == AfterInsert(old(State()), Capacity(marshal.schema), row)
    {
      ghost var was, capacity := State(), Capacity(marshal.schema);
      current := AllocPage();
      ghost var grown := State();
      var page := GetPage(current);
      FirstFreeIs(EmptySlots(capacity), 0);
      assert page.Rows() == grown.pages[current] == EmptySlots(capacity);
      var inserted, index := page.InsertRow(row);
      assert State().pages == AfterInsert(was, capacity, row).pages;
      return RowId(current, index);
    }

    /** The row under an id, the row without values if there is none. */
    method GetRow(id: RowId) returns (row: Row)
      requires Valid() && Within(State(), id)
      ensures row == if Get(State(), id).Some? then Get(State(), id).value else []
    {
      var page := GetPage(id.page);
      row := page.GetRow(id.row);
    }

    method DeleteRow(id: RowId)
      requires Valid() && Within(State(), id)
      modifies pages
      ensures Valid() && State() == AfterDelete(old(State()), id)
    {
      ghost var was := State();
      var page := GetPage(id.page);
      page.DeleteRow(id.row);
      assert State().pages == AfterDelete(was, id).pages;
    }
  }

  lemma EmptyPage(schema: Schema, bs: Bytes)
    requires KeySchema(schema) && |bs| == PAGE_SIZE && forall i :: 0 <= i < |bs| ==> bs[i] == 0
    ensures PageRows(schema, bs) == EmptySlots(Capacity(schema))
  {
    forall i | 0 <= i < Capacity(schema) ensures PageRows(schema, bs)[i] == None {
      CapacityHolds(schema, i);
    }
  }
}
