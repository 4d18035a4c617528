/** Table pages of rows of equal size (lib/sql/fixed.cpp): a presence byte and the row's bytes a
    slot, changed in place in a frame. */
module FixedPage {
  import opened Rows
  import opened Bytes
  import opened Schemas
  import opened Marshal
  import opened Slots

  function SlotSize(schema: Schema): nat {
    1 + FixedSpace(schema)
  }

  /** getRowCapacity. */
  function Capacity(schema: Schema): nat {
    PAGE_SIZE / SlotSize(schema)
  }

  /** A slot that is not present holds no row. */
  ghost function DecodeSlot(schema: Schema, slot: Bytes): (r: Option<Row>)
    requires KeySchema(schema) && |slot| == SlotSize(schema)
  {
    if slot[0] == 0 then None else Some(SlotKey(schema, slot[1..]))
  }

  lemma CapacityHolds(schema: Schema, i: nat)
    requires i < Capacity(schema)
    ensures SlotPos(SlotSize(schema), i) + SlotSize(schema) <= PAGE_SIZE
  {
    SlotsFit(PAGE_SIZE, SlotSize(schema));
    SlotInside(PAGE_SIZE, 0, SlotSize(schema), Capacity(schema), i);
  }

  ghost function SlotAt(schema: Schema, bs: Bytes, i: nat): (slot: Bytes)
    requires |bs| == PAGE_SIZE && i < Capacity(schema)
    ensures |slot| == SlotSize(schema)
  {
    CapacityHolds(schema, i);
    Slot(bs, 0, SlotSize(schema), i)
  }

  /** The rows of a page, slot by slot. */
  ghost function PageRows(schema: Schema, bs: Bytes): (rows: seq<Option<Row>>)
    requires KeySchema(schema) && |bs| == PAGE_SIZE
    ensures |rows| == Capacity(schema)
    ensures forall i :: 0 <= i < |rows| ==> rows[i] == DecodeSlot(schema, SlotAt(schema, bs, i))
  {
    seq(Capacity(schema), i requires 0 <= i < Capacity(schema) => DecodeSlot(schema, SlotAt(schema, bs, i)))
  }

  /** The first free slot, the number of slots if there is none. */
  function FirstFree(rows: seq<Option<Row>>): (i: nat)
    ensures i <= |rows|
    ensures i < |rows| ==> rows[i] == None
    ensures forall j :: 0 <= j < i ==> rows[j].Some?
  {
    if rows == [] || rows[0].None? then 0 else 1 + FirstFree(rows[1..])
  }

  lemma FirstFreeIs(rows: seq<Option<Row>>, i: nat)
    requires i <= |rows| && (i < |rows| ==> rows[i] == None)
    requires forall j :: 0 <= j < i ==> rows[j].Some?
    ensures FirstFree(rows) == i
  {
  }

  /** A write inside slot i is a write in that slot's bytes and in no other slot. */
  lemma WriteInSlot(schema: Schema, bs: Bytes, i: nat, at: nat, x: Bytes)
    requires KeySchema(schema) && |bs| == PAGE_SIZE && i < Capacity(schema) && at + |x| <= SlotSize(schema)
    ensures SlotPos(SlotSize(schema), i) + at + |x| <= PAGE_SIZE
    ensures var bs1 := Overwrite(bs, SlotPos(SlotSize(schema), i) + at, x);
            PageRows(schema, bs1) ==
              PageRows(schema, bs)[i := DecodeSlot(schema, Overwrite(SlotAt(schema, bs, i), at, x))]
  {
    hide FixedSpace, Overwrite, DecodeSlot;
    CapacityHolds(schema, i);
    var size := SlotSize(schema);
    var bs1 := Overwrite(bs, SlotPos(size, i) + at, x);
    WriteSlot(bs, 0, size, i, at, x);
    forall j | 0 <= j < Capacity(schema) && j != i ensures SlotAt(schema, bs1, j) == SlotAt(schema, bs, j) {
      CapacityHolds(schema, j);
      WriteOther(bs, 0, size, i, at, x, j);
    }
  }

  /** Setting the presence byte and writing the row behind it makes it the slot's row. */
  lemma SlotFilled(schema: Schema, slot: Bytes, row: Row)
    requires KeySchema(schema) && Storable(schema, row) && |slot| == SlotSize(schema)
    ensures 1 + |EncodeRow(schema, row)| <= SlotSize(schema)
    ensures DecodeSlot(schema, Overwrite(Overwrite(slot, 0, [1]), 1, EncodeRow(schema, row))) == Some(row)
  {
    WriteKey(schema, slot[1..], row);
    var bs := EncodeRow(schema, row);
    var slot1 := Overwrite(Overwrite(slot, 0, [1]), 1, bs);
    assert slot1[1..] == Overwrite(slot[1..], 0, bs);
  }

  /** The layout of a page: from byte i times the slot size on, a presence byte and the row's bytes;
      slots as many as fit. */
  lemma PageLayout(schema: Schema, bs: Bytes, i: nat, row: Row)
    requires KeySchema(schema) && |bs| == PAGE_SIZE && Storable(schema, row)
    ensures (i + 1) * (1 + FixedSpace(schema)) <= 4096 <==> i < Capacity(schema)
    ensures i < Capacity(schema) ==>
              var at := i * (1 + FixedSpace(schema));
              at + 1 + FixedSpace(schema) <= 4096 &&
              (PageRows(schema, bs)[i] == None <==> bs[at] == 0) &&
              (bs[at] != 0 && EncodeRow(schema, row) <= bs[at + 1..] ==> PageRows(schema, bs)[i] == Some(row))
  {
    hide FixedSpace, EncodeRow, DecodeRow;
    Quotient(PAGE_SIZE, SlotSize(schema), i + 1);
    if i < Capacity(schema) {
      SlotPosIsProduct(SlotSize(schema), i);
      CapacityHolds(schema, i);
      var at, n := i * SlotSize(schema), FixedSpace(schema);
      var slot := SlotAt(schema, bs, i);
      assert slot == bs[at..at + 1 + n] && slot[1..] == bs[at + 1..at + 1 + n];
      if EncodeRow(schema, row) <= bs[at + 1..] {
        KeyRead(schema, bs, at + 1, n, row);
      }
    }
  }

  class FixedPage {
    const data: array<byte>
    const marshal: Marshaller

    ghost predicate Valid() {
      KeySchema(marshal.schema) && data.Length == PAGE_SIZE
    }

    ghost function Rows(): (rows: seq<Option<Row>>)
      requires Valid()
      reads data
    {
      PageRows(marshal.schema, data[..])
    }

    constructor (data: array<byte>, marshal: Marshaller)
      requires KeySchema(marshal.schema) && data.Length == PAGE_SIZE
      ensures Valid() && this.data == data && this.marshal == marshal
    {
      this.data, this.marshal := data, marshal;
    }

    method CalculateRowSpace() returns (space: nat)
      ensures space == SlotSize(marshal.schema)
    {
      space := marshal.CalculateFixedRowSpace(0);
      space := space + 1;
    }

    method GetRowData(index: nat) returns (at: nat)
      requires Valid()
      ensures at == SlotPos(SlotSize(marshal.schema), index)
    {
      var space := CalculateRowSpace();
      SlotPosIsProduct(space, index);
      at := index * space;
    }

    /** The row of a slot, the row without values if it is free. */
    method GetRow(index: nat) returns (row: Row)
      requires Valid() && index < Capacity(marshal.schema)
      ensures row == if Rows()[index].Some? then Rows()[index].value else []
    {
      var at := GetRowData(index);
      CapacityHolds(marshal.schema, index);
      ghost var slot := SlotAt(marshal.schema, data[..], index);
      assert slot == data[at..at + SlotSize(marshal.schema)];
      if data[at] != 0 {
        ghost var n := SlotSize(marshal.schema);
        FixedRowDecodes(marshal.schema, slot[1..]);
        DecodeRowPrefix(marshal.schema, slot[1..], data[at + n..]);
        assert data[at + 1..] == slot[1..] + data[at + n..];
        row := marshal.DeserializeRow(data, at + 1);
      } else {
        row := [];
      }
    }

    method DeleteRow(index: nat)
      requires Valid() && index < Capacity(marshal.schema)
      modifies data
      ensures Rows() == old(Rows())[index := None]
    {
      var at := GetRowData(index);
      WriteInSlot(marshal.schema, data[..], index, 0, [0]);
      ghost var was := data[..];
      data[at] := 0;
      assert data[..] == Overwrite(was, at, [0]);
    }

    method FindRowSlot() returns (found: bool, index: nat)
      requires Valid()
      ensures found <==> FirstFree(Rows()) < Capacity(marshal.schema)
      ensures found ==> index == FirstFree(Rows())
    {
      var space := CalculateRowSpace();
      var capacity := PAGE_SIZE / space;
      index := 0;
      while index < capacity
        invariant 0 <= index <= capacity
        invariant forall j :: 0 <= j < index ==> Rows()[j].Some?
      {
        var at := GetRowData(index);
        CapacityHolds(marshal.schema, index);
        assert SlotAt(marshal.schema, data[..], index)[0] == data[at];
        if data[at] == 0 {
          FirstFreeIs(Rows(), index);
          return true, index;
        }
        index := index + 1;
      }
      FirstFreeIs(Rows(), index);
      return false, 0;
    }

    /** Takes the first free slot, if there is one. */
    method InsertRow(row: Row) returns (inserted: bool, index: nat)
      requires Valid() && Storable(marshal.schema, row)
      modifies data
      ensures inserted <==> old(FirstFree(Rows())) < Capacity(marshal.schema)
      ensures inserted ==> index == old(FirstFree(Rows())) && Rows() == old(Rows())[index := Some(row)]
      ensures !inserted ==> data[..] == old(data[..])
    {
      var found, slot := FindRowSlot();
      if !found {
        return false, 0;
      }
      var at := GetRowData(slot);
      FillSlot(slot, at, row);
      return true, slot;
    }

    method FillSlot(index: nat, at: nat, row: Row)
      requires Valid() && Storable(marshal.schema, row)
      requires index < Capacity(marshal.schema) && at == SlotPos(SlotSize(marshal.schema), index)
      modifies data
      ensures Rows() == old(Rows())[index := Some(row)]
    {
      hide FixedSpace, EncodeRow, DecodeSlot;
      ghost var was, schema := data[..], marshal.schema;
      CapacityHolds(schema, index);
      ghost var slot := SlotAt(schema, was, index);
      SlotFilled(schema, slot, row);
      WriteInSlot(schema, was, index, 0, [1]);
      WriteSlot(was, 0, SlotSize(schema), index, 0, [1]);
      data[at] := 1;
      ghost var mid := data[..];
      assert mid == Overwrite(was, at, [1]);
      WriteInSlot(schema, mid, index, 1, EncodeRow(schema, row));
      var end := marshal.SerializeRow(data, at + 1, row);
    }
  }
}
