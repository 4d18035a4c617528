/** Slots of equal size behind a header, the layout of index pages (lib/sql/btree_page.h). */
module Slots {
  import opened Rows
  import opened Bytes
  import opened Schemas
  import opened Marshal

  /** The offset of slot i, i * size. */
  function SlotPos(size: nat, i: nat): nat {
    if i == 0 then 0 else SlotPos(size, i - 1) + size
  }

  lemma {:induction false} SlotPosIsProduct(size: nat, i: nat)
    ensures SlotPos(size, i) == i * size
  {
    if i > 0 {
      SlotPosIsProduct(size, i - 1);
    }
  }

  lemma {:induction false} SlotPosAtLeast(size: nat, i: nat)
    requires size > 0
    ensures i <= SlotPos(size, i)
  {
    if i > 0 {
      SlotPosAtLeast(size, i - 1);
    }
  }

  lemma {:induction false} SlotPosAscends(size: nat, i: nat, j: nat)
    requires i < j
    ensures SlotPos(size, i) + size <= SlotPos(size, j)
    decreases j
  {
    if i + 1 < j {
      SlotPosAscends(size, i, j - 1);
    }
  }

  lemma SlotsFit(space: nat, size: nat)
    requires size > 0
    ensures SlotPos(size, space / size) <= space
  {
    SlotPosIsProduct(size, space / size);
  }

  lemma Quotient(space: nat, size: nat, n: nat)
    requires size > 0
    ensures n * size <= space <==> n <= space / size
  {
    var q := space / size;
    assert space == q * size + space % size;
    if n <= q {
      assert n * size <= q * size;
    } else {
      assert n * size >= (q + 1) * size == q * size + size;
    }
  }

  /** n slots of the given size fit behind the header. */
  ghost predicate Holds(length: nat, base: nat, size: nat, n: nat) {
    base + SlotPos(size, n) <= length
  }

  lemma SlotInside(length: nat, base: nat, size: nat, n: nat, i: nat)
    requires Holds(length, base, size, n) && i < n
    ensures base + SlotPos(size, i) + size <= length
  {
    SlotPosAscends(size, i, n);
  }

  ghost function Slot(bs: Bytes, base: nat, size: nat, i: nat): (s: Bytes)
    requires base + SlotPos(size, i) + size <= |bs|
    ensures |s| == size
  {
    bs[base + SlotPos(size, i)..base + SlotPos(size, i) + size]
  }

  /** A write inside slot i changes slot i as a write in its bytes. */
  lemma WriteSlot(bs: Bytes, base: nat, size: nat, i: nat, at: nat, x: Bytes)
    requires base + SlotPos(size, i) + size <= |bs| && at + |x| <= size
    ensures var bs1 := Overwrite(bs, base + SlotPos(size, i) + at, x);
            bs1[..base] == bs[..base] && Slot(bs1, base, size, i) == Overwrite(Slot(bs, base, size, i), at, x)
  {
    var lo := base + SlotPos(size, i);
    OverwriteElsewhere(bs, lo + at, x, 0, base);
    OverwriteInside(bs, lo, lo + size, at, x);
  }

  /** ... and no other slot. */
  lemma WriteOther(bs: Bytes, base: nat, size: nat, i: nat, at: nat, x: Bytes, j: nat)
    requires base + SlotPos(size, i) + size <= |bs| && base + SlotPos(size, j) + size <= |bs| && at + |x| <= size
    requires i != j
    ensures Slot(Overwrite(bs, base + SlotPos(size, i) + at, x), base, size, j) == Slot(bs, base, size, j)
  {
    if j < i {
      SlotPosAscends(size, j, i);
    } else {
      SlotPosAscends(size, i, j);
    }
    var lo := base + SlotPos(size, j);
    OverwriteElsewhere(bs, base + SlotPos(size, i) + at, x, lo, lo + size);
  }

  /** A write in the header changes no slot. */
  lemma WriteHeader(bs: Bytes, base: nat, size: nat, n: nat, at: nat, x: Bytes, j: nat)
    requires Holds(|bs|, base, size, n) && j < n && at + |x| <= base
    ensures base + SlotPos(size, j) + size <= |bs|
    ensures Slot(Overwrite(bs, at, x), base, size, j) == Slot(bs, base, size, j)
  {
    SlotInside(|bs|, base, size, n, j);
    OverwriteElsewhere(bs, at, x, base + SlotPos(size, j), base + SlotPos(size, j) + size);
  }

  // ----- Keys inside slots -----

  /** Key schemas: no strings, since keys have a fixed size. */
  predicate KeySchema(schema: Schema) {
    |schema| < 64 && NoStrings(schema)
  }

  /** A key that a page can store and give back. */
  predicate Storable(schema: Schema, key: Row) {
    RowFits(schema, key) && RowFaithful(schema, key)
  }

  /** The key at the front of a slot. */
  ghost function SlotKey(schema: Schema, slot: Bytes): (key: Row)
    requires KeySchema(schema) && |slot| >= FixedSpace(schema)
    ensures Storable(schema, key)
  {
    FixedRowDecodes(schema, slot);
    DecodeRow(schema, slot).value.0
  }

  lemma SliceAppend(a: Bytes, b: Bytes, n: nat)
    requires n <= |a|
    ensures (a + b)[n..] == a[n..] + b
  {
  }

  /** Longer bytes decode to the same row. */
  lemma {:induction false} DecodeColumnsPrefix(schema: Schema, nulls: nat, i: nat, a: Bytes, b: Bytes)
    requires i <= |schema| && DecodeColumns(schema, nulls, i, a).Some?
    ensures DecodeColumns(schema, nulls, i, a + b) == DecodeColumns(schema, nulls, i, a)
    decreases |schema| - i
  {
    hide DecodeFirst;
    if i < |schema| {
      DecodeFirstPrefix(schema, nulls, i, a, b);
      var (v, n) := DecodeFirst(schema, nulls, i, a).value;
      DecodeStep(schema, nulls, i, a, v, n);
      DecodeStep(schema, nulls, i, a + b, v, n);
      SliceAppend(a, b, n);
      DecodeColumnsPrefix(schema, nulls, i + 1, a[n..], b);
    }
  }

  lemma DecodeFirstPrefix(schema: Schema, nulls: nat, i: nat, a: Bytes, b: Bytes)
    requires i < |schema| && DecodeFirst(schema, nulls, i, a).Some?
    ensures DecodeFirst(schema, nulls, i, a + b) == DecodeFirst(schema, nulls, i, a)
  {
    if !Bit(nulls, i) {
      match schema[i].typ
      case Boolean =>
      case UInt64 => assert (a + b)[..8] == a[..8];
      case Int64 => assert (a + b)[..8] == a[..8];
      case Varchar => assert (a + b)[..schema[i].length] == a[..schema[i].length];
      case String => assert (a + b)[1..][..a[0]] == a[1..][..a[0]];
    }
  }

  lemma DecodeRowPrefix(schema: Schema, a: Bytes, b: Bytes)
    requires DecodeRow(schema, a).Some?
    ensures DecodeRow(schema, a + b) == DecodeRow(schema, a)
  {
    assert (a + b)[..8] == a[..8] && (a + b)[8..] == a[8..] + b;
    DecodeColumnsPrefix(schema, DecodeUInt64(a[..8]), 0, a[8..], b);
  }

  /** Writing a key at the front of a slot makes it the slot's key and leaves the bytes behind it. */
  lemma WriteKey(schema: Schema, slot: Bytes, key: Row)
    requires KeySchema(schema) && Storable(schema, key) && |slot| >= FixedSpace(schema)
    ensures |EncodeRow(schema, key)| <= FixedSpace(schema)
    ensures var slot1 := Overwrite(slot, 0, EncodeRow(schema, key));
            SlotKey(schema, slot1) == key && slot1[FixedSpace(schema)..] == slot[FixedSpace(schema)..]
  {
    FixedRowSize(schema, key);
    var bs := EncodeRow(schema, key);
    assert Overwrite(slot, 0, bs) == bs + slot[|bs|..];
    RowRoundTrip(schema, key, slot[|bs|..]);
  }

  /** A slot that begins with an encoded key holds that key. */
  lemma KeyRead(schema: Schema, bs: Bytes, pos: nat, size: nat, key: Row)
    requires KeySchema(schema) && Storable(schema, key) && FixedSpace(schema) <= size && pos + size <= |bs|
    requires EncodeRow(schema, key) <= bs[pos..]
    ensures SlotKey(schema, bs[pos..pos + size]) == key
  {
    FixedRowSize(schema, key);
    var code, slot := EncodeRow(schema, key), bs[pos..pos + size];
    assert slot[..|code|] == bs[pos..][..|code|] == code;
    assert slot == code + slot[|code|..];
    RowRoundTrip(schema, key, slot[|code|..]);
  }

  /** Writing behind the key leaves the key. */
  lemma WriteBehindKey(schema: Schema, slot: Bytes, at: nat, x: Bytes)
    requires KeySchema(schema) && FixedSpace(schema) <= at && at + |x| <= |slot|
    ensures SlotKey(schema, Overwrite(slot, at, x)) == SlotKey(schema, slot)
  {
    var n := FixedSpace(schema);
    var slot1 := Overwrite(slot, at, x);
    FixedRowDecodes(schema, slot[..n]);
    DecodeRowPrefix(schema, slot[..n], slot[n..]);
    DecodeRowPrefix(schema, slot[..n], slot1[n..]);
    assert slot == slot[..n] + slot[n..] && slot1 == slot[..n] + slot1[n..];
  }
}
