/** Index pages as bytes of a frame (lib/sql/btree_page.h): every operation changes the frame in
    place and is the sequence operation it stands for on the decoded slots. */
module BTreePage {
  import opened Rows
  import opened Seqs
  import opened Comparator
  import opened Bytes
  import opened Schemas
  import opened Marshal
  import opened Slots
  import opened BTreeModel

  const METADATA_PAGE: nat := 1
  const INTERNAL_PAGE: nat := 2
  const LEAF_PAGE: nat := 3

  /** Header sizes: type, size, previous and next page; type and size. */
  const LEAF_HEADER: nat := 16
  const INTERNAL_HEADER: nat := 8

  function LeafSlotSize(schema: Schema): nat {
    FixedSpace(schema) + 8
  }

  function InternalSlotSize(schema: Schema): nat {
    FixedSpace(schema) + 4
  }

  /** calculateMaxKeysSize of the two page kinds. */
  function LeafCapacity(schema: Schema): nat {
    (PAGE_SIZE - LEAF_HEADER) / LeafSlotSize(schema)
  }

  function InternalCapacity(schema: Schema): nat {
    (PAGE_SIZE - INTERNAL_HEADER) / InternalSlotSize(schema)
  }

  lemma CapacityHolds(schema: Schema)
    ensures Holds(PAGE_SIZE, LEAF_HEADER, LeafSlotSize(schema), LeafCapacity(schema))
    ensures Holds(PAGE_SIZE, INTERNAL_HEADER, InternalSlotSize(schema), InternalCapacity(schema))
  {
    SlotsFit(PAGE_SIZE - LEAF_HEADER, LeafSlotSize(schema));
    SlotsFit(PAGE_SIZE - INTERNAL_HEADER, InternalSlotSize(schema));
  }

  /** No more slots fit. */
  lemma CapacityIsMost(schema: Schema, n: nat)
    ensures 16 + n * (FixedSpace(schema) + 8) <= 4096 <==> n <= LeafCapacity(schema)
    ensures 8 + n * (FixedSpace(schema) + 4) <= 4096 <==> n <= InternalCapacity(schema)
  {
    hide FixedSpace;
    Quotient(PAGE_SIZE - LEAF_HEADER, LeafSlotSize(schema), n);
    Quotient(PAGE_SIZE - INTERNAL_HEADER, InternalSlotSize(schema), n);
  }

  /** The splitting loop moves slots up to twice the upper half of a full leaf, which stays inside
      the page exactly if the capacity is even. */
  lemma SplitStaysInside(schema: Schema)
    ensures var cap := LeafCapacity(schema);
            Holds(PAGE_SIZE, LEAF_HEADER, LeafSlotSize(schema), 2 * (cap - cap / 2)) <==> cap % 2 == 0
  {
    hide FixedSpace;
    var cap := LeafCapacity(schema);
    SlotPosIsProduct(LeafSlotSize(schema), 2 * (cap - cap / 2));
    Quotient(PAGE_SIZE - LEAF_HEADER, LeafSlotSize(schema), 2 * (cap - cap / 2));
  }

  /** Leaves can be split exactly if keys take at most 2032 bytes, and a root has room for both
      halves exactly up to 1358 bytes. */
  lemma UsableKeys(schema: Schema)
    ensures Usable(Config(LeafCapacity(schema), InternalCapacity(schema))) <==> FixedSpace(schema) <= 2032
    ensures LeafCapacity(schema) >= 2 ==> InternalCapacity(schema) >= 2
    ensures InternalCapacity(schema) >= 3 <==> FixedSpace(schema) <= 1358
    ensures LeafCapacity(schema) == 2 == InternalCapacity(schema) <==> 1359 <= FixedSpace(schema) <= 2032
  {
    hide FixedSpace;
    Quotient(PAGE_SIZE - LEAF_HEADER, LeafSlotSize(schema), 2);
    Quotient(PAGE_SIZE - LEAF_HEADER, LeafSlotSize(schema), 3);
    Quotient(PAGE_SIZE - INTERNAL_HEADER, InternalSlotSize(schema), 2);
    Quotient(PAGE_SIZE - INTERNAL_HEADER, InternalSlotSize(schema), 3);
  }

  // ----- Decoded slots -----

  function Word(bs: Bytes, at: nat): Bytes
    requires at + 4 <= |bs|
  {
    bs[at..at + 4]
  }

  lemma WordOfSlot(bs: Bytes, base: nat, size: nat, i: nat, at: nat)
    requires base + SlotPos(size, i) + size <= |bs| && at + 4 <= size
    ensures Word(Slot(bs, base, size, i), at) == bs[base + SlotPos(size, i) + at..base + SlotPos(size, i) + at + 4]
  {
  }

  ghost function DecodeEntry(schema: Schema, slot: Bytes): (e: Entry)
    requires KeySchema(schema) && |slot| == LeafSlotSize(schema)
    ensures Storable(schema, e.key)
  {
    var n := FixedSpace(schema);
    Entry(SlotKey(schema, slot), RowId(DecodeInt32(Word(slot, n)), DecodeInt32(Word(slot, n + 4))))
  }

  datatype Separator = Separator(key: Row, page: int32)

  ghost function DecodeSeparator(schema: Schema, slot: Bytes): (s: Separator)
    requires KeySchema(schema) && |slot| == InternalSlotSize(schema)
    ensures Storable(schema, s.key)
  {
    Separator(SlotKey(schema, slot), DecodeInt32(Word(slot, FixedSpace(schema))))
  }

  lemma EntryKeyWritten(schema: Schema, slot: Bytes, key: Row)
    requires KeySchema(schema) && |slot| == LeafSlotSize(schema) && Storable(schema, key)
    ensures |EncodeRow(schema, key)| <= FixedSpace(schema)
    ensures DecodeEntry(schema, Overwrite(slot, 0, EncodeRow(schema, key))) == DecodeEntry(schema, slot).(key := key)
  {
    FixedRowSize(schema, key);
    var n, slot1 := FixedSpace(schema), Overwrite(slot, 0, EncodeRow(schema, key));
    WriteKey(schema, slot, key);
    assert Word(slot1, n) == slot1[n..][..4] && Word(slot, n) == slot[n..][..4];
    assert Word(slot1, n + 4) == slot1[n..][4..8] && Word(slot, n + 4) == slot[n..][4..8];
  }

  lemma EntryPageWritten(schema: Schema, slot: Bytes, page: int32)
    requires KeySchema(schema) && |slot| == LeafSlotSize(schema)
    ensures var e := DecodeEntry(schema, slot);
            DecodeEntry(schema, Overwrite(slot, FixedSpace(schema), EncodeInt32(page)))
            == e.(rid := RowId(page, e.rid.row))
  {
    var n := FixedSpace(schema);
    WriteBehindKey(schema, slot, n, EncodeInt32(page));
    OverwriteSlice(slot, n, EncodeInt32(page));
    OverwriteElsewhere(slot, n, EncodeInt32(page), n + 4, n + 8);
    Int32RoundTrip(page);
  }

  lemma EntryRowWritten(schema: Schema, slot: Bytes, row: int32)
    requires KeySchema(schema) && |slot| == LeafSlotSize(schema)
    ensures var e := DecodeEntry(schema, slot);
            DecodeEntry(schema, Overwrite(slot, FixedSpace(schema) + 4, EncodeInt32(row)))
            == e.(rid := RowId(e.rid.page, row))
  {
    hide SlotKey, Overwrite, FixedSpace;
    var n := FixedSpace(schema);
    WriteBehindKey(schema, slot, n + 4, EncodeInt32(row));
    OverwriteSlice(slot, n + 4, EncodeInt32(row));
    OverwriteElsewhere(slot, n + 4, EncodeInt32(row), n, n + 4);
    Int32RoundTrip(row);
  }

  lemma SeparatorKeyWritten(schema: Schema, slot: Bytes, key: Row)
    requires KeySchema(schema) && |slot| == InternalSlotSize(schema) && Storable(schema, key)
    ensures |EncodeRow(schema, key)| <= FixedSpace(schema)
    ensures DecodeSeparator(schema, Overwrite(slot, 0, EncodeRow(schema, key)))
            == DecodeSeparator(schema, slot).(key := key)
  {
    FixedRowSize(schema, key);
    var n, slot1 := FixedSpace(schema), Overwrite(slot, 0, EncodeRow(schema, key));
    WriteKey(schema, slot, key);
    assert Word(slot1, n) == slot1[n..][..4] && Word(slot, n) == slot[n..][..4];
  }

  lemma SeparatorPageWritten(schema: Schema, slot: Bytes, page: int32)
    requires KeySchema(schema) && |slot| == InternalSlotSize(schema)
    ensures DecodeSeparator(schema, Overwrite(slot, FixedSpace(schema), EncodeInt32(page)))
            == DecodeSeparator(schema, slot).(page := page)
  {
    var n := FixedSpace(schema);
    WriteBehindKey(schema, slot, n, EncodeInt32(page));
    OverwriteSlice(slot, n, EncodeInt32(page));
    Int32RoundTrip(page);
  }

  // ----- All slots of a page -----

  ghost function LeafSlots(schema: Schema, bs: Bytes): (es: seq<Entry>)
    requires KeySchema(schema) && |bs| == PAGE_SIZE
    ensures |es| == LeafCapacity(schema)
    ensures forall i :: 0 <= i < |es| ==> Storable(schema, es[i].key)
  {
    seq(LeafCapacity(schema), i requires 0 <= i < LeafCapacity(schema) => LeafSlot(schema, bs, i))
  }

  ghost function LeafSlot(schema: Schema, bs: Bytes, i: nat): (e: Entry)
    requires KeySchema(schema) && |bs| == PAGE_SIZE && i < LeafCapacity(schema)
    ensures Storable(schema, e.key)
  {
    CapacityHolds(schema);
    SlotInside(PAGE_SIZE, LEAF_HEADER, LeafSlotSize(schema), LeafCapacity(schema), i);
    DecodeEntry(schema, Slot(bs, LEAF_HEADER, LeafSlotSize(schema), i))
  }

  ghost function InternalSlots(schema: Schema, bs: Bytes): (ss: seq<Separator>)
    requires KeySchema(schema) && |bs| == PAGE_SIZE
    ensures |ss| == InternalCapacity(schema)
    ensures forall i :: 0 <= i < |ss| ==> Storable(schema, ss[i].key)
  {
    seq(InternalCapacity(schema), i requires 0 <= i < InternalCapacity(schema) => InternalSlot(schema, bs, i))
  }

  ghost function InternalSlot(schema: Schema, bs: Bytes, i: nat): (s: Separator)
    requires KeySchema(schema) && |bs| == PAGE_SIZE && i < InternalCapacity(schema)
    ensures Storable(schema, s.key)
  {
    CapacityHolds(schema);
    SlotInside(PAGE_SIZE, INTERNAL_HEADER, InternalSlotSize(schema), InternalCapacity(schema), i);
    DecodeSeparator(schema, Slot(bs, INTERNAL_HEADER, InternalSlotSize(schema), i))
  }

  /** A write inside leaf slot i. */
  lemma LeafSlotWritten(schema: Schema, bs: Bytes, i: nat, at: nat, x: Bytes, e: Entry)
    requires KeySchema(schema) && |bs| == PAGE_SIZE && i < LeafCapacity(schema) && at + |x| <= LeafSlotSize(schema)
    requires LEAF_HEADER + SlotPos(LeafSlotSize(schema), i) + LeafSlotSize(schema) <= PAGE_SIZE
    requires e == DecodeEntry(schema, Overwrite(Slot(bs, LEAF_HEADER, LeafSlotSize(schema), i), at, x))
    ensures var bs1 := Overwrite(bs, LEAF_HEADER + SlotPos(LeafSlotSize(schema), i) + at, x);
            bs1[..LEAF_HEADER] == bs[..LEAF_HEADER] && LeafSlots(schema, bs1) == LeafSlots(schema, bs)[i := e]
  {
    hide DecodeEntry, Overwrite;
    var size := LeafSlotSize(schema);
    var bs1 := Overwrite(bs, LEAF_HEADER + SlotPos(size, i) + at, x);
    WriteSlot(bs, LEAF_HEADER, size, i, at, x);
    forall j | 0 <= j < LeafCapacity(schema)
      ensures LeafSlot(schema, bs1, j) == if j == i then e else LeafSlot(schema, bs, j)
    {
      if j != i {
        LeafSlotOther(schema, bs, i, at, x, j);
      }
    }
    assert LeafSlots(schema, bs1) == LeafSlots(schema, bs)[i := e];
  }

  lemma LeafSlotOther(schema: Schema, bs: Bytes, i: nat, at: nat, x: Bytes, j: nat)
    requires KeySchema(schema) && |bs| == PAGE_SIZE && i < LeafCapacity(schema) && at + |x| <= LeafSlotSize(schema)
    requires LEAF_HEADER + SlotPos(LeafSlotSize(schema), i) + LeafSlotSize(schema) <= PAGE_SIZE
    requires j < LeafCapacity(schema) && j != i
    ensures LeafSlot(schema, Overwrite(bs, LEAF_HEADER + SlotPos(LeafSlotSize(schema), i) + at, x), j) == LeafSlot(schema, bs, j)
  {
    hide DecodeEntry, Overwrite, FixedSpace;
    CapacityHolds(schema);
    SlotInside(PAGE_SIZE, LEAF_HEADER, LeafSlotSize(schema), LeafCapacity(schema), j);
    WriteOther(bs, LEAF_HEADER, LeafSlotSize(schema), i, at, x, j);
  }

  lemma InternalSlotWritten(schema: Schema, bs: Bytes, i: nat, at: nat, x: Bytes, s: Separator)
    requires KeySchema(schema) && |bs| == PAGE_SIZE && i < InternalCapacity(schema) && at + |x| <= InternalSlotSize(schema)
    requires INTERNAL_HEADER + SlotPos(InternalSlotSize(schema), i) + InternalSlotSize(schema) <= PAGE_SIZE
    requires s == DecodeSeparator(schema, Overwrite(Slot(bs, INTERNAL_HEADER, InternalSlotSize(schema), i), at, x))
    ensures var bs1 := Overwrite(bs, INTERNAL_HEADER + SlotPos(InternalSlotSize(schema), i) + at, x);
            bs1[..INTERNAL_HEADER] == bs[..INTERNAL_HEADER] &&
            InternalSlots(schema, bs1) == InternalSlots(schema, bs)[i := s]
  {
    hide DecodeSeparator, Overwrite;
    var size := InternalSlotSize(schema);
    var bs1 := Overwrite(bs, INTERNAL_HEADER + SlotPos(size, i) + at, x);
    WriteSlot(bs, INTERNAL_HEADER, size, i, at, x);
    forall j | 0 <= j < InternalCapacity(schema)
      ensures InternalSlot(schema, bs1, j) == if j == i then s else InternalSlot(schema, bs, j)
    {
      if j != i {
        InternalSlotOther(schema, bs, i, at, x, j);
      }
    }
    assert InternalSlots(schema, bs1) == InternalSlots(schema, bs)[i := s];
  }

  lemma InternalSlotOther(schema: Schema, bs: Bytes, i: nat, at: nat, x: Bytes, j: nat)
    requires KeySchema(schema) && |bs| == PAGE_SIZE && i < InternalCapacity(schema) && at + |x| <= InternalSlotSize(schema)
    requires INTERNAL_HEADER + SlotPos(InternalSlotSize(schema), i) + InternalSlotSize(schema) <= PAGE_SIZE
    requires j < InternalCapacity(schema) && j != i
    ensures InternalSlot(schema, Overwrite(bs, INTERNAL_HEADER + SlotPos(InternalSlotSize(schema), i) + at, x), j) == InternalSlot(schema, bs, j)
  {
    hide DecodeSeparator, Overwrite, FixedSpace;
    CapacityHolds(schema);
    SlotInside(PAGE_SIZE, INTERNAL_HEADER, InternalSlotSize(schema), InternalCapacity(schema), j);
    WriteOther(bs, INTERNAL_HEADER, InternalSlotSize(schema), i, at, x, j);
  }

  lemma LeafHeaderWritten(schema: Schema, bs: Bytes, at: nat, x: Bytes)
    requires KeySchema(schema) && |bs| == PAGE_SIZE && at + |x| <= LEAF_HEADER
    ensures LeafSlots(schema, Overwrite(bs, at, x)) == LeafSlots(schema, bs)
  {
    CapacityHolds(schema);
    forall j | 0 <= j < LeafCapacity(schema) ensures LeafSlot(schema, Overwrite(bs, at, x), j) == LeafSlot(schema, bs, j) {
      WriteHeader(bs, LEAF_HEADER, LeafSlotSize(schema), LeafCapacity(schema), at, x, j);
    }
  }

  lemma InternalHeaderWritten(schema: Schema, bs: Bytes, at: nat, x: Bytes)
    requires KeySchema(schema) && |bs| == PAGE_SIZE && at + |x| <= INTERNAL_HEADER
    ensures InternalSlots(schema, Overwrite(bs, at, x)) == InternalSlots(schema, bs)
  {
    CapacityHolds(schema);
    forall j | 0 <= j < InternalCapacity(schema)
      ensures InternalSlot(schema, Overwrite(bs, at, x), j) == InternalSlot(schema, bs, j)
    {
      WriteHeader(bs, INTERNAL_HEADER, InternalSlotSize(schema), InternalCapacity(schema), at, x, j);
    }
  }

  // ----- What a page says -----

  ghost function PageType(bs: Bytes): nat
    requires |bs| == PAGE_SIZE
  {
    FromBytes(Word(bs, 0))
  }

  ghost function SizeField(bs: Bytes): nat
    requires |bs| == PAGE_SIZE
  {
    FromBytes(Word(bs, 4))
  }

  /** The page value that the bytes of a frame stand for. */
  ghost function View(schema: Schema, bs: Bytes): Page
    requires KeySchema(schema) && |bs| == PAGE_SIZE
  {
    if PageType(bs) == METADATA_PAGE then Metadata(DecodeInt32(Word(bs, 4)))
    else if PageType(bs) == INTERNAL_PAGE && SizeField(bs) <= InternalCapacity(schema) then
      InternalView(InternalSlots(schema, bs)[..SizeField(bs)])
    else if PageType(bs) == LEAF_PAGE && SizeField(bs) <= LeafCapacity(schema) then
      Leaf(LeafSlots(schema, bs)[..SizeField(bs)], DecodeInt32(Word(bs, 8)), DecodeInt32(Word(bs, 12)))
    else Other
  }

  ghost function InternalView(ss: seq<Separator>): Page {
    Internal(Pages(ss), if ss == [] then [] else Keys(ss[1..]))
  }

  ghost function Pages(ss: seq<Separator>): (r: seq<int>)
    ensures |r| == |ss|
  {
    seq(|ss|, i requires 0 <= i < |ss| => ss[i].page)
  }

  ghost function Keys(ss: seq<Separator>): (r: seq<Row>)
    ensures |r| == |ss|
  {
    seq(|ss|, i requires 0 <= i < |ss| => ss[i].key)
  }

  // ----- The layout of a page -----

  /** The bytes from pos on are a key and the two halves of a row id behind the space of a key. */
  ghost predicate EntryAt(schema: Schema, bs: Bytes, pos: nat, e: Entry) {
    var n := FixedSpace(schema);
    pos + n + 8 <= |bs| && Storable(schema, e.key) && EncodeRow(schema, e.key) <= bs[pos..] &&
    bs[pos + n..pos + n + 4] == EncodeInt32(e.rid.page) && bs[pos + n + 4..pos + n + 8] == EncodeInt32(e.rid.row)
  }

  /** The bytes from pos on are a key and, behind the space of a key, a page. */
  ghost predicate SeparatorAt(schema: Schema, bs: Bytes, pos: nat, s: Separator) {
    var n := FixedSpace(schema);
    pos + n + 4 <= |bs| && Storable(schema, s.key) && EncodeRow(schema, s.key) <= bs[pos..] &&
    bs[pos + n..pos + n + 4] == EncodeInt32(s.page)
  }

  lemma SliceOfSlice(bs: Bytes, pos: nat, size: nat, a: nat, b: nat)
    requires pos + size <= |bs| && a <= b <= size
    ensures bs[pos..pos + size][a..b] == bs[pos + a..pos + b]
  {
    var slot := bs[pos..pos + size];
    assert forall k :: a <= k < b ==> slot[k] == bs[pos + k];
    assert forall k :: 0 <= k < b - a ==> slot[a..b][k] == slot[a + k] && bs[pos + a..pos + b][k] == bs[pos + a + k];
  }

  lemma EntryRead(schema: Schema, bs: Bytes, i: nat, e: Entry)
    requires KeySchema(schema) && |bs| == PAGE_SIZE && i < LeafCapacity(schema)
    requires EntryAt(schema, bs, 16 + i * (FixedSpace(schema) + 8), e)
    ensures LeafSlot(schema, bs, i) == e
  {
    hide DecodeRow, EncodeRow, FixedSpace, SlotPos, SlotKey, DecodeInt32, EncodeInt32;
    SlotPosIsProduct(LeafSlotSize(schema), i);
    var pos, n, size := 16 + i * (FixedSpace(schema) + 8), FixedSpace(schema), LeafSlotSize(schema);
    KeyRead(schema, bs, pos, size, e.key);
    SliceOfSlice(bs, pos, size, n, n + 4);
    SliceOfSlice(bs, pos, size, n + 4, n + 8);
    Int32RoundTrip(e.rid.page);
    Int32RoundTrip(e.rid.row);
  }

  lemma SeparatorRead(schema: Schema, bs: Bytes, i: nat, s: Separator)
    requires KeySchema(schema) && |bs| == PAGE_SIZE && i < InternalCapacity(schema)
    requires SeparatorAt(schema, bs, 8 + i * (FixedSpace(schema) + 4), s)
    ensures InternalSlot(schema, bs, i) == s
  {
    hide DecodeRow, EncodeRow, FixedSpace, SlotPos, SlotKey, DecodeInt32, EncodeInt32;
    SlotPosIsProduct(InternalSlotSize(schema), i);
    var pos, n, size := 8 + i * (FixedSpace(schema) + 4), FixedSpace(schema), InternalSlotSize(schema);
    KeyRead(schema, bs, pos, size, s.key);
    SliceOfSlice(bs, pos, size, n, n + 4);
    Int32RoundTrip(s.page);
  }

  lemma LeafView(schema: Schema, bs: Bytes, n: nat, prev: int32, next: int32)
    requires KeySchema(schema) && |bs| == PAGE_SIZE && n <= LeafCapacity(schema)
    requires bs[0..4] == [3, 0, 0, 0] && bs[4..8] == ToBytes(n, 4)
    requires bs[8..12] == EncodeInt32(prev) && bs[12..16] == EncodeInt32(next)
    ensures View(schema, bs) == Leaf(LeafSlots(schema, bs)[..n], prev, next)
  {
    hide LeafSlots, InternalSlots, FixedSpace, ToBytes, FromBytes, EncodeInt32, DecodeInt32;
    KindWords();
    SizeRead(n, LeafSlotSize(schema), 16);
    Int32RoundTrip(prev);
    Int32RoundTrip(next);
  }

  lemma InnerView(schema: Schema, bs: Bytes, n: nat)
    requires KeySchema(schema) && |bs| == PAGE_SIZE && n <= InternalCapacity(schema)
    requires bs[0..4] == [2, 0, 0, 0] && bs[4..8] == ToBytes(n, 4)
    ensures View(schema, bs) == InternalView(InternalSlots(schema, bs)[..n])
  {
    hide LeafSlots, InternalSlots, InternalView, FixedSpace, ToBytes, FromBytes;
    KindWords();
    SizeRead(n, InternalSlotSize(schema), 8);
  }

  /** A leaf page: kind 3, the number of entries, the links, and the entries from byte 16 on. */
  lemma LeafLayout(schema: Schema, bs: Bytes, es: seq<Entry>, prev: int32, next: int32)
    requires KeySchema(schema) && |bs| == PAGE_SIZE && |es| <= LeafCapacity(schema)
    requires bs[0..4] == [3, 0, 0, 0] && bs[4..8] == ToBytes(|es|, 4)
    requires bs[8..12] == EncodeInt32(prev) && bs[12..16] == EncodeInt32(next)
    requires forall i :: 0 <= i < |es| ==> EntryAt(schema, bs, 16 + i * (FixedSpace(schema) + 8), es[i])
    ensures View(schema, bs) == Leaf(es, prev, next)
  {
    hide EntryAt, View, LeafSlot, FixedSpace;
    LeafView(schema, bs, |es|, prev, next);
    forall i | 0 <= i < |es| ensures LeafSlots(schema, bs)[i] == es[i] {
      EntryRead(schema, bs, i, es[i]);
    }
    assert LeafSlots(schema, bs)[..|es|] == es;
  }

  /** An internal page: kind 2, the number of children, and from byte 8 on the children, each with
      its key in front; the first key is not used. */
  lemma InternalLayout(schema: Schema, bs: Bytes, ss: seq<Separator>)
    requires KeySchema(schema) && |bs| == PAGE_SIZE && 0 < |ss| <= InternalCapacity(schema)
    requires bs[0..4] == [2, 0, 0, 0] && bs[4..8] == ToBytes(|ss|, 4)
    requires forall i :: 0 <= i < |ss| ==> SeparatorAt(schema, bs, 8 + i * (FixedSpace(schema) + 4), ss[i])
    ensures var v := View(schema, bs);
            v.Internal? && |v.kids| == |ss| && |v.keys| == |ss| - 1 &&
            (forall i :: 0 <= i < |ss| ==> v.kids[i] == ss[i].page) &&
            forall i :: 0 <= i < |ss| - 1 ==> v.keys[i] == ss[i + 1].key
  {
    hide SeparatorAt, View, InternalSlot, FixedSpace;
    InnerView(schema, bs, |ss|);
    forall i | 0 <= i < |ss| ensures InternalSlots(schema, bs)[i] == ss[i] {
      SeparatorRead(schema, bs, i, ss[i]);
    }
    assert InternalSlots(schema, bs)[..|ss|] == ss;
  }

  /** The metadata page: kind 1 and the root. */
  lemma MetadataLayout(schema: Schema, bs: Bytes, root: int32)
    requires KeySchema(schema) && |bs| == PAGE_SIZE && bs[0..4] == [1, 0, 0, 0] && bs[4..8] == EncodeInt32(root)
    ensures View(schema, bs) == Metadata(root)
  {
    KindWords();
    Int32RoundTrip(root);
  }

  lemma KindWords()
    ensures FromBytes([1, 0, 0, 0]) == 1 && FromBytes([2, 0, 0, 0]) == 2 && FromBytes([3, 0, 0, 0]) == 3
  {
    Limits();
    LittleEndian(1, 0, 0, 0);
    LittleEndian(2, 0, 0, 0);
    LittleEndian(3, 0, 0, 0);
    FromToBytes(1, 4);
    FromToBytes(2, 4);
    FromToBytes(3, 4);
  }

  lemma SizeRead(n: nat, size: nat, header: nat)
    requires size > 0 && header <= PAGE_SIZE && n <= (PAGE_SIZE - header) / size
    ensures FromBytes(ToBytes(n, 4)) == n
  {
    Limits();
    Quotient(PAGE_SIZE - header, size, n);
    SlotPosIsProduct(size, n);
    SlotPosAtLeast(size, n);
    FromToBytes(n, 4);
  }

  // ----- Leaf pages in place -----

  /** The header fields of a leaf page. */
  datatype LeafFields = LeafFields(kind: nat, size: nat, prev: int32, next: int32)

  ghost function LeafHeader(bs: Bytes): LeafFields
    requires |bs| == PAGE_SIZE
  {
    LeafFields(FromBytes(Word(bs, 0)), FromBytes(Word(bs, 4)), DecodeInt32(Word(bs, 8)), DecodeInt32(Word(bs, 12)))
  }

  lemma SameLeafHeader(a: Bytes, b: Bytes)
    requires |a| == |b| == PAGE_SIZE && a[..LEAF_HEADER] == b[..LEAF_HEADER]
    ensures LeafHeader(a) == LeafHeader(b)
  {
    assert Word(a, 0) == a[..LEAF_HEADER][0..4] && Word(b, 0) == b[..LEAF_HEADER][0..4];
    assert Word(a, 4) == a[..LEAF_HEADER][4..8] && Word(b, 4) == b[..LEAF_HEADER][4..8];
    assert Word(a, 8) == a[..LEAF_HEADER][8..12] && Word(b, 8) == b[..LEAF_HEADER][8..12];
    assert Word(a, 12) == a[..LEAF_HEADER][12..16] && Word(b, 12) == b[..LEAF_HEADER][12..16];
  }

  lemma LeafSizeWritten(bs: Bytes, n: nat)
    requires |bs| == PAGE_SIZE && n < 0x1_0000_0000
    ensures LeafHeader(Overwrite(bs, 4, ToBytes(n, 4))) == LeafHeader(bs).(size := n)
  {
    Limits();
    FromToBytes(n, 4);
    OverwriteSlice(bs, 4, ToBytes(n, 4));
    OverwriteElsewhere(bs, 4, ToBytes(n, 4), 0, 4);
    OverwriteElsewhere(bs, 4, ToBytes(n, 4), 8, 12);
    OverwriteElsewhere(bs, 4, ToBytes(n, 4), 12, 16);
  }

  lemma LeafPrevWritten(bs: Bytes, page: int32)
    requires |bs| == PAGE_SIZE
    ensures LeafHeader(Overwrite(bs, 8, EncodeInt32(page))) == LeafHeader(bs).(prev := page)
  {
    Int32RoundTrip(page);
    OverwriteSlice(bs, 8, EncodeInt32(page));
    OverwriteElsewhere(bs, 8, EncodeInt32(page), 0, 4);
    OverwriteElsewhere(bs, 8, EncodeInt32(page), 4, 8);
    OverwriteElsewhere(bs, 8, EncodeInt32(page), 12, 16);
  }

  lemma LeafNextWritten(bs: Bytes, page: int32)
    requires |bs| == PAGE_SIZE
    ensures LeafHeader(Overwrite(bs, 12, EncodeInt32(page))) == LeafHeader(bs).(next := page)
  {
    Int32RoundTrip(page);
    OverwriteSlice(bs, 12, EncodeInt32(page));
    OverwriteElsewhere(bs, 12, EncodeInt32(page), 0, 4);
    OverwriteElsewhere(bs, 12, EncodeInt32(page), 4, 8);
    OverwriteElsewhere(bs, 12, EncodeInt32(page), 8, 12);
  }

  /** The row at the front of slot i, read from the frame. */
  lemma SlotRow(schema: Schema, bs: Bytes, base: nat, size: nat, i: nat)
    requires KeySchema(schema) && FixedSpace(schema) <= size && base + SlotPos(size, i) + size <= |bs|
    ensures var pos := base + SlotPos(size, i);
            DecodeRow(schema, bs[pos..]).Some? &&
            DecodeRow(schema, bs[pos..]).value.0 == SlotKey(schema, Slot(bs, base, size, i))
  {
    hide DecodeRow, SlotPos, FixedSpace;
    var pos, slot := base + SlotPos(size, i), Slot(bs, base, size, i);
    FixedRowDecodes(schema, slot);
    DecodeRowPrefix(schema, slot, bs[pos + size..]);
    assert bs[pos..] == slot + bs[pos + size..];
  }

  method StoreInt32(buf: array<byte>, at: nat, i: int32)
    requires at + 4 <= buf.Length
    modifies buf
    ensures buf[..] == Overwrite(old(buf[..]), at, EncodeInt32(i))
  {
    Store(buf, at, Unsigned32(i), 4);
  }

  method LoadInt32(buf: array<byte>, at: nat) returns (i: int32)
    requires at + 4 <= buf.Length
    ensures i == DecodeInt32(buf[at..at + 4])
  {
    var u := Load(buf, at, 4);
    FromBytesBound(buf[at..at + 4]);
    Limits();
    i := Signed32(u);
  }

  /** BTreeLeafPage over the frame of a page. */
  class LeafPage {
    const frame: array<byte>
    const marshal: Marshaller

    constructor (frame: array<byte>, marshal: Marshaller)
      ensures this.frame == frame && this.marshal == marshal
    {
      this.frame, this.marshal := frame, marshal;
    }

    ghost predicate Valid() {
      frame.Length == PAGE_SIZE && KeySchema(marshal.schema)
    }

    ghost function Slots(): (es: seq<Entry>)
      requires Valid()
      reads frame
      ensures |es| == LeafCapacity(marshal.schema)
      ensures forall i :: 0 <= i < |es| ==> Storable(marshal.schema, es[i].key)
    {
      LeafSlots(marshal.schema, frame[..])
    }

    ghost function Header(): LeafFields
      requires Valid()
      reads frame
    {
      LeafHeader(frame[..])
    }

    /** The size field is within the page. */
    ghost predicate Sized()
      requires Valid()
      reads frame
    {
      Header().size <= LeafCapacity(marshal.schema)
    }

    ghost function Entries(): seq<Entry>
      requires Valid() && Sized()
      reads frame
    {
      Slots()[..Header().size]
    }

    function SlotStart(index: nat): (pos: nat)
      requires Valid() && index < LeafCapacity(marshal.schema)
      ensures pos == LEAF_HEADER + SlotPos(LeafSlotSize(marshal.schema), index)
      ensures pos + LeafSlotSize(marshal.schema) <= PAGE_SIZE
    {
      CapacityHolds(marshal.schema);
      SlotInside(PAGE_SIZE, LEAF_HEADER, LeafSlotSize(marshal.schema), LeafCapacity(marshal.schema), index);
      SlotPosIsProduct(LeafSlotSize(marshal.schema), index);
      LEAF_HEADER + index * LeafSlotSize(marshal.schema)
    }

    method GetSize() returns (size: nat)
      requires Valid()
      ensures size == Header().size
    {
      size := Load(frame, 4, 4);
    }

    method SetSize(size: nat)
      requires Valid() && size < 0x1_0000_0000
      modifies frame
      ensures Header() == old(Header()).(size := size) && Slots() == old(Slots())
    {
      LeafSizeWritten(frame[..], size);
      LeafHeaderWritten(marshal.schema, frame[..], 4, ToBytes(size, 4));
      Store(frame, 4, size, 4);
    }

    /** Adds to the 32-bit size field, modulo 2^32. */
    method IncreaseSize(amount: int)
      requires Valid()
      modifies frame
      ensures Header() == old(Header()).(size := (old(Header().size) + amount) % 0x1_0000_0000)
      ensures Slots() == old(Slots())
    {
      var size := GetSize();
      SetSize((size + amount) % 0x1_0000_0000);
    }

    method GetPreviousPageIndex() returns (page: int32)
      requires Valid()
      ensures page == Header().prev
    {
      page := LoadInt32(frame, 8);
    }

    method SetPreviousPageIndex(page: int32)
      requires Valid()
      modifies frame
      ensures Header() == old(Header()).(prev := page) && Slots() == old(Slots())
    {
      LeafPrevWritten(frame[..], page);
      LeafHeaderWritten(marshal.schema, frame[..], 8, EncodeInt32(page));
      StoreInt32(frame, 8, page);
    }

    method GetNextPageIndex() returns (page: int32)
      requires Valid()
      ensures page == Header().next
    {
      page := LoadInt32(frame, 12);
    }

    method SetNextPageIndex(page: int32)
      requires Valid()
      modifies frame
      ensures Header() == old(Header()).(next := page) && Slots() == old(Slots())
    {
      LeafNextWritten(frame[..], page);
      LeafHeaderWritten(marshal.schema, frame[..], 12, EncodeInt32(page));
      StoreInt32(frame, 12, page);
    }

    method GetKey(index: nat) returns (key: Row)
      requires Valid() && index < LeafCapacity(marshal.schema)
      ensures key == Slots()[index].key
    {
      ghost var pos := SlotStart(index);
      SlotRow(marshal.schema, frame[..], LEAF_HEADER, LeafSlotSize(marshal.schema), index);
      assert frame[..][pos..] == frame[pos..];
      key := marshal.DeserializeRow(frame, SlotStart(index));
    }

    method SetKey(index: nat, key: Row)
      requires Valid() && index < LeafCapacity(marshal.schema) && Storable(marshal.schema, key)
      modifies frame
      ensures Header() == old(Header()) && Slots() == old(Slots())[index := old(Slots())[index].(key := key)]
    {
      ghost var bs, schema, pos := frame[..], marshal.schema, SlotStart(index);
      EntryKeyWritten(schema, Slot(bs, LEAF_HEADER, LeafSlotSize(schema), index), key);
      LeafSlotWritten(schema, bs, index, 0, EncodeRow(schema, key), LeafSlot(schema, bs, index).(key := key));
      var end := marshal.SerializeRow(frame, SlotStart(index), key);
      SameLeafHeader(bs, frame[..]);
    }

    method GetValue(index: nat) returns (value: RowId)
      requires Valid() && index < LeafCapacity(marshal.schema)
      ensures value == Slots()[index].rid
    {
      hide SlotKey, LeafCapacity, FixedSpace;
      var pos := SlotStart(index) + FixedSpace(marshal.schema);
      var page := LoadInt32(frame, pos);
      var row := LoadInt32(frame, pos + 4);
      value := RowId(page, row);
      WordOfSlot(frame[..], LEAF_HEADER, LeafSlotSize(marshal.schema), index, FixedSpace(marshal.schema));
      WordOfSlot(frame[..], LEAF_HEADER, LeafSlotSize(marshal.schema), index, FixedSpace(marshal.schema) + 4);
    }

    method SetValue(index: nat, value: RowId)
      requires Valid() && index < LeafCapacity(marshal.schema)
      modifies frame
      ensures Header() == old(Header()) && Slots() == old(Slots())[index := old(Slots())[index].(rid := value)]
    {
      SetValuePage(index, value.page);
      SetValueRow(index, value.row);
    }

    method SetValuePage(index: nat, page: int32)
      requires Valid() && index < LeafCapacity(marshal.schema)
      modifies frame
      ensures Header() == old(Header())
      ensures Slots() == var e := old(Slots())[index]; old(Slots())[index := e.(rid := RowId(page, e.rid.row))]
    {
      hide DecodeEntry;
      ghost var bs, schema, pos := frame[..], marshal.schema, SlotStart(index);
      EntryPageWritten(schema, Slot(bs, LEAF_HEADER, LeafSlotSize(schema), index), page);
      ghost var e := LeafSlot(schema, bs, index);
      LeafSlotWritten(schema, bs, index, FixedSpace(schema), EncodeInt32(page), e.(rid := RowId(page, e.rid.row)));
      StoreInt32(frame, SlotStart(index) + FixedSpace(marshal.schema), page);
      SameLeafHeader(bs, frame[..]);
    }

    method SetValueRow(index: nat, row: int32)
      requires Valid() && index < LeafCapacity(marshal.schema)
      modifies frame
      ensures Header() == old(Header())
      ensures Slots() == var e := old(Slots())[index]; old(Slots())[index := e.(rid := RowId(e.rid.page, row))]
    {
      hide DecodeEntry;
      ghost var bs, schema, pos := frame[..], marshal.schema, SlotStart(index);
      EntryRowWritten(schema, Slot(bs, LEAF_HEADER, LeafSlotSize(schema), index), row);
      ghost var e := LeafSlot(schema, bs, index);
      LeafSlotWritten(schema, bs, index, FixedSpace(schema) + 4, EncodeInt32(row), e.(rid := RowId(e.rid.page, row)));
      StoreInt32(frame, SlotStart(index) + FixedSpace(marshal.schema) + 4, row);
      SameLeafHeader(bs, frame[..]);
    }

    /** Copies the entry of slot from to slot to. */
    method CopyEntry(from: nat, to: nat)
      requires Valid() && from < LeafCapacity(marshal.schema) && to < LeafCapacity(marshal.schema)
      modifies frame
      ensures Header() == old(Header()) && Slots() == old(Slots())[to := old(Slots())[from]]
    {
      var key := GetKey(from);
      SetKey(to, key);
      var value := GetValue(from);
      SetValue(to, value);
    }

    /** The keys in use have the shape of key, so that they can be compared with it. */
    ghost predicate Comparable(key: Row)
      requires Valid() && Sized()
      reads frame
    {
      forall i :: 0 <= i < Header().size ==> SameShape(Slots()[i].key, key)
    }

    /** insertEntry: false if the page is full; otherwise the entry inserted at index. */
    method InsertEntry(index: nat, key: Row, value: RowId) returns (inserted: bool)
      requires Valid() && Sized() && index <= Header().size && Storable(marshal.schema, key)
      modifies frame
      ensures inserted <==> old(Header().size) < LeafCapacity(marshal.schema)
      ensures !inserted ==> frame[..] == old(frame[..])
      ensures inserted ==> Header() == old(Header()).(size := old(Header().size) + 1)
      ensures inserted ==> Entries() == InsertAt(old(Entries()), index, Entry(key, value))
    {
      hide LeafSlots;
      var size := GetSize();
      if size + 1 > LeafCapacity(marshal.schema) {
        return false;
      }
      CapacitySmall(marshal.schema);
      IncreaseSize(1);
      ShiftRight(index, size);
      SetValue(index, value);
      SetKey(index, key);
      ShiftedUp(old(Slots()), Slots(), size, index, Entry(key, value));
      inserted := true;
    }

    /** Moves the entries index .. size - 1 one slot up. */
    method ShiftRight(index: nat, size: nat)
      requires Valid() && index <= size < LeafCapacity(marshal.schema)
      modifies frame
      ensures Header() == old(Header())
      ensures forall j :: 0 <= j <= index ==> Slots()[j] == old(Slots())[j]
      ensures forall j :: index < j <= size ==> Slots()[j] == old(Slots())[j - 1]
    {
      hide LeafSlots;
      ghost var was := Slots();
      var i := size;
      while i > index
        invariant index <= i <= size
        invariant Header() == old(Header())
        invariant forall j :: 0 <= j <= i ==> Slots()[j] == was[j]
        invariant forall j :: i < j <= size ==> Slots()[j] == was[j - 1]
      {
        CopyEntry(i - 1, i);
        i := i - 1;
      }
    }

    /** Moves the entries index + 1 .. size - 1 one slot down. */
    method ShiftLeft(index: nat, size: nat)
      requires Valid() && index < size <= LeafCapacity(marshal.schema)
      modifies frame
      ensures Header() == old(Header())
      ensures forall j :: 0 <= j < index ==> Slots()[j] == old(Slots())[j]
      ensures forall j :: index <= j < size - 1 ==> Slots()[j] == old(Slots())[j + 1]
    {
      hide LeafSlots;
      ghost var was := Slots();
      var i := index;
      while i < size - 1
        invariant index <= i <= size - 1
        invariant Header() == old(Header())
        invariant forall j :: 0 <= j < index ==> Slots()[j] == was[j]
        invariant forall j :: index <= j < i ==> Slots()[j] == was[j + 1]
        invariant forall j :: i < j < size ==> Slots()[j] == was[j]
      {
        CopyEntry(i + 1, i);
        i := i + 1;
      }
    }

    /** The first entry whose key is not below key. */
    method LowerBound(key: Row) returns (index: nat)
      requires Valid() && Sized() && Comparable(key)
      ensures index == BTreeModel.LowerBound(Entries(), key)
    {
      hide LeafSlots;
      var size := GetSize();
      ghost var es := Entries();
      index := 0;
      while index < size
        invariant index <= size
        invariant forall j :: 0 <= j < index ==> Less(es[j].key, key)
      {
        var k := GetKey(index);
        var c := CompareRows(k, key, []);
        LessTotal(k, key);
        if c == 0 {
          break;
        }
        if c != -1 {
          break;
        }
        index := index + 1;
      }
      LowerBoundUnique(es, key, index);
    }

    /** remove: deletes the entry with the given key, if there is one. */
    method Remove(key: Row) returns (removed: bool)
      requires Valid() && Sized() && Comparable(key)
      modifies frame
      ensures var at := FindKey(old(Entries()), key);
              (removed <==> at < old(Header().size)) &&
              (removed ==> Header() == old(Header()).(size := old(Header().size) - 1) &&
                           Entries() == RemoveAt(old(Entries()), at))
      ensures !removed ==> frame[..] == old(frame[..])
    {
      hide LeafSlots, FindKey;
      var size := GetSize();
      var index := FindIndex(key);
      if index == size {
        return false;
      }
      CapacitySmall(marshal.schema);
      ShiftLeft(index, size);
      IncreaseSize(-1);
      ShiftedDown(old(Slots()), Slots(), size, index);
      removed := true;
    }

    /** The index of the entry with the given key, the size if there is none. */
    method FindIndex(key: Row) returns (index: nat)
      requires Valid() && Sized() && Comparable(key)
      ensures index == FindKey(Entries(), key)
    {
      hide LeafSlots;
      var size := GetSize();
      ghost var es := Entries();
      index := 0;
      while index < size
        invariant 0 <= index <= size
        invariant forall j :: 0 <= j < index ==> es[j].key != key
      {
        var k := GetKey(index);
        var c := CompareRows(k, key, []);
        LessTotal(k, key);
        if c == 0 {
          break;
        }
        index := index + 1;
      }
      FindKeyIs(es, key, index);
    }

    /** The keys from slot 1 on ascend; the program throws if they do not. */
    method CheckCorrectness() returns (correct: bool)
      requires Valid() && Sized()
      requires forall i, j :: 0 <= i < j < Header().size ==> SameShape(Slots()[i].key, Slots()[j].key)
      ensures correct <==> forall i :: 1 <= i < Header().size - 1 ==> Less(Slots()[i].key, Slots()[i + 1].key)
    {
      hide LeafSlots;
      var size := GetSize();
      if size == 0 {
        return true;
      }
      var i := 1;
      while i < size - 1
        invariant 1 <= i <= if size > 1 then size - 1 else 1
        invariant forall j :: 1 <= j < i ==> Less(Slots()[j].key, Slots()[j + 1].key)
      {
        var k := GetKey(i);
        var next := GetKey(i + 1);
        var c := CompareRows(k, next, []);
        if c != -1 {
          assert !Less(Slots()[i].key, Slots()[i + 1].key);
          return false;
        }
        i := i + 1;
      }
      correct := true;
    }

    /** split: moves the upper half of the entries to an empty page; returns the greatest key left. */
    method Split(rhs: LeafPage) returns (maxKey: Row)
      requires Valid() && Sized() && rhs.Valid() && rhs.marshal == marshal && rhs.frame != frame
      requires rhs.Header().size == 0 && Header().size >= 2
      requires 2 * (Header().size - Header().size / 2) <= LeafCapacity(marshal.schema)
      requires Sorted(Entries())
      requires forall i, j :: 0 <= i < j < Header().size ==> SameShape(Slots()[i].key, Slots()[j].key)
      modifies frame, rhs.frame
      ensures var half := old(Header().size) / 2;
              Header() == old(Header()).(size := half) &&
              rhs.Header() == old(rhs.Header()).(size := old(Header().size) - half) &&
              Entries() == old(Entries())[..half] && rhs.Entries() == old(Entries())[half..]
      ensures maxKey == MaxKey(Entries())
    {
      hide LeafSlots, LeafHeader, LeafCapacity, Sorted, Less, SameShape, KeySchema, FixedSpace;
      SortedAscends(Entries());
      var rightCorrect := rhs.CheckCorrectness();
      var leftCorrect := CheckCorrectness();
      assert rightCorrect && leftCorrect;
      CapacitySmall(marshal.schema);
      var size := GetSize();
      var halfSize := size / 2;
      rhs.IncreaseSize(size - halfSize);
      rhs.ShiftBy(size - halfSize);
      MoveUpper(rhs, halfSize, size);
      SetSize(halfSize);
      maxKey := GetKey(halfSize - 1);
      SlotsMoved(old(Slots()), rhs.Slots(), halfSize, size);
    }

    /** The first loop of split, on the slots of the right page: what is there moves up by n slots. */
    method ShiftBy(n: nat)
      requires Valid() && Header().size == n && 2 * n <= LeafCapacity(marshal.schema)
      modifies frame
      ensures Header() == old(Header())
    {
      hide LeafSlots;
      var i := n;
      while i > 0
        invariant 0 <= i <= n
        invariant Header() == old(Header())
      {
        i := i - 1;
        CopyEntry(i, i + n);
      }
    }

    method MoveUpper(rhs: LeafPage, half: nat, size: nat)
      requires Valid() && rhs.Valid() && rhs.marshal == marshal && rhs.frame != frame
      requires half <= size <= LeafCapacity(marshal.schema)
      modifies rhs.frame
      ensures rhs.Header() == old(rhs.Header())
      ensures forall j :: 0 <= j < size - half ==> rhs.Slots()[j] == Slots()[half + j]
    {
      hide LeafSlots;
      var i := half;
      while i < size
        invariant half <= i <= size
        invariant rhs.Header() == old(rhs.Header())
        invariant forall j :: 0 <= j < i - half ==> rhs.Slots()[j] == Slots()[half + j]
      {
        var key := GetKey(i);
        rhs.SetKey(i - half, key);
        var value := GetValue(i);
        rhs.SetValue(i - half, value);
        i := i + 1;
      }
    }
  }

  lemma SortedAscends(es: seq<Entry>)
    requires Sorted(es)
    ensures forall i :: 1 <= i < |es| - 1 ==> Less(es[i].key, es[i + 1].key)
  {
  }

  lemma SlotsMoved(left: seq<Entry>, right: seq<Entry>, half: nat, size: nat)
    requires half <= size <= |left| && size - half <= |right|
    requires forall j :: 0 <= j < size - half ==> right[j] == left[half + j]
    ensures right[..size - half] == left[..size][half..]
    ensures left[..half] == left[..size][..half]
  {
  }

  // ----- Internal pages in place -----

  /** The header fields of an internal page. */
  datatype InternalFields = InternalFields(kind: nat, size: nat)

  ghost function InternalHeader(bs: Bytes): InternalFields
    requires |bs| == PAGE_SIZE
  {
    InternalFields(FromBytes(Word(bs, 0)), FromBytes(Word(bs, 4)))
  }

  lemma SameInternalHeader(a: Bytes, b: Bytes)
    requires |a| == |b| == PAGE_SIZE && a[..INTERNAL_HEADER] == b[..INTERNAL_HEADER]
    ensures InternalHeader(a) == InternalHeader(b)
  {
    assert Word(a, 0) == a[..INTERNAL_HEADER][0..4] && Word(b, 0) == b[..INTERNAL_HEADER][0..4];
    assert Word(a, 4) == a[..INTERNAL_HEADER][4..8] && Word(b, 4) == b[..INTERNAL_HEADER][4..8];
  }

  lemma InternalSizeWritten(bs: Bytes, n: nat)
    requires |bs| == PAGE_SIZE && n < 0x1_0000_0000
    ensures InternalHeader(Overwrite(bs, 4, ToBytes(n, 4))) == InternalHeader(bs).(size := n)
  {
    Limits();
    FromToBytes(n, 4);
    OverwriteSlice(bs, 4, ToBytes(n, 4));
    OverwriteElsewhere(bs, 4, ToBytes(n, 4), 0, 4);
  }

  /** BTreeInternalPage over the frame of a page. */
  class InternalPage {
    const frame: array<byte>
    const marshal: Marshaller

    constructor (frame: array<byte>, marshal: Marshaller)
      ensures this.frame == frame && this.marshal == marshal
    {
      this.frame, this.marshal := frame, marshal;
    }

    ghost predicate Valid() {
      frame.Length == PAGE_SIZE && KeySchema(marshal.schema)
    }

    ghost function Slots(): (ss: seq<Separator>)
      requires Valid()
      reads frame
      ensures |ss| == InternalCapacity(marshal.schema)
      ensures forall i :: 0 <= i < |ss| ==> Storable(marshal.schema, ss[i].key)
    {
      InternalSlots(marshal.schema, frame[..])
    }

    ghost function Header(): InternalFields
      requires Valid()
      reads frame
    {
      InternalHeader(frame[..])
    }

    ghost predicate Sized()
      requires Valid()
      reads frame
    {
      Header().size <= InternalCapacity(marshal.schema)
    }

    ghost function Separators(): seq<Separator>
      requires Valid() && Sized()
      reads frame
    {
      Slots()[..Header().size]
    }

    function SlotStart(index: nat): (pos: nat)
      requires Valid() && index < InternalCapacity(marshal.schema)
      ensures pos == INTERNAL_HEADER + SlotPos(InternalSlotSize(marshal.schema), index)
      ensures pos + InternalSlotSize(marshal.schema) <= PAGE_SIZE
    {
      CapacityHolds(marshal.schema);
      SlotInside(PAGE_SIZE, INTERNAL_HEADER, InternalSlotSize(marshal.schema), InternalCapacity(marshal.schema), index);
      SlotPosIsProduct(InternalSlotSize(marshal.schema), index);
      INTERNAL_HEADER + index * InternalSlotSize(marshal.schema)
    }

    method GetSize() returns (size: nat)
      requires Valid()
      ensures size == Header().size
    {
      size := Load(frame, 4, 4);
    }

    /** Adds to the 32-bit size field, modulo 2^32. */
    method IncreaseSize(amount: int)
      requires Valid()
      modifies frame
      ensures Header() == old(Header()).(size := (old(Header().size) + amount) % 0x1_0000_0000)
      ensures Slots() == old(Slots())
    {
      var size := GetSize();
      InternalSizeWritten(frame[..], (size + amount) % 0x1_0000_0000);
      InternalHeaderWritten(marshal.schema, frame[..], 4, ToBytes((size + amount) % 0x1_0000_0000, 4));
      Store(frame, 4, (size + amount) % 0x1_0000_0000, 4);
    }

    method GetKey(index: nat) returns (key: Row)
      requires Valid() && index < InternalCapacity(marshal.schema)
      ensures key == Slots()[index].key
    {
      ghost var pos := SlotStart(index);
      SlotRow(marshal.schema, frame[..], INTERNAL_HEADER, InternalSlotSize(marshal.schema), index);
      assert frame[..][pos..] == frame[pos..];
      key := marshal.DeserializeRow(frame, SlotStart(index));
    }

    method SetKey(index: nat, key: Row)
      requires Valid() && index < InternalCapacity(marshal.schema) && Storable(marshal.schema, key)
      modifies frame
      ensures Header() == old(Header()) && Slots() == old(Slots())[index := old(Slots())[index].(key := key)]
    {
      ghost var bs, schema, pos := frame[..], marshal.schema, SlotStart(index);
      SeparatorKeyWritten(schema, Slot(bs, INTERNAL_HEADER, InternalSlotSize(schema), index), key);
      InternalSlotWritten(schema, bs, index, 0, EncodeRow(schema, key), InternalSlot(schema, bs, index).(key := key));
      var end := marshal.SerializeRow(frame, SlotStart(index), key);
      SameInternalHeader(bs, frame[..]);
    }

    method GetValue(index: nat) returns (page: int32)
      requires Valid() && index < InternalCapacity(marshal.schema)
      ensures page == Slots()[index].page
    {
      var pos := SlotStart(index) + FixedSpace(marshal.schema);
      page := LoadInt32(frame, pos);
      ghost var slot := Slot(frame[..], INTERNAL_HEADER, InternalSlotSize(marshal.schema), index);
      assert Word(slot, FixedSpace(marshal.schema)) == frame[pos..pos + 4];
    }

    method SetValue(index: nat, page: int32)
      requires Valid() && index < InternalCapacity(marshal.schema)
      modifies frame
      ensures Header() == old(Header()) && Slots() == old(Slots())[index := old(Slots())[index].(page := page)]
    {
      ghost var bs, schema, pos := frame[..], marshal.schema, SlotStart(index);
      SeparatorPageWritten(schema, Slot(bs, INTERNAL_HEADER, InternalSlotSize(schema), index), page);
      ghost var s := InternalSlot(schema, bs, index);
      InternalSlotWritten(schema, bs, index, FixedSpace(schema), EncodeInt32(page), s.(page := page));
      StoreInt32(frame, SlotStart(index) + FixedSpace(marshal.schema), page);
      SameInternalHeader(bs, frame[..]);
    }

    method CopySeparator(from: nat, to: nat)
      requires Valid() && from < InternalCapacity(marshal.schema) && to < InternalCapacity(marshal.schema)
      modifies frame
      ensures Header() == old(Header()) && Slots() == old(Slots())[to := old(Slots())[from]]
    {
      var key := GetKey(from);
      SetKey(to, key);
      var value := GetValue(from);
      SetValue(to, value);
    }

    /** insertFirstEntry: a page index in slot 0, whose key stays as it is. */
    method InsertFirstEntry(page: int32)
      requires Valid() && Header().size == 0 && InternalCapacity(marshal.schema) > 0
      modifies frame
      ensures Header() == old(Header()).(size := 1) && Sized()
      ensures Pages(Separators()) == [page]
    {
      hide InternalSlots;
      IncreaseSize(1);
      SetValue(0, page);
    }

    /** insertEntry: false if the page is full; otherwise the key and page inserted at index. */
    method InsertEntry(index: nat, key: Row, page: int32) returns (inserted: bool)
      requires Valid() && Sized() && index <= Header().size && Storable(marshal.schema, key)
      modifies frame
      ensures inserted <==> old(Header().size) < InternalCapacity(marshal.schema)
      ensures !inserted ==> frame[..] == old(frame[..])
      ensures inserted ==> Header() == old(Header()).(size := old(Header().size) + 1)
      ensures inserted ==> Separators() == InsertAt(old(Separators()), index, Separator(key, page))
    {
      hide InternalSlots, FixedSpace, Storable, SlotPos;
      var size := GetSize();
      if size + 1 > InternalCapacity(marshal.schema) {
        return false;
      }
      CapacitySmall(marshal.schema);
      IncreaseSize(1);
      ShiftRight(index, size);
      SetValue(index, page);
      SetKey(index, key);
      ShiftedUp(old(Slots()), Slots(), size, index, Separator(key, page));
      inserted := true;
    }

    method ShiftRight(index: nat, size: nat)
      requires Valid() && index <= size < InternalCapacity(marshal.schema)
      modifies frame
      ensures Header() == old(Header())
      ensures forall j :: 0 <= j <= index ==> Slots()[j] == old(Slots())[j]
      ensures forall j :: index < j <= size ==> Slots()[j] == old(Slots())[j - 1]
    {
      hide InternalSlots;
      ghost var was := Slots();
      var i := size;
      while i > index
        invariant index <= i <= size
        invariant Header() == old(Header())
        invariant forall j :: 0 <= j <= i ==> Slots()[j] == was[j]
        invariant forall j :: i < j <= size ==> Slots()[j] == was[j - 1]
      {
        CopySeparator(i - 1, i);
        i := i - 1;
      }
    }

    /** The first slot from 1 on whose key is not below key. */
    method LowerBound(key: Row) returns (index: nat)
      requires Valid() && Sized() && Header().size >= 1
      requires forall i :: 1 <= i < Header().size ==> SameShape(Slots()[i].key, key)
      ensures index == 1 + KeyLowerBound(Keys(Separators()[1..]), key)
    {
      hide InternalSlots;
      var size := GetSize();
      ghost var keys := Keys(Separators()[1..]);
      index := 1;
      while index < size
        invariant 1 <= index <= size
        invariant forall j :: 0 <= j < index - 1 ==> Less(keys[j], key)
      {
        var k := GetKey(index);
        assert k == keys[index - 1];
        var c := CompareRows(k, key, []);
        LessTotal(k, key);
        if c == 0 {
          break;
        }
        if c != -1 {
          break;
        }
        index := index + 1;
      }
      KeyLowerBoundUnique(keys, key, index - 1);
    }

    /** removeByIndex: the slots after index move down by one. */
    method RemoveByIndex(index: nat)
      requires Valid() && Sized() && index < Header().size
      modifies frame
      ensures Header() == old(Header()).(size := old(Header().size) - 1)
      ensures Separators() == RemoveAt(old(Separators()), index)
    {
      hide InternalSlots;
      var size := GetSize();
      CapacitySmall(marshal.schema);
      ShiftLeft(index, size);
      IncreaseSize(-1);
      ShiftedDown(old(Slots()), Slots(), size, index);
    }

    method ShiftLeft(index: nat, size: nat)
      requires Valid() && index < size <= InternalCapacity(marshal.schema)
      modifies frame
      ensures Header() == old(Header())
      ensures forall j :: 0 <= j < index ==> Slots()[j] == old(Slots())[j]
      ensures forall j :: index <= j < size - 1 ==> Slots()[j] == old(Slots())[j + 1]
    {
      hide InternalSlots;
      ghost var was := Slots();
      var i := index + 1;
      while i < size
        invariant index + 1 <= i <= size
        invariant Header() == old(Header())
        invariant forall j :: 0 <= j < index ==> Slots()[j] == was[j]
        invariant forall j :: index <= j < i - 1 ==> Slots()[j] == was[j + 1]
        invariant forall j :: i <= j < size ==> Slots()[j] == was[j]
      {
        CopySeparator(i, i - 1);
        i := i + 1;
      }
    }
  }

  lemma KeyLowerBoundUnique(keys: seq<Row>, k: Row, n: nat)
    requires n <= |keys|
    requires forall j :: 0 <= j < n ==> Less(keys[j], k)
    requires n < |keys| ==> !Less(keys[n], k)
    ensures n == KeyLowerBound(keys, k)
  {
  }

  lemma CapacitySmall(schema: Schema)
    ensures LeafCapacity(schema) <= PAGE_SIZE && InternalCapacity(schema) <= PAGE_SIZE
  {
  }

  lemma FindKeyIs(es: seq<Entry>, k: Row, n: nat)
    requires n <= |es|
    requires forall j :: 0 <= j < n ==> es[j].key != k
    requires n < |es| ==> es[n].key == k
    ensures n == FindKey(es, k)
  {
  }
}
