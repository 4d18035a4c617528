/** The index tree on frames (lib/sql/btree.cpp): each operation changes pages in place and is
    the operation of BTreeModel on what the pages say. */
module BTree {
  import opened Rows
  import opened Seqs
  import opened Comparator
  import opened Bytes
  import opened Schemas
  import opened Marshal
  import opened Slots
  import opened BTreeModel
  import opened BTreePage
  import Map = BTreeMap
  import Steps = BTreeSteps
  import Runs = BTreeRuns

  /** Every key in the pages has the shape of key, so that the comparator may compare them. */
  ghost predicate Typed(ps: seq<Page>, key: Row) {
    forall p :: 0 <= p < |ps| ==> TypedPage(ps[p], key)
  }

  ghost predicate TypedPage(page: Page, key: Row) {
    match page
    case Leaf(es, _, _) => forall i :: 0 <= i < |es| ==> SameShape(es[i].key, key)
    case Internal(_, keys) => forall i :: 0 <= i < |keys| ==> SameShape(keys[i], key)
    case _ => true
  }

  // ----- Views of single pages -----

  lemma LeafViewOf(schema: Schema, bs: Bytes)
    requires KeySchema(schema) && |bs| == PAGE_SIZE
    ensures View(schema, bs).Leaf? <==> LeafHeader(bs).kind == LEAF_PAGE && LeafHeader(bs).size <= LeafCapacity(schema)
    ensures View(schema, bs).Leaf? ==>
      var h := LeafHeader(bs); View(schema, bs) == Leaf(LeafSlots(schema, bs)[..h.size], h.prev, h.next)
  {
  }

  lemma InternalViewOf(schema: Schema, bs: Bytes)
    requires KeySchema(schema) && |bs| == PAGE_SIZE
    ensures View(schema, bs).Internal? <==>
      InternalHeader(bs).kind == INTERNAL_PAGE && InternalHeader(bs).size <= InternalCapacity(schema)
    ensures View(schema, bs).Internal? ==>
      View(schema, bs) == InternalView(InternalSlots(schema, bs)[..InternalHeader(bs).size])
  {
  }

  lemma KindOfView(schema: Schema, bs: Bytes)
    requires KeySchema(schema) && |bs| == PAGE_SIZE
    ensures View(schema, bs).Internal? ==> PageType(bs) == INTERNAL_PAGE
    ensures View(schema, bs).Leaf? ==> PageType(bs) == LEAF_PAGE
  {
  }

  lemma {:induction false} ZeroBytes(bs: Bytes)
    requires forall i :: 0 <= i < |bs| ==> bs[i] == 0
    ensures FromBytes(bs) == 0
  {
    if bs != [] {
      ZeroBytes(bs[1..]);
    }
  }

  /** A zeroed page whose type has been set. */
  lemma FreshPage(schema: Schema, bs: Bytes, kind: nat)
    requires KeySchema(schema) && |bs| == PAGE_SIZE && kind < 256
    requires forall i :: 0 <= i < |bs| ==> bs[i] == 0
    ensures var bs1 := Overwrite(bs, 0, ToBytes(kind, 4));
            LeafHeader(bs1) == LeafFields(kind, 0, 0, 0) && InternalHeader(bs1) == InternalFields(kind, 0) &&
            (kind == METADATA_PAGE ==> View(schema, bs1) == Metadata(0))
  {
    var bs1 := Overwrite(bs, 0, ToBytes(kind, 4));
    Limits();
    FromToBytes(kind, 4);
    OverwriteSlice(bs, 0, ToBytes(kind, 4));
    ZeroBytes(Word(bs1, 4));
    ZeroBytes(Word(bs1, 8));
    ZeroBytes(Word(bs1, 12));
  }

  lemma RootWritten(schema: Schema, bs: Bytes, root: int32)
    requires KeySchema(schema) && |bs| == PAGE_SIZE && View(schema, bs).Metadata?
    ensures View(schema, Overwrite(bs, 4, EncodeInt32(root))) == Metadata(root)
  {
    Int32RoundTrip(root);
    OverwriteSlice(bs, 4, EncodeInt32(root));
    OverwriteElsewhere(bs, 4, EncodeInt32(root), 0, 4);
  }

  /** The key and page size fields are not part of what the tree reads. */
  lemma MetadataWritten(schema: Schema, bs: Bytes, at: nat, x: Bytes)
    requires KeySchema(schema) && |bs| == PAGE_SIZE && View(schema, bs).Metadata? && 8 <= at && at + |x| <= PAGE_SIZE
    ensures View(schema, Overwrite(bs, at, x)) == View(schema, bs)
  {
    OverwriteElsewhere(bs, at, x, 0, 4);
    OverwriteElsewhere(bs, at, x, 4, 8);
  }

  /** The descent in terms of the root's slots. */
  lemma DescentSlot(ps: seq<Page>, key: Row)
    requires Shaped(ps)
    ensures Root(ps).Leaf? ==> DescentPage(ps, key) == ps[0].root
    ensures Root(ps).Internal? ==>
      var lb := KeyLowerBound(Root(ps).keys, key);
      var slot := 1 + (if lb == |Root(ps).keys| then lb - 1 else lb);
      DescentIndex(ps, key) + 1 == slot && slot < |Root(ps).kids| && DescentPage(ps, key) == Root(ps).kids[slot]
  {
  }

  // ----- Separators as children and keys -----

  lemma InsertSeparator(ss: seq<Separator>, i: nat, s: Separator)
    requires 0 < i <= |ss|
    ensures InternalView(InsertAt(ss, i, s)) ==
            Internal(InsertAt(InternalView(ss).kids, i, s.page), InsertAt(InternalView(ss).keys, i - 1, s.key))
  {
    InsertAtTail(ss, i, s);
    assert Pages(InsertAt(ss, i, s)) == InsertAt(Pages(ss), i, s.page);
    assert Keys(InsertAt(ss[1..], i - 1, s)) == InsertAt(Keys(ss[1..]), i - 1, s.key);
  }

  lemma RemoveSeparator(ss: seq<Separator>, i: nat)
    requires 0 < i < |ss|
    ensures InternalView(RemoveAt(ss, i)) ==
            Internal(RemoveAt(InternalView(ss).kids, i), RemoveAt(InternalView(ss).keys, i - 1))
  {
    RemoveAtTail(ss, i);
    assert Pages(RemoveAt(ss, i)) == RemoveAt(Pages(ss), i);
    assert Keys(RemoveAt(ss[1..], i - 1)) == RemoveAt(Keys(ss[1..]), i - 1);
  }

  lemma SetSeparatorKey(ss: seq<Separator>, i: nat, key: Row)
    requires 0 < i < |ss|
    ensures InternalView(ss[i := ss[i].(key := key)]) == Internal(InternalView(ss).kids, InternalView(ss).keys[i - 1 := key])
  {
    var ss1 := ss[i := ss[i].(key := key)];
    assert Pages(ss1) == Pages(ss);
    assert ss1[1..] == ss[1..][i - 1 := ss1[i]];
    assert Keys(ss1[1..]) == Keys(ss[1..])[i - 1 := key];
  }

  // ----- The tree -----

  class Tree {
    const marshal: Marshaller
    var pages: seq<array<byte>>

    /** A fresh index: metadata page 0 and an empty root leaf. */
    constructor (schema: Schema)
      requires KeySchema(schema)
      ensures Valid() && marshal.schema == schema && fresh(marshal)
      ensures forall i :: 0 <= i < |pages| ==> fresh(pages[i])
      ensures Content() == Runs.FreshPages()
    {
      marshal := new Marshaller(schema);
      pages := [];
      new;
      var metadataPage := AllocatePage(METADATA_PAGE);
      var rootPage := AllocateEmptyLeaf();
      SetRootPageIndex(rootPage);
      WriteSizes();
    }

    /** The frames of the index table are separate pages. */
    ghost predicate Valid()
      reads this, pages
    {
      KeySchema(marshal.schema) &&
      (forall i :: 0 <= i < |pages| ==> pages[i].Length == PAGE_SIZE) &&
      (forall i, j :: 0 <= i < j < |pages| ==> pages[i] != pages[j])
    }

    ghost function PageView(p: nat): Page
      requires Valid() && p < |pages|
      reads this, pages
    {
      View(marshal.schema, pages[p][..])
    }

    /** What the pages of the index say. */
    ghost function Content(): (ps: seq<Page>)
      requires Valid()
      reads this, pages
      ensures |ps| == |pages|
      ensures forall p :: 0 <= p < |ps| ==> ps[p] == PageView(p)
    {
      seq(|pages|, p requires 0 <= p < |pages| && Valid() reads this, pages => PageView(p))
    }

    ghost function Capacities(): Config {
      Config(LeafCapacity(marshal.schema), InternalCapacity(marshal.schema))
    }

    /** Page numbers fit the 32-bit fields, with two to spare. */
    ghost predicate Numbered()
      reads this
    {
      |pages| + 2 < 0x8000_0000
    }

    // ----- Pages -----

    /** Appends a zeroed page of the given type. */
    method AllocatePage(kind: nat) returns (page: int32)
      requires Valid() && |pages| < 0x7fff_ffff && kind < 256
      modifies this
      ensures Valid() && page as int == |old(pages)| < |pages| && fresh(pages[page]) && pages == old(pages) + [pages[page]]
      ensures LeafHeader(pages[page][..]) == LeafFields(kind, 0, 0, 0)
      ensures InternalHeader(pages[page][..]) == InternalFields(kind, 0)
      ensures kind == METADATA_PAGE ==> PageView(page) == Metadata(0)
    {
      var frame := new byte[PAGE_SIZE](_ => 0);
      FreshPage(marshal.schema, frame[..], kind);
      Store(frame, 0, kind, 4);
      page := |pages|;
      pages := pages + [frame];
    }

    method GetPageType(p: nat) returns (kind: nat)
      requires Valid() && p < |pages|
      ensures kind == PageType(pages[p][..])
    {
      kind := Load(pages[p], 0, 4);
    }

    method GetRootPageIndex() returns (root: int32)
      requires Valid() && |pages| > 0 && PageView(0).Metadata?
      ensures root as int == PageView(0).root
    {
      root := LoadInt32(pages[0], 4);
    }

    method SetRootPageIndex(root: int32)
      requires Valid() && |pages| > 0 && PageView(0).Metadata?
      modifies pages[0]
      ensures Valid() && Content() == old(Content())[0 := Metadata(root)]
    {
      ghost var was := Content();
      RootWritten(marshal.schema, pages[0][..], root);
      StoreInt32(pages[0], 4, root);
      assert Content() == was[0 := Metadata(root)];
    }

    /** Stores the key and page sizes, which the tree never reads back. */
    method WriteSizes()
      requires Valid() && |pages| > 0 && PageView(0).Metadata?
      modifies pages[0]
      ensures Valid() && Content() == old(Content())
    {
      ghost var was := Content();
      MetadataWritten(marshal.schema, pages[0][..], 12, ToBytes(LeafCapacity(marshal.schema), 4));
      Store(pages[0], 12, LeafCapacity(marshal.schema), 4);
      MetadataWritten(marshal.schema, pages[0][..], 8, ToBytes(FixedSpace(marshal.schema), 4));
      Store(pages[0], 8, FixedSpace(marshal.schema), 4);
      assert Content() == was;
    }

    /** Appends an empty leaf page without neighbours. */
    method AllocateEmptyLeaf() returns (page: int32)
      requires Valid() && |pages| < 0x7fff_ffff
      modifies this
      ensures Valid() && page as int == |old(pages)| < |pages| && fresh(pages[page]) && pages == old(pages) + [pages[page]]
      ensures Content() == old(Content()) + [Leaf([], INVALID, INVALID)]
    {
      ghost var was := Content();
      page := AllocatePage(LEAF_PAGE);
      var leaf := new LeafPage(pages[page], marshal);
      leaf.SetPreviousPageIndex(-1);
      leaf.SetNextPageIndex(-1);
      LeafViewOf(marshal.schema, pages[page][..]);
      assert leaf.Entries() == [];
      assert Content() == was + [Leaf([], INVALID, INVALID)];
    }

    /** The leaf page object over page p. */
    method OpenLeaf(p: nat) returns (leaf: LeafPage)
      requires Valid() && p < |pages| && PageView(p).Leaf?
      ensures leaf.frame == pages[p] && leaf.marshal == marshal && leaf.Valid() && leaf.Sized()
      ensures leaf.Header().kind == LEAF_PAGE && PageView(p) == Leaf(leaf.Entries(), leaf.Header().prev, leaf.Header().next)
    {
      LeafViewOf(marshal.schema, pages[p][..]);
      leaf := new LeafPage(pages[p], marshal);
    }

    /** The internal page object over page p. */
    method OpenInternal(p: nat) returns (node: InternalPage)
      requires Valid() && p < |pages| && PageView(p).Internal?
      ensures node.frame == pages[p] && node.marshal == marshal && node.Valid() && node.Sized()
      ensures node.Header().kind == INTERNAL_PAGE && PageView(p) == InternalView(node.Separators())
    {
      InternalViewOf(marshal.schema, pages[p][..]);
      node := new InternalPage(pages[p], marshal);
    }

    // ----- The descent -----

    /** From the root to the leaf for key, keeping the internal page and the slot taken. */
    method Descend(key: Row) returns (p: int32, stack: seq<int32>, indices: seq<nat>)
      requires Valid() && Shaped(Content()) && Typed(Content(), key)
      ensures p as int == DescentPage(Content(), key)
      ensures if Root(Content()).Leaf? then stack == [] && indices == []
              else stack == [Content()[0].root] && indices == [DescentIndex(Content(), key) + 1]
    {
      hide View, SameShape, KeyLowerBound, DescentIndex, LivePages;
      ghost var ps := Content();
      DescentSlot(ps, key);
      p := GetRootPageIndex();
      stack, indices := [], [];
      while true
        invariant if stack == [] then p as int == ps[0].root && indices == []
                  else Root(ps).Internal? && stack == [ps[0].root] && indices == [DescentIndex(ps, key) + 1] && p as int == DescentPage(ps, key)
        decreases |stack| == 0
      {
        var kind := GetPageType(p);
        KindOfView(marshal.schema, pages[p][..]);
        assert PageView(p) == ps[p] && TypedPage(ps[p], key);
        if kind == INTERNAL_PAGE {
          var slot, child := Choose(p, key);
          stack, indices, p := stack + [p], indices + [slot], child;
        } else {
          break;
        }
      }
    }

    /** The slot of internal page p that the descent for key takes, and its child. */
    method Choose(p: int32, key: Row) returns (slot: nat, child: int32)
      requires Valid() && 0 <= p as int < |pages|
      requires PageView(p).Internal? && TypedPage(PageView(p), key)
      requires |PageView(p).kids| >= 2 && |PageView(p).keys| == |PageView(p).kids| - 1
      ensures var node := PageView(p);
              var lb := KeyLowerBound(node.keys, key);
              slot == 1 + (if lb == |node.keys| then lb - 1 else lb) && slot < |node.kids| && child as int == node.kids[slot]
    {
      hide View, InternalSlots, InternalCapacity, InternalHeader, KeySchema, Less, SameShape;
      var vertex := OpenInternal(p);
      ghost var ss := vertex.Separators();
      forall i | 1 <= i < |ss| ensures SameShape(ss[i].key, key) {
        assert Keys(ss[1..])[i - 1] == ss[i].key;
      }
      slot := vertex.LowerBound(key);
      var size := vertex.GetSize();
      if slot == size {
        slot := slot - 1;
      }
      child := vertex.GetValue(slot);
      assert Pages(ss)[slot] == child;
    }

    /** Looks key up; None if the index does not hold it. */
    method LookupKey(key: Row) returns (r: Option<RowId>)
      requires Valid() && Shaped(Content()) && Typed(Content(), key)
      ensures r == Lookup(Content(), key)
    {
      hide SameShape, LivePages, DescentIndex;
      hide View, LeafSlots, SameShape, LowerBound;
      ghost var ps := Content();
      var p, stack, indices := Descend(key);
      var leaf := OpenLeaf(p);
      assert PageView(p) == ps[p] && TypedPage(ps[p], key);
      TypedLeaf(leaf, ps[p], key);
      r := LookupInLeaf(leaf, key);
    }

    method LookupInLeaf(leaf: LeafPage, key: Row) returns (r: Option<RowId>)
      requires leaf.Valid() && leaf.Sized() && leaf.Comparable(key)
      ensures r == Map.Find(leaf.Entries(), key)
    {
      hide View, LeafSlots, SameShape, LowerBound, LeafHeader, KeySchema;
      var index := leaf.LowerBound(key);
      var size := leaf.GetSize();
      if index >= size {
        return None;
      }
      var answer := leaf.GetValue(index);
      var found := leaf.GetKey(index);
      if found != key {
        return None;
      }
      return Some(answer);
    }

    // ----- Single page operations, as changes of the content -----

    method GetNext(p: nat) returns (next: int32)
      requires Valid() && p < |pages| && PageView(p).Leaf?
      ensures next as int == PageView(p).next
    {
      hide View;
      var leaf := OpenLeaf(p);
      next := leaf.GetNextPageIndex();
    }

    method GetPrev(p: nat) returns (prev: int32)
      requires Valid() && p < |pages| && PageView(p).Leaf?
      ensures prev as int == PageView(p).prev
    {
      hide View;
      var leaf := OpenLeaf(p);
      prev := leaf.GetPreviousPageIndex();
    }

    method SetNext(p: nat, next: int32)
      requires Valid() && p < |pages| && PageView(p).Leaf?
      modifies pages[p]
      ensures Valid() && Content() == old(Content())[p := old(PageView(p)).(next := next)]
    {
      hide View, LeafSlots, LeafHeader;
      ghost var was := Content();
      var leaf := OpenLeaf(p);
      leaf.SetNextPageIndex(next);
      LeafViewOf(marshal.schema, pages[p][..]);
      assert Content() == was[p := was[p].(next := next)];
    }

    method SetPrev(p: nat, prev: int32)
      requires Valid() && p < |pages| && PageView(p).Leaf?
      modifies pages[p]
      ensures Valid() && Content() == old(Content())[p := old(PageView(p)).(prev := prev)]
    {
      hide View, LeafSlots, LeafHeader;
      ghost var was := Content();
      var leaf := OpenLeaf(p);
      leaf.SetPreviousPageIndex(prev);
      LeafViewOf(marshal.schema, pages[p][..]);
      assert Content() == was[p := was[p].(prev := prev)];
    }

    /** Inserts in leaf p at the key's lower bound; false if the leaf is full. */
    method InsertInLeaf(p: nat, key: Row, rid: RowId) returns (inserted: bool)
      requires Valid() && p < |pages| && PageView(p).Leaf? && TypedPage(PageView(p), key)
      requires Storable(marshal.schema, key)
      modifies pages[p]
      ensures Valid() && (inserted <==> |old(PageView(p)).es| < LeafCapacity(marshal.schema))
      ensures Content() == if inserted then old(Content())[p := old(PageView(p)).(es := LeafInsert(old(PageView(p)).es, key, rid))]
                           else old(Content())
    {
      hide View, LeafSlots, LeafHeader, SameShape, LowerBound, LeafCapacity;
      ghost var was := Content();
      var leaf := OpenLeaf(p);
      TypedLeaf(leaf, was[p], key);
      var index := leaf.LowerBound(key);
      inserted := leaf.InsertEntry(index, key, rid);
      LeafViewOf(marshal.schema, pages[p][..]);
      if inserted {
        assert Content() == was[p := was[p].(es := LeafInsert(was[p].es, key, rid))];
      } else {
        assert Content() == was;
      }
    }

    /** Removes key from leaf p, if it is there. */
    method RemoveFromLeaf(p: nat, key: Row) returns (removed: bool)
      requires Valid() && p < |pages| && PageView(p).Leaf? && TypedPage(PageView(p), key)
      modifies pages[p]
      ensures var es := old(PageView(p)).es; var at := FindKey(es, key);
              Valid() && (removed <==> at < |es|) &&
              Content() == if removed then old(Content())[p := old(PageView(p)).(es := RemoveAt(es, at))] else old(Content())
    {
      hide View, LeafSlots, LeafHeader, SameShape, FindKey, LeafCapacity;
      ghost var was := Content();
      var leaf := OpenLeaf(p);
      TypedLeaf(leaf, was[p], key);
      removed := leaf.Remove(key);
      LeafViewOf(marshal.schema, pages[p][..]);
      if removed {
        assert Content() == was[p := was[p].(es := RemoveAt(was[p].es, FindKey(was[p].es, key)))];
      } else {
        assert Content() == was;
      }
    }

    method GetLeafSize(p: nat) returns (size: nat)
      requires Valid() && p < |pages| && PageView(p).Leaf?
      ensures size == |PageView(p).es|
    {
      hide View;
      var leaf := OpenLeaf(p);
      size := leaf.GetSize();
    }

    method GetLastKey(p: nat) returns (key: Row)
      requires Valid() && p < |pages| && PageView(p).Leaf? && PageView(p).es != []
      ensures key == MaxKey(PageView(p).es) && Storable(marshal.schema, key)
    {
      hide View;
      var leaf := OpenLeaf(p);
      var size := leaf.GetSize();
      key := leaf.GetKey(size - 1);
    }

    /** Cuts leaf p in two, the upper half going to the empty leaf q. */
    method SplitLeaf(p: nat, q: nat, ghost key: Row) returns (maxKey: Row)
      requires Valid() && p < |pages| && q < |pages| && p != q && PageView(p).Leaf? && PageView(q).Leaf?
      requires |PageView(p).es| == LeafCapacity(marshal.schema) >= 2 && LeafCapacity(marshal.schema) % 2 == 0
      requires PageView(q).es == [] && Sorted(PageView(p).es) && TypedPage(PageView(p), key)
      modifies pages[p], pages[q]
      ensures Valid()
      ensures var es := old(PageView(p)).es; var half := |es| / 2;
              Content() == old(Content())[p := old(PageView(p)).(es := es[..half])][q := old(PageView(q)).(es := es[half..])] &&
              maxKey == MaxKey(es[..half])
    {
      hide View, LeafSlots, LeafHeader, LeafCapacity, SameShape, Sorted, Less;
      ghost var was := Content();
      ghost var es := was[p].es;
      ghost var half := |es| / 2;
      var leaf := OpenLeaf(p);
      var right := OpenLeaf(q);
      ShapesAgree(leaf, was[p], key);
      maxKey := leaf.Split(right);
      LeafViewOf(marshal.schema, pages[p][..]);
      LeafViewOf(marshal.schema, pages[q][..]);
      assert Content() == was[p := was[p].(es := es[..half])][q := was[q].(es := es[half..])];
    }

    lemma ShapesAgree(leaf: LeafPage, page: Page, key: Row)
      requires leaf.Valid() && leaf.Sized() && page.Leaf? && leaf.Entries() == page.es && TypedPage(page, key)
      ensures forall i, j :: 0 <= i < j < leaf.Header().size ==> SameShape(leaf.Slots()[i].key, leaf.Slots()[j].key)
    {
      TypedLeaf(leaf, page, key);
    }

    method GetInternalSize(p: nat) returns (size: nat)
      requires Valid() && p < |pages| && PageView(p).Internal?
      ensures size == |PageView(p).kids|
    {
      hide View;
      var node := OpenInternal(p);
      size := node.GetSize();
    }

    method GetChild(p: nat, slot: nat) returns (child: int32)
      requires Valid() && p < |pages| && PageView(p).Internal? && slot < |PageView(p).kids|
      ensures child as int == PageView(p).kids[slot]
    {
      hide View, InternalSlots;
      var node := OpenInternal(p);
      child := node.GetValue(slot);
      assert Pages(node.Separators())[slot] == child;
    }

    method SetSeparator(p: nat, slot: nat, key: Row)
      requires Valid() && p < |pages| && PageView(p).Internal? && 0 < slot < |PageView(p).kids|
      requires Storable(marshal.schema, key)
      modifies pages[p]
      ensures Valid() && |old(PageView(p)).keys| == |old(PageView(p)).kids| - 1
      ensures Content() == old(Content())[p := Internal(old(PageView(p)).kids, old(PageView(p)).keys[slot - 1 := key])]
    {
      hide View, InternalSlots, InternalHeader, InternalCapacity;
      ghost var was := Content();
      var node := OpenInternal(p);
      ghost var ss := node.Separators();
      node.SetKey(slot, key);
      assert node.Separators() == ss[slot := ss[slot].(key := key)];
      SetSeparatorKey(ss, slot, key);
      InternalViewOf(marshal.schema, pages[p][..]);
      assert Content() == was[p := Internal(was[p].kids, was[p].keys[slot - 1 := key])];
    }

    /** Inserts a key and child in internal page p; false if the page is full. */
    method InsertInInternal(p: nat, slot: nat, key: Row, child: int32) returns (inserted: bool)
      requires Valid() && p < |pages| && PageView(p).Internal? && 0 < slot <= |PageView(p).kids|
      requires Storable(marshal.schema, key)
      modifies pages[p]
      ensures Valid() && |old(PageView(p)).keys| == |old(PageView(p)).kids| - 1
      ensures inserted <==> |old(PageView(p)).kids| < InternalCapacity(marshal.schema)
      ensures var node := old(PageView(p));
              Content() == if inserted then old(Content())[p := Internal(InsertAt(node.kids, slot, child), InsertAt(node.keys, slot - 1, key))]
                           else old(Content())
    {
      hide View, InternalSlots, InternalHeader, InternalCapacity;
      ghost var was := Content();
      var node := OpenInternal(p);
      ghost var ss := node.Separators();
      inserted := node.InsertEntry(slot, key, child);
      InsertSeparator(ss, slot, Separator(key, child));
      InternalViewOf(marshal.schema, pages[p][..]);
      if inserted {
        assert Content() == was[p := Internal(InsertAt(was[p].kids, slot, child), InsertAt(was[p].keys, slot - 1, key))];
      } else {
        assert Content() == was;
      }
    }

    method RemoveFromInternal(p: nat, slot: nat)
      requires Valid() && p < |pages| && PageView(p).Internal? && slot < |PageView(p).kids|
      requires slot > 0 || |PageView(p).kids| == 1
      modifies pages[p]
      ensures Valid() && (slot > 0 ==> |old(PageView(p)).keys| == |old(PageView(p)).kids| - 1)
      ensures var node := old(PageView(p));
              Content() == old(Content())[p := if slot > 0 then Internal(RemoveAt(node.kids, slot), RemoveAt(node.keys, slot - 1))
                                               else Internal([], [])]
    {
      hide View, InternalSlots, InternalHeader, InternalCapacity;
      ghost var was := Content();
      var node := OpenInternal(p);
      ghost var ss := node.Separators();
      node.RemoveByIndex(slot);
      if slot > 0 {
        RemoveSeparator(ss, slot);
      } else {
        assert node.Separators() == [];
        assert InternalView([]) == Internal([], []);
      }
      InternalViewOf(marshal.schema, pages[p][..]);
      assert Content() == was[p := InternalView(node.Separators())];
    }

    lemma TypedLeaf(leaf: LeafPage, page: Page, key: Row)
      requires leaf.Valid() && leaf.Sized() && page.Leaf? && leaf.Entries() == page.es && TypedPage(page, key)
      ensures leaf.Comparable(key)
    {
      assert forall i :: 0 <= i < leaf.Header().size ==> leaf.Slots()[i] == page.es[i];
    }

    method AllocateLeaf() returns (page: int32)
      requires Valid() && |pages| < 0x7fff_ffff
      modifies this
      ensures Valid() && page as int == |old(pages)| < |pages| && fresh(pages[page]) && pages == old(pages) + [pages[page]]
      ensures Content() == old(Content()) + [Leaf([], 0, 0)]
    {
      hide LeafSlots;
      ghost var was := Content();
      page := AllocatePage(LEAF_PAGE);
      LeafViewOf(marshal.schema, pages[page][..]);
      assert Content() == was + [Leaf([], 0, 0)];
    }

    method AllocateInternal() returns (page: int32)
      requires Valid() && |pages| < 0x7fff_ffff
      modifies this
      ensures Valid() && page as int == |old(pages)| < |pages| && fresh(pages[page]) && pages == old(pages) + [pages[page]]
      ensures Content() == old(Content()) + [Internal([], [])]
    {
      hide InternalSlots;
      ghost var was := Content();
      page := AllocatePage(INTERNAL_PAGE);
      InternalViewOf(marshal.schema, pages[page][..]);
      assert InternalView([]) == Internal([], []);
      assert Content() == was + [Internal([], [])];
    }

    method InsertFirstInInternal(p: nat, child: int32)
      requires Valid() && p < |pages| && PageView(p) == Internal([], []) && InternalCapacity(marshal.schema) > 0
      modifies pages[p]
      ensures Valid() && Content() == old(Content())[p := Internal([child], [])]
    {
      hide View, InternalSlots, InternalHeader, InternalCapacity;
      ghost var was := Content();
      var node := OpenInternal(p);
      node.InsertFirstEntry(child);
      InternalViewOf(marshal.schema, pages[p][..]);
      assert InternalView(node.Separators()) == Internal([child], []);
      assert Content() == was[p := Internal([child], [])];
    }

    // ----- Insertion -----

    lemma RootSlots(p: int, q: int, maxLeft: Row, maxRight: Row)
      ensures InsertAt([p], 1, p) == [p, p] && InsertAt([], 0, maxLeft) == [maxLeft]
      ensures InsertAt([p, p], 2, q) == [p, p, q] && InsertAt([maxLeft], 1, maxRight) == [maxLeft, maxRight]
    {
    }

    /** Enters leaves p and q in the new internal page root; the program does not look whether q
        finds room. */
    method FillRoot(root: nat, p: int32, q: int32, maxLeft: Row, maxRight: Row)
      requires Valid() && root < |pages| && PageView(root) == Internal([], []) && InternalCapacity(marshal.schema) >= 2
      requires Storable(marshal.schema, maxLeft) && Storable(marshal.schema, maxRight)
      modifies pages[root]
      ensures Valid() && Content() == old(Content())[root := GrownRoot(Capacities(), p, q, maxLeft, maxRight)]
    {
      hide View, InternalCapacity, InsertAt;
      RootSlots(p, q, maxLeft, maxRight);
      InsertFirstInInternal(root, p);
      var first := InsertInInternal(root, 1, maxLeft, p);
      assert PageView(root) == Internal([p, p], [maxLeft]);
      var second := InsertInInternal(root, 2, maxRight, q);
    }

    /** A new internal page with the slots of a root over leaves p and q. */
    method AllocateRoot(p: int32, q: int32, maxLeft: Row, maxRight: Row) returns (root: int32)
      requires Valid() && |pages| < 0x7fff_ffff && InternalCapacity(marshal.schema) >= 2
      requires Storable(marshal.schema, maxLeft) && Storable(marshal.schema, maxRight)
      modifies this
      ensures Valid() && root as int == |old(pages)| < |pages| && fresh(pages[root]) && pages == old(pages) + [pages[root]]
      ensures Content() == old(Content()) + [GrownRoot(Capacities(), p, q, maxLeft, maxRight)]
    {
      hide View, InternalCapacity;
      ghost var was := Content();
      root := AllocateInternal();
      FillRoot(root, p, q, maxLeft, maxRight);
      assert Content() == was + [GrownRoot(Capacities(), p, q, maxLeft, maxRight)];
    }

    /** Links leaves p and q as the only two of the chain. */
    method LinkPair(p: int32, q: int32)
      requires Valid() && 0 <= p as int < |pages| && 0 <= q as int < |pages| && p != q
      requires PageView(p).Leaf? && PageView(q).Leaf?
      modifies pages[p], pages[q]
      ensures Valid()
      ensures var left, right := old(PageView(p)), old(PageView(q));
              Content() == old(Content())[p := Leaf(left.es, INVALID, q)][q := Leaf(right.es, p, INVALID)]
    {
      hide View;
      ghost var was := Content();
      SetPrev(q, p);
      SetPrev(p, -1);
      SetNext(p, q);
      SetNext(q, -1);
      assert Content() == was[p := Leaf(was[p].es, INVALID, q)][q := Leaf(was[q].es, p, INVALID)];
    }

    /** The root becomes an internal page over leaves p and q. */
    method GrowRoot(p: int32, q: int32, maxLeft: Row, maxRight: Row)
      requires Valid() && |pages| < 0x7fff_ffff && InternalCapacity(marshal.schema) >= 2
      requires 0 < p as int < |pages| && 0 < q as int < |pages| && p != q
      requires PageView(0).Metadata? && PageView(p).Leaf? && PageView(q).Leaf?
      requires Storable(marshal.schema, maxLeft) && Storable(marshal.schema, maxRight)
      modifies this, pages
      ensures Valid() && old(pages) <= pages && forall i :: |old(pages)| <= i < |pages| ==> fresh(pages[i])
      ensures var left, right := old(PageView(p)), old(PageView(q));
              Content() == old(Content())[p := Leaf(left.es, INVALID, q)][q := Leaf(right.es, p, INVALID)]
                             [0 := Metadata(|old(pages)|)] + [GrownRoot(Capacities(), p, q, maxLeft, maxRight)]
    {
      hide View, InternalCapacity;
      ghost var was := Content();
      var root := AllocateRoot(p, q, maxLeft, maxRight);
      LinkPair(p, q);
      SetRootPageIndex(root);
      assert Content() == was[p := Leaf(was[p].es, INVALID, q)][q := Leaf(was[q].es, p, INVALID)]
                             [0 := Metadata(root)] + [GrownRoot(Capacities(), p, q, maxLeft, maxRight)];
    }

    /** A new empty leaf behind leaf p in the chain. Its previous link is set from the slot of
        the parent, if there is one. */
    method LinkNewLeaf(p: int32, stack: seq<int32>, indices: seq<nat>) returns (q: int32)
      requires Valid() && |pages| < 0x7fff_ffff && 0 <= p as int < |pages| && PageView(p).Leaf?
      requires ParentSlot(p, stack, indices)
      modifies this, pages[p]
      ensures Valid() && q as int == |old(pages)| < |pages| && fresh(pages[q]) && pages == old(pages) + [pages[q]]
      ensures Content() == old(Content())[p := old(PageView(p)).(next := q)]
                           + [Leaf([], if stack == [] then 0 else p, old(PageView(p)).next)]
    {
      hide View;
      ghost var was := Content();
      q := AllocateLeaf();
      var next := GetNext(p);
      SetNext(q, next);
      SetNext(p, q);
      assert stack != [] ==> PageView(stack[0]) == was[stack[0]];
      LinkBack(p, q, stack, indices);
      LinkedPages(was, p, stack == []);
    }

    lemma LinkedPages(was: seq<Page>, p: int, atRoot: bool)
      requires 0 <= p < |was| && was[p].Leaf?
      ensures var q, leaf := |was|, was[p];
              var forth := (was + [Leaf([], 0, 0)])[q := Leaf([], 0, leaf.next)][p := leaf.(next := q)];
              (if atRoot then forth else forth[q := forth[q].(prev := p)])
              == was[p := leaf.(next := q)] + [Leaf([], if atRoot then 0 else p, leaf.next)]
    {
    }

    method LinkBack(p: int32, q: int32, stack: seq<int32>, indices: seq<nat>)
      requires Valid() && 0 <= q as int < |pages| && PageView(q).Leaf? && ParentSlot(p, stack, indices)
      modifies pages[q]
      ensures Valid()
      ensures Content() == if stack == [] then old(Content()) else old(Content())[q := old(PageView(q)).(prev := p)]
    {
      hide View;
      if stack != [] {
        var cur := GetChild(stack[|stack| - 1], indices[|indices| - 1]);
        SetPrev(q, cur);
      }
    }

    /** The stack of the descent is empty, or holds the internal page and slot that lead to p. */
    ghost predicate ParentSlot(p: int32, stack: seq<int32>, indices: seq<nat>)
      requires Valid()
      reads this, pages
    {
      |stack| == |indices| <= 1 &&
      (stack != [] ==> 0 <= stack[0] as int < |pages| && PageView(stack[0]).Internal? &&
                       indices[0] < |PageView(stack[0]).kids| && PageView(stack[0]).kids[indices[0]] == p as int)
    }

    /** Cuts the full leaf p, the upper half going to q, and puts the new entry in its half. */
    method CutAndInsert(p: nat, q: nat, key: Row, rid: RowId)
      requires Valid() && p < |pages| && q < |pages| && p != q && PageView(p).Leaf? && PageView(q).Leaf?
      requires |PageView(p).es| == LeafCapacity(marshal.schema) >= 2 && LeafCapacity(marshal.schema) % 2 == 0
      requires PageView(q).es == [] && Sorted(PageView(p).es) && TypedPage(PageView(p), key) && Storable(marshal.schema, key)
      modifies pages[p], pages[q]
      ensures Valid()
      ensures var halves := SplitInsert(old(PageView(p)).es, key, rid);
              Content() == old(Content())[p := old(PageView(p)).(es := halves.0)][q := old(PageView(q)).(es := halves.1)]
    {
      hide View, LeafCapacity, SameShape, Sorted, LeafSlots, LowerBound, LeafInsert, KeySchema, Storable, Less, SplitInsert;
      ghost var was := Content();
      ghost var es := was[p].es;
      ghost var half := |es| / 2;
      var maxLeft := SplitLeaf(p, q, key);
      TypedHalves(es, half, key);
      var c := CompareRows(maxLeft, key, []);
      LessTotal(maxLeft, key);
      HalvesHaveRoom(es, half);
      if c == -1 {
        var inserted := InsertInLeaf(q, key, rid);
      } else {
        var inserted := InsertInLeaf(p, key, rid);
      }
      CutPagesAgree(was, p, q, key, rid);
    }

    lemma CutPagesAgree(was: seq<Page>, p: nat, q: nat, key: Row, rid: RowId)
      requires p < |was| && q < |was| && p != q && was[p].Leaf? && was[q].Leaf? && |was[p].es| >= 2
      ensures var es, halves := was[p].es, SplitInsert(was[p].es, key, rid);
              var half := |es| / 2;
              var cut := was[p := was[p].(es := es[..half])][q := was[q].(es := es[half..])];
              was[p := was[p].(es := halves.0)][q := was[q].(es := halves.1)] ==
              if Less(MaxKey(es[..half]), key) then cut[q := cut[q].(es := LeafInsert(cut[q].es, key, rid))]
              else cut[p := cut[p].(es := LeafInsert(cut[p].es, key, rid))]
    {
      hide Less, LeafInsert;
    }

    lemma HalvesHaveRoom(es: seq<Entry>, half: nat)
      requires |es| >= 2 && half == |es| / 2
      ensures |es[..half]| < |es| && |es[half..]| < |es|
    {
    }

    lemma TypedHalves(es: seq<Entry>, half: nat, key: Row)
      requires half <= |es| && forall i :: 0 <= i < |es| ==> SameShape(es[i].key, key)
      ensures TypedPage(Leaf(es[..half], 0, 0), key) && TypedPage(Leaf(es[half..], 0, 0), key)
      ensures 0 < half ==> SameShape(MaxKey(es[..half]), key)
    {
    }

    /** What an insertion may assume: separate frames, a well-formed tree, page numbers to spare,
        and a key of the tree's shape. */
    ghost predicate Fit(key: Row)
      reads this, pages
    {
      Valid() && Numbered() && Inv(Capacities(), Content()) && Typed(Content(), key) && Storable(marshal.schema, key)
    }

    /** A leaf capacity with which splits stay inside their pages. */
    ghost predicate Splittable()
      reads this
    {
      LeafCapacity(marshal.schema) >= 2 && LeafCapacity(marshal.schema) % 2 == 0
    }

    ghost predicate Ready(key: Row)
      reads this, pages
    {
      Fit(key) && Splittable()
    }

    /** Inserts a key; false stands for the exception that a full root raises. Only an insertion
        into a full leaf splits. */
    method InsertKey(key: Row, rid: RowId) returns (ok: bool)
      requires Fit(key) && (|Content()[DescentPage(Content(), key)].es| >= LeafCapacity(marshal.schema) ==> Splittable())
      modifies this, pages
      ensures Valid() && old(pages) <= pages && forall i :: |old(pages)| <= i < |pages| ==> fresh(pages[i])
      ensures Inserted(Content(), ok) == Insert(Capacities(), old(Content()), key, rid)
      ensures Typed(Content(), key)
    {
      hide View, LeafSlots, LeafCapacity, InternalCapacity, SameShape, KeyLowerBound, Sorted, Separated, LeafInsert;
      hide LivePages, DescentIndex, Leaves, Filled;
      ghost var ps := Content();
      TypedInsert(Capacities(), ps, key, rid);
      DescentPageFilled(Capacities(), ps, key);
      var p, stack, indices := Descend(key);
      assert PageView(p) == ps[p] && TypedPage(ps[p], key);
      ok := InsertInLeaf(p, key, rid);
      if !ok {
        ok := InsertSplitting(p, stack, indices, key, rid);
      }
    }

    method InsertSplitting(p: int32, stack: seq<int32>, indices: seq<nat>, key: Row, rid: RowId) returns (ok: bool)
      requires Ready(key)
      requires p as int == DescentPage(Content(), key) && |PageView(p).es| == LeafCapacity(marshal.schema)
      requires if Root(Content()).Leaf? then stack == [] && indices == []
               else stack == [Content()[0].root] && indices == [DescentIndex(Content(), key) + 1]
      requires Sorted(PageView(p).es) && TypedPage(PageView(p), key)
      modifies this, pages
      ensures Valid() && old(pages) <= pages && forall i :: |old(pages)| <= i < |pages| ==> fresh(pages[i])
      ensures Inserted(Content(), ok) == Insert(Capacities(), old(Content()), key, rid)
    {
      hide View, LeafSlots, LeafCapacity, InternalCapacity, SameShape, KeyLowerBound, Sorted, Separated, SplitInsert, LivePages, DescentIndex;
      DescentSlot(Content(), key);
      if stack != [] {
        assert PageView(stack[0]) == Content()[stack[0]];
        ok := SplitUnderRoot(p, stack, indices, key, rid);
      } else {
        SplitRootLeaf(p, stack, indices, key, rid);
        ok := true;
      }
    }

    method SplitUnderRoot(p: int32, stack: seq<int32>, indices: seq<nat>, key: Row, rid: RowId) returns (ok: bool)
      requires Ready(key) && Root(Content()).Internal?
      requires p as int == DescentPage(Content(), key) && |PageView(p).es| == LeafCapacity(marshal.schema)
      requires stack == [Content()[0].root] && indices == [DescentIndex(Content(), key) + 1]
      requires ParentSlot(p, stack, indices) && Sorted(PageView(p).es) && TypedPage(PageView(p), key)
      modifies this, pages
      ensures Valid() && old(pages) <= pages && forall i :: |old(pages)| <= i < |pages| ==> fresh(pages[i])
      ensures Inserted(Content(), ok) == Insert(Capacities(), old(Content()), key, rid)
    {
      hide View, LeafSlots, LeafCapacity, InternalCapacity, SameShape, KeyLowerBound, Sorted, Separated, SplitInsert, LivePages, DescentIndex, Insert;
      ghost var ps := Content();
      InsertUnderRoot(Capacities(), ps, key, rid);
      var q := SplitAndInsert(p, stack, indices, key, rid);
      assert PageView(stack[0]) == ps[stack[0]];
      var maxLeft := GetLastKey(p);
      var maxRight := GetLastKey(q);
      ok := EnterHalves(stack[0], indices[0], maxLeft, maxRight, q);
    }

    method SplitRootLeaf(p: int32, stack: seq<int32>, indices: seq<nat>, key: Row, rid: RowId)
      requires Ready(key) && Root(Content()).Leaf? && stack == [] && indices == []
      requires p as int == Content()[0].root && |PageView(p).es| == LeafCapacity(marshal.schema)
      requires Sorted(PageView(p).es) && TypedPage(PageView(p), key)
      modifies this, pages
      ensures Valid() && old(pages) <= pages && forall i :: |old(pages)| <= i < |pages| ==> fresh(pages[i])
      ensures Inserted(Content(), true) == Insert(Capacities(), old(Content()), key, rid)
    {
      hide View, LeafSlots, LeafCapacity, InternalCapacity, SameShape, KeyLowerBound, Sorted, Separated, SplitInsert, LivePages, DescentIndex, Insert;
      ghost var ps := Content();
      InsertAtRoot(Capacities(), ps, key, rid);
      UsableKeys(marshal.schema);
      var q := SplitAndInsert(p, stack, indices, key, rid);
      var maxLeft := GetLastKey(p);
      var maxRight := GetLastKey(q);
      assert PageView(0) == ps[0];
      var left := GetRootPageIndex();
      GrowRoot(left, q, maxLeft, maxRight);
    }

    /** The page changes of an insertion that splits leaf p. */
    method SplitAndInsert(p: int32, stack: seq<int32>, indices: seq<nat>, key: Row, rid: RowId) returns (q: int32)
      requires Valid() && |pages| < 0x7fff_ffff && 0 <= p as int < |pages| && PageView(p).Leaf?
      requires ParentSlot(p, stack, indices)
      requires |PageView(p).es| == LeafCapacity(marshal.schema) >= 2 && LeafCapacity(marshal.schema) % 2 == 0
      requires Sorted(PageView(p).es) && TypedPage(PageView(p), key) && Storable(marshal.schema, key)
      modifies this, pages[p]
      ensures Valid() && q as int == |old(pages)| < |pages| && fresh(pages[q]) && pages == old(pages) + [pages[q]]
      ensures var leaf := old(PageView(p)); var halves := SplitInsert(leaf.es, key, rid);
              Content() == old(Content())[p := Leaf(halves.0, leaf.prev, q)] + [Leaf(halves.1, if stack == [] then 0 else p, leaf.next)]
    {
      hide View, LeafSlots, LeafCapacity, SameShape, Sorted, SplitInsert;
      ghost var was := Content();
      q := LinkNewLeaf(p, stack, indices);
      CutAndInsert(p, q, key, rid);
      ghost var halves := SplitInsert(was[p].es, key, rid);
      assert Content() == was[p := Leaf(halves.0, was[p].prev, q)] + [Leaf(halves.1, if stack == [] then 0 else p, was[p].next)];
    }

    /** Enters both halves of a split in the internal page that led to it; false if it is full. */
    method EnterHalves(root: nat, slot: nat, maxLeft: Row, maxRight: Row, q: int32) returns (ok: bool)
      requires Valid() && root < |pages| && PageView(root).Internal? && 0 < slot < |PageView(root).kids|
      requires |PageView(root).keys| == |PageView(root).kids| - 1
      requires Storable(marshal.schema, maxLeft) && Storable(marshal.schema, maxRight)
      modifies pages[root]
      ensures Valid() && (ok <==> |old(PageView(root)).kids| < InternalCapacity(marshal.schema))
      ensures var node := old(PageView(root)); var keys := node.keys[slot - 1 := maxLeft];
              Content() == old(Content())[root := if ok then Internal(InsertAt(node.kids, slot + 1, q), InsertAt(keys, slot, maxRight))
                                                  else Internal(node.kids, keys)]
    {
      hide View, InternalSlots, InternalHeader, InternalCapacity, InsertAt;
      SetSeparator(root, slot, maxLeft);
      ok := InsertInInternal(root, slot + 1, maxRight, q);
    }

    // ----- Removal -----

    /** Takes the emptied leaf p out of the chain. */
    method UnlinkLeaf(p: int32)
      requires Valid() && Linked(Content()) && 0 <= p as int < |pages| && PageView(p).Leaf?
      modifies pages
      ensures Valid() && Content() == Unlink(old(Content()), p)
    {
      hide View;
      ghost var ps := Content();
      assert PageView(p) == ps[p] && IsLink(ps, ps[p].prev) && IsLink(ps, ps[p].next);
      var next := GetNext(p);
      var prev := GetPrev(p);
      if prev != -1 {
        assert PageView(prev) == ps[prev];
        SetNext(prev, next);
      }
      if next != -1 {
        assert PageView(next) == Content()[next];
        SetPrev(next, prev);
      }
    }

    /** Removes key; true if it was there. */
    method RemoveKey(key: Row) returns (removed: bool)
      requires Valid() && |pages| < 0x7fff_ffff && Shaped(Content()) && Linked(Content()) && Typed(Content(), key)
      modifies this, pages
      ensures Valid() && old(pages) <= pages && forall i :: |old(pages)| <= i < |pages| ==> fresh(pages[i])
      ensures (Content(), removed) == Remove(old(Content()), key)
      ensures Typed(Content(), key)
    {
      hide View, LeafCapacity, InternalCapacity, SameShape, LivePages, DescentIndex, Remove, Linked;
      ghost var ps := Content();
      TypedRemove(ps, key);
      DescentSlot(ps, key);
      var p, stack, indices := Descend(key);
      assert PageView(p) == ps[p] && TypedPage(ps[p], key);
      removed := RemoveReached(p, stack, indices, key);
    }

    method RemoveReached(p: int32, stack: seq<int32>, indices: seq<nat>, key: Row) returns (removed: bool)
      requires Valid() && |pages| < 0x7fff_ffff && Shaped(Content()) && Linked(Content())
      requires p as int == DescentPage(Content(), key) && TypedPage(PageView(p), key)
      requires if Root(Content()).Leaf? then stack == []
               else stack == [Content()[0].root] && indices == [DescentIndex(Content(), key) + 1]
      modifies this, pages
      ensures Valid() && old(pages) <= pages && forall i :: |old(pages)| <= i < |pages| ==> fresh(pages[i])
      ensures (Content(), removed) == Remove(old(Content()), key)
    {
      hide View, LeafSlots, LeafCapacity, InternalCapacity, SameShape, LivePages, DescentIndex, FindKey, Remove, Linked;
      hide Unlink, KeySchema, TypedPage, RemoveAt;
      ghost var ps := Content();
      DescentSlot(ps, key);
      RemoveSpelled(ps, key);
      Steps.EmptiedLinked(ps, p);
      removed := RemoveFromLeaf(p, key);
      if !removed {
        return false;
      }
      if stack == [] {
        return true;
      }
      var size := GetLeafSize(p);
      if size == 0 {
        assert PageView(p).es == [];
        assert PageView(stack[0]) == ps[stack[0]] && PageView(0) == ps[0];
        RemoveLeaf(p, stack[0], indices[0]);
      }
      return true;
    }

    /** Removes a slot of the internal page root, and the slot left over if it is the only one;
        true if the page is then empty. */
    method RemoveSlot(root: nat, slot: nat) returns (emptied: bool)
      requires Valid() && root < |pages| && PageView(root).Internal? && 0 < slot < |PageView(root).kids|
      requires |PageView(root).keys| == |PageView(root).kids| - 1
      modifies pages[root]
      ensures Valid() && (emptied <==> |old(PageView(root)).kids| <= 2)
      ensures var node := old(PageView(root));
              Content() == old(Content())[root := if emptied then Internal([], [])
                                                  else Internal(RemoveAt(node.kids, slot), RemoveAt(node.keys, slot - 1))]
    {
      hide View, InternalCapacity;
      RemoveFromInternal(root, slot);
      var size := GetInternalSize(root);
      emptied := size <= 1;
      if size == 1 {
        RemoveFromInternal(root, 0);
      }
    }

    /** Starts again from a fresh empty root leaf. */
    method ResetRoot()
      requires Valid() && 0 < |pages| < 0x7fff_ffff && PageView(0).Metadata?
      modifies this, pages
      ensures Valid() && old(pages) <= pages && forall i :: |old(pages)| <= i < |pages| ==> fresh(pages[i])
      ensures Content() == old(Content())[0 := Metadata(|old(pages)|)] + [Leaf([], INVALID, INVALID)]
    {
      hide View;
      ghost var was := Content();
      var leaf := AllocateEmptyLeaf();
      assert PageView(0) == was[0];
      SetRootPageIndex(leaf);
      WriteSizes();
      assert Content() == was[0 := Metadata(leaf)] + [Leaf([], INVALID, INVALID)];
    }

    /** Drops the emptied leaf p from slot of the root; a root of one slot left is replaced by
        a fresh root leaf. */
    method RemoveLeaf(p: int32, root: int32, slot: nat)
      requires Valid() && 0 < |pages| < 0x7fff_ffff && Linked(Content()) && PageView(0).Metadata?
      requires 0 <= p as int < |pages| && 0 < root as int < |pages| && PageView(p).Leaf? && PageView(root).Internal?
      requires 0 < slot < |PageView(root).kids| && |PageView(root).keys| == |PageView(root).kids| - 1
      modifies this, pages
      ensures Valid() && old(pages) <= pages && forall i :: |old(pages)| <= i < |pages| ==> fresh(pages[i])
      ensures var ps := old(Content()); var node := ps[root]; var unlinked := Unlink(ps, p);
              Content() == if |node.kids| > 2 then unlinked[root := Internal(RemoveAt(node.kids, slot), RemoveAt(node.keys, slot - 1))]
                           else unlinked[root := Internal([], [])][0 := Metadata(|ps|)] + [Leaf([], INVALID, INVALID)]
    {
      hide View, Linked, InternalCapacity, LeafCapacity;
      ghost var ps := Content();
      UnlinkLeaf(p);
      UnlinkOthers(ps, p, root);
      UnlinkOthers(ps, p, 0);
      assert PageView(root) == Content()[root] && PageView(0) == Content()[0];
      var emptied := RemoveSlot(root, slot);
      if emptied {
        assert PageView(0) == Content()[0];
        ResetRoot();
      }
    }
  }

  /** Removal, spelled out page by page. */
  lemma RemoveSpelled(ps: seq<Page>, key: Row)
    requires Shaped(ps)
    ensures var p, slot, node := DescentPage(ps, key), DescentIndex(ps, key) + 1, Root(ps);
            var es := ps[p].es;
            var at := FindKey(es, key);
            var ps1 := if at < |es| then ps[p := ps[p].(es := RemoveAt(es, at))] else ps;
            Remove(ps, key) ==
            (if at == |es| || node.Leaf? || |es| > 1 then ps1
             else if |node.kids| > 2
             then Unlink(ps1, p)[ps[0].root := Internal(RemoveAt(node.kids, slot), RemoveAt(node.keys, slot - 1))]
             else Unlink(ps1, p)[ps[0].root := Internal([], [])][0 := Metadata(|ps|)] + [Leaf([], INVALID, INVALID)],
             at < |es|)
  {
  }

  lemma UnlinkOthers(ps: seq<Page>, p: int, q: int)
    requires IsLeafPage(ps, p) && 0 <= q < |ps| && !ps[q].Leaf?
    ensures Unlink(ps, p)[q] == ps[q]
  {
  }

  /** Insertion into a full root leaf, spelled out page by page. */
  lemma InsertAtRoot(cfg: Config, ps: seq<Page>, key: Row, rid: RowId)
    requires Shaped(ps) && Root(ps).Leaf? && |Root(ps).es| >= cfg.leafCap >= 2
    ensures var p := ps[0].root; var q := |ps|;
            var halves := SplitInsert(ps[p].es, key, rid);
            var split := ps[p := Leaf(halves.0, ps[p].prev, q)] + [Leaf(halves.1, 0, ps[p].next)];
            Insert(cfg, ps, key, rid) ==
            Inserted(split[p := Leaf(halves.0, INVALID, q)][q := Leaf(halves.1, p, INVALID)][0 := Metadata(|split|)]
                     + [GrownRoot(cfg, p, q, MaxKey(halves.0), MaxKey(halves.1))], true)
  {
  }

  /** Insertion into a full leaf under an internal root, spelled out page by page. */
  lemma InsertUnderRoot(cfg: Config, ps: seq<Page>, key: Row, rid: RowId)
    requires Shaped(ps) && Root(ps).Internal? && |ps[DescentPage(ps, key)].es| >= cfg.leafCap >= 2
    ensures var p, q, slot := DescentPage(ps, key), |ps|, DescentIndex(ps, key) + 1;
            var halves, node := SplitInsert(ps[p].es, key, rid), Root(ps);
            var keys := node.keys[slot - 1 := MaxKey(halves.0)];
            var split := ps[p := Leaf(halves.0, ps[p].prev, q)] + [Leaf(halves.1, p, ps[p].next)];
            var ok := |node.kids| < cfg.internalCap;
            Insert(cfg, ps, key, rid) ==
            Inserted(split[ps[0].root := if ok then Internal(InsertAt(node.kids, slot + 1, q), InsertAt(keys, slot, MaxKey(halves.1)))
                                         else Internal(node.kids, keys)], ok)
  {
  }

  lemma DescentPageFilled(cfg: Config, ps: seq<Page>, key: Row)
    requires Inv(cfg, ps)
    ensures var es := ps[DescentPage(ps, key)].es; |es| <= cfg.leafCap && Sorted(es)
  {
    assert ps[DescentPage(ps, key)].es == Leaves(ps)[DescentIndex(ps, key)];
  }

  // ----- Shapes are kept -----

  lemma TypedLeafInsert(es: seq<Entry>, key: Row, rid: RowId)
    requires TypedPage(Leaf(es, 0, 0), key)
    ensures TypedPage(Leaf(LeafInsert(es, key, rid), 0, 0), key)
  {
  }

  lemma TypedSplitInsert(es: seq<Entry>, key: Row, rid: RowId)
    requires TypedPage(Leaf(es, 0, 0), key) && |es| >= 2
    ensures var halves := SplitInsert(es, key, rid);
            TypedPage(Leaf(halves.0, 0, 0), key) && TypedPage(Leaf(halves.1, 0, 0), key) &&
            SameShape(MaxKey(halves.0), key) && SameShape(MaxKey(halves.1), key)
  {
    var half := |es| / 2;
    TypedLeafInsert(es[..half], key, rid);
    TypedLeafInsert(es[half..], key, rid);
  }

  lemma TypedSeparators(keys: seq<Row>, i: nat, a: Row, b: Row, key: Row)
    requires i < |keys| && TypedPage(Internal([], keys), key) && SameShape(a, key) && SameShape(b, key)
    ensures TypedPage(Internal([], keys[i := a]), key) && TypedPage(Internal([], InsertAt(keys[i := a], i + 1, b)), key)
  {
  }

  lemma TypedInsert(cfg: Config, ps: seq<Page>, key: Row, rid: RowId)
    requires Shaped(ps) && Insertable(cfg, ps, key) && Typed(ps, key)
    ensures Typed(Insert(cfg, ps, key, rid).pages, key)
  {
    hide SameShape, LeafInsert, SplitInsert, LivePages, DescentIndex;
    var p, ps1 := DescentPage(ps, key), Insert(cfg, ps, key, rid).pages;
    assert TypedPage(ps[p], key) && TypedPage(Root(ps), key);
    TypedLeafInsert(ps[p].es, key, rid);
    if |ps[p].es| >= cfg.leafCap {
      TypedSplitInsert(ps[p].es, key, rid);
      var halves := SplitInsert(ps[p].es, key, rid);
      if Root(ps).Internal? {
        DescentSlot(ps, key);
        TypedSeparators(Root(ps).keys, DescentIndex(ps, key), MaxKey(halves.0), MaxKey(halves.1), key);
      }
    }
  }

  lemma TypedRemoveAt(page: Page, at: nat, key: Row)
    requires TypedPage(page, key)
    ensures page.Leaf? && at < |page.es| ==> TypedPage(page.(es := RemoveAt(page.es, at)), key)
    ensures page.Internal? && at < |page.keys| ==> TypedPage(page.(keys := RemoveAt(page.keys, at)), key)
  {
  }

  lemma TypedUnlink(ps: seq<Page>, p: int, key: Row)
    requires Typed(ps, key) && IsLeafPage(ps, p)
    ensures Typed(Unlink(ps, p), key)
  {
    var ps1 := Unlink(ps, p);
    forall q | 0 <= q < |ps1| ensures TypedPage(ps1[q], key) {
      assert TypedPage(ps[q], key);
    }
  }

  lemma TypedRemove(ps: seq<Page>, key: Row)
    requires Shaped(ps) && Typed(ps, key)
    ensures Typed(Remove(ps, key).0, key)
  {
    hide SameShape, LivePages, DescentIndex, FindKey, Unlink;
    var p, es := DescentPage(ps, key), ps[DescentPage(ps, key)].es;
    assert TypedPage(ps[p], key) && TypedPage(Root(ps), key);
    if FindKey(es, key) < |es| {
      TypedRemoveAt(ps[p], FindKey(es, key), key);
      TypedUnlink(ps[p := ps[p].(es := RemoveAt(es, FindKey(es, key)))], p, key);
      if Root(ps).Internal? {
        DescentSlot(ps, key);
        TypedRemoveAt(Root(ps), DescentIndex(ps, key), key);
      }
    }
  }
}
