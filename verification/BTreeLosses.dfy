/** Trees of three keys on which a removal loses the scan and an insertion loses keys. */
module BTreeLosses {
  import opened Rows
  import opened Comparator
  import opened Schemas
  import opened Marshal
  import opened Slots
  import opened BTreeModel
  import opened BTreeMap
  import opened BTreeSteps
  import opened BTreeRuns
  import opened BTreeScan
  import opened BTreePage

  // ----- A run that loses the scan -----

  /** Keys of the following schema: one letter in a varchar of 1345 bytes. */
  function LetterKey(n: byte): Row {
    [Str([n])]
  }

  const LONG_KEY: Schema := [Column([], Varchar, 1345)]

  lemma OneColumnSpace(length: uint32)
    ensures FixedSpace([Column([], Varchar, length)]) == 8 + length as nat
  {
    var schema := [Column([], Varchar, length)];
    assert schema[1..] == [];
    assert FixedColumns(schema, 0) == length + FixedColumns([], 0);
  }

  /** With such keys the program has two entries to a leaf and three slots to an internal page. */
  lemma LongKeyCapacities()
    ensures KeySchema(LONG_KEY) && LeafCapacity(LONG_KEY) == 2 && InternalCapacity(LONG_KEY) == 3
    ensures forall n: byte :: n != 0 ==> Storable(LONG_KEY, LetterKey(n))
  {
    OneColumnSpace(1345);
  }

  lemma LetterKeysAscend(m: byte, n: byte)
    requires m < n
    ensures Less(LetterKey(m), LetterKey(n)) && !Less(LetterKey(n), LetterKey(m))
  {
    LessTotal(LetterKey(m), LetterKey(n));
  }

  /** With two entries a leaf: inserting a, b and c splits the root leaf into a and b, c. */
  ghost function ThreeKeys(rid: RowId): seq<Page> {
    [Metadata(3),
     Leaf([Entry(LetterKey(97), rid)], INVALID, 2),
     Leaf([Entry(LetterKey(98), rid), Entry(LetterKey(99), rid)], 1, INVALID),
     Internal([1, 1, 2], [LetterKey(97), LetterKey(99)])]
  }

  /** An insertion above everything in a root leaf. */
  lemma InsertLast(es: seq<Entry>, e: Entry)
    requires AllBelow(es, e.key)
    ensures LeafInsert(es, e.key, e.rid) == es + [e] && e.key !in ToMap(es)
  {
    LowerBoundUnique(es, e.key, |es|);
    LessTotal(e.key, e.key);
    ToMapKeys(es, e.key);
  }

  lemma StepLast(cfg: Config, es: seq<Entry>, e: Entry)
    requires Usable(cfg) && |es| < cfg.leafCap && AllBelow(es, e.key)
    ensures var ps := [Metadata(1), Leaf(es, INVALID, INVALID)];
            var op := InsertOp(e.key, e.rid);
            Shaped(ps) && ScanStep(cfg, ps, op) && Step(cfg, ps, op) == [Metadata(1), Leaf(es + [e], INVALID, INVALID)]
  {
    var ps := [Metadata(1), Leaf(es, INVALID, INVALID)];
    AllEntriesOfRootLeaf(ps);
    InsertLast(es, e);
  }

  lemma StepThird(rid: RowId)
    ensures var es := [Entry(LetterKey(97), rid), Entry(LetterKey(98), rid)];
            var ps := [Metadata(1), Leaf(es, INVALID, INVALID)];
            var op := InsertOp(LetterKey(99), rid);
            Shaped(ps) && ScanStep(Config(2, 3), ps, op) && Step(Config(2, 3), ps, op) == ThreeKeys(rid)
  {
    var e1, e2, e3 := Entry(LetterKey(97), rid), Entry(LetterKey(98), rid), Entry(LetterKey(99), rid);
    var es := [e1, e2];
    AllEntriesOfRootLeaf([Metadata(1), Leaf(es, INVALID, INVALID)]);
    LetterKeysAscend(97, 99);
    LetterKeysAscend(98, 99);
    InsertLast(es, e3);
    InsertLast([e2], e3);
    assert |es| / 2 == 1 && es[..1] == [e1] && es[1..] == [e2];
    assert [e2] + [e3] == [e2, e3] && [e1][0] == e1;
    assert SplitInsert(es, e3.key, rid) == ([e1], [e2, e3]);
  }

  lemma OneKeyReached(rid: RowId)
    ensures ScanRun(Config(2, 3), FreshPages(), [InsertOp(LetterKey(97), rid)],
                    [Metadata(1), Leaf([Entry(LetterKey(97), rid)], INVALID, INVALID)])
  {
    var e1 := Entry(LetterKey(97), rid);
    StepLast(Config(2, 3), [], e1);
    assert [] + [e1] == [e1];
    ScanRunExtend(Config(2, 3), FreshPages(), [], FreshPages(), InsertOp(e1.key, rid));
    assert [] + [InsertOp(e1.key, rid)] == [InsertOp(e1.key, rid)];
  }

  lemma TwoKeysReached(rid: RowId)
    ensures ScanRun(Config(2, 3), FreshPages(), [InsertOp(LetterKey(97), rid), InsertOp(LetterKey(98), rid)],
                    [Metadata(1), Leaf([Entry(LetterKey(97), rid), Entry(LetterKey(98), rid)], INVALID, INVALID)])
  {
    hide Less, Step, ScanStep;
    var e1, e2 := Entry(LetterKey(97), rid), Entry(LetterKey(98), rid);
    var op1, op2 := InsertOp(e1.key, rid), InsertOp(e2.key, rid);
    OneKeyReached(rid);
    LetterKeysAscend(97, 98);
    StepLast(Config(2, 3), [e1], e2);
    assert [e1] + [e2] == [e1, e2];
    ScanRunExtend(Config(2, 3), FreshPages(), [op1], [Metadata(1), Leaf([e1], INVALID, INVALID)], op2);
    assert [op1] + [op2] == [op1, op2];
  }

  lemma ThreeKeysReached(rid: RowId)
    ensures var ops := [InsertOp(LetterKey(97), rid), InsertOp(LetterKey(98), rid), InsertOp(LetterKey(99), rid)];
            ScanRun(Config(2, 3), FreshPages(), ops, ThreeKeys(rid))
  {
    var e1, e2 := Entry(LetterKey(97), rid), Entry(LetterKey(98), rid);
    var op1, op2, op3 := InsertOp(e1.key, rid), InsertOp(e2.key, rid), InsertOp(LetterKey(99), rid);
    TwoKeysReached(rid);
    StepThird(rid);
    ScanRunExtend(Config(2, 3), FreshPages(), [op1, op2], [Metadata(1), Leaf([e1, e2], INVALID, INVALID)], op3);
    assert [op1, op2] + [op3] == [op1, op2, op3];
  }

  lemma ThreeKeysInv(rid: RowId)
    ensures Inv(Config(2, 3), ThreeKeys(rid)) && ScanInv(ThreeKeys(rid))
  {
    ThreeKeysReached(rid);
    FreshInv(Config(2, 3));
    var ops := [InsertOp(LetterKey(97), rid), InsertOp(LetterKey(98), rid), InsertOp(LetterKey(99), rid)];
    ScanRunKeeps(Config(2, 3), FreshPages(), ops, ThreeKeys(rid));
  }

  lemma {:induction false} ScanRunExtend(cfg: Config, ps: seq<Page>, ops: seq<Operation>, mid: seq<Page>, op: Operation)
    requires Usable(cfg) && ScanRun(cfg, ps, ops, mid) && Shaped(mid) && ScanStep(cfg, mid, op)
    ensures ScanRun(cfg, ps, ops + [op], Step(cfg, mid, op))
    decreases |ops|
  {
    hide Less, Step, ScanStep;
    if ops == [] {
      assert ([] + [op])[1..] == [];
    } else {
      ScanRunExtend(cfg, Step(cfg, ps, ops[0]), ops[1..], mid, op);
      assert (ops + [op])[1..] == ops[1..] + [op];
    }
  }

  /** Removing a then leaves b and c to lookup but not to the scan. */
  lemma ScanLost(rid: RowId)
    ensures var ps := ThreeKeys(rid);
            Config(LeafCapacity(LONG_KEY), InternalCapacity(LONG_KEY)) == Config(2, 3) &&
            Inv(Config(2, 3), ps) && ScanInv(ps) && Shaped(Remove(ps, LetterKey(97)).0) &&
            !ScanComplete(Remove(ps, LetterKey(97)).0)
  {
    var ps := ThreeKeys(rid);
    LongKeyCapacities();
    ThreeKeysInv(rid);
    LetterKeysAscend(97, 99);
    LessTotal(LetterKey(97), LetterKey(97));
    assert DescentIndex(ps, LetterKey(97)) == 0;
    RemoveScan(Config(2, 3), ps, LetterKey(97));
  }

  // ----- An insertion that loses two of three keys -----

  const LONGER_KEY: Schema := [Column([], Varchar, 1351)]

  /** With two entries to a leaf and two slots to an internal page, the third insertion returns
      normally and leaves the first key alone to lookups. */
  lemma KeysLost(rid: RowId)
    ensures var ps := [Metadata(1), Leaf([Entry(LetterKey(97), rid), Entry(LetterKey(98), rid)], INVALID, INVALID)];
            Config(LeafCapacity(LONGER_KEY), InternalCapacity(LONGER_KEY)) == Config(2, 2) && Shaped(ps) &&
            var r := Insert(Config(2, 2), ps, LetterKey(99), rid);
            r.ok && Shaped(r.pages) && Contents(r.pages) == map[LetterKey(97) := rid]
  {
    OneColumnSpace(1351);
    UsableKeys(LONGER_KEY);
    var e1, e2, e3 := Entry(LetterKey(97), rid), Entry(LetterKey(98), rid), Entry(LetterKey(99), rid);
    var es := [e1, e2];
    var ps := [Metadata(1), Leaf(es, INVALID, INVALID)];
    TwoLettersInv(rid);
    LetterKeysAscend(97, 99);
    LetterKeysAscend(98, 99);
    AllEntriesOfRootLeaf(ps);
    InsertLast(es, e3);
    InsertGrowsShort(Config(2, 2), ps, e3.key, rid);
    assert es[..1] == [e1] && es[..1][0] == e1;
    assert SplitInsert(es, e3.key, rid).0 == [e1];
    assert ToMap([e1]) == map[e1.key := rid] by {
      assert [e1][1..] == [];
    }
  }

  lemma TwoLettersInv(rid: RowId)
    ensures var ps := [Metadata(1), Leaf([Entry(LetterKey(97), rid), Entry(LetterKey(98), rid)], INVALID, INVALID)];
            Inv(Config(2, 2), ps)
  {
    LetterKeysAscend(97, 98);
    var es := [Entry(LetterKey(97), rid), Entry(LetterKey(98), rid)];
    AllEntriesOfRootLeaf([Metadata(1), Leaf(es, INVALID, INVALID)]);
  }
}
