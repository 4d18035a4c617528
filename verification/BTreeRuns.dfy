/** The index tree over whole runs: any sequence of insertions and removals is a plain map. */
module BTreeRuns {
  import opened Rows
  import opened Comparator
  import opened BTreeModel
  import opened BTreeMap
  import opened BTreeSteps

  /** What the pages store, as a plain map. */
  ghost function Contents(ps: seq<Page>): map<Row, RowId>
    requires Shaped(ps)
  {
    ToMap(AllEntries(ps))
  }

  /** The one case in which an insertion throws: the leaf and the root above it are full. */
  ghost predicate NoRoom(cfg: Config, ps: seq<Page>, k: Row)
    requires Shaped(ps)
  {
    |ps[DescentPage(ps, k)].es| >= cfg.leafCap && Root(ps).Internal? && |Root(ps).kids| >= cfg.internalCap
  }

  /** The two cases in which an insertion loses the upper half of the leaf it cuts: the one that
      throws, and the growth of a root in which the upper half finds no room. */
  ghost predicate Loses(cfg: Config, ps: seq<Page>, k: Row)
    requires Shaped(ps)
  {
    |ps[DescentPage(ps, k)].es| >= cfg.leafCap &&
    if Root(ps).Leaf? then cfg.internalCap < 3 else |Root(ps).kids| >= cfg.internalCap
  }

  /** Insertion of an absent key: it throws exactly when there is no room, and it is the update of
      the plain map exactly when nothing is lost; in all cases the separators stay right. */
  lemma InsertCorrect(cfg: Config, ps: seq<Page>, k: Row, rid: RowId)
    requires Inv(cfg, ps) && Usable(cfg) && k !in Contents(ps)
    ensures var r := Insert(cfg, ps, k, rid);
            Inv(cfg, r.pages) && (r.ok <==> !NoRoom(cfg, ps, k)) &&
            (Contents(r.pages) == Contents(ps)[k := rid] <==> !Loses(cfg, ps, k))
  {
    if Loses(cfg, ps, k) {
      LosesUpperHalf(cfg, ps, k, rid);
    } else {
      InsertKeeps(cfg, ps, k, rid);
    }
  }

  lemma InsertKeeps(cfg: Config, ps: seq<Page>, k: Row, rid: RowId)
    requires Inv(cfg, ps) && Usable(cfg) && k !in Contents(ps) && !Loses(cfg, ps, k)
    ensures var r := Insert(cfg, ps, k, rid);
            Inv(cfg, r.pages) && r.ok && Contents(r.pages) == Contents(ps)[k := rid]
  {
    AllEntriesSorted(cfg, ps);
    LeafInsertIsUpdate(AllEntries(ps), k, rid);
    DescentFilled(cfg, ps, k);
    if |ps[DescentPage(ps, k)].es| < cfg.leafCap {
      InsertFits(cfg, ps, k, rid);
    } else if Root(ps).Leaf? {
      InsertGrows(cfg, ps, k, rid);
    } else {
      InsertSplits(cfg, ps, k, rid);
    }
  }

  /** What is lost is the upper half of the leaf that was cut, and nothing else; the insertion
      throws unless it was the root leaf. */
  lemma LosesUpperHalf(cfg: Config, ps: seq<Page>, k: Row, rid: RowId)
    requires Inv(cfg, ps) && Usable(cfg) && k !in Contents(ps) && Loses(cfg, ps, k)
    ensures Inv(cfg, Insert(cfg, ps, k, rid).pages) && (Insert(cfg, ps, k, rid).ok <==> Root(ps).Leaf?)
    ensures var right := SplitInsert(ps[DescentPage(ps, k)].es, k, rid).1;
            right != [] &&
            Contents(Insert(cfg, ps, k, rid).pages) == Contents(ps)[k := rid] - ToMap(right).Keys &&
            Contents(Insert(cfg, ps, k, rid).pages) != Contents(ps)[k := rid]
  {
    var right := SplitInsert(ps[DescentPage(ps, k)].es, k, rid).1;
    DescentFilled(cfg, ps, k);
    if Root(ps).Leaf? {
      GrowthLosesUpperHalf(cfg, ps, k, rid);
    } else {
      InsertThrows(cfg, ps, k, rid);
      ThrowLosesUpperHalf(cfg, ps, k, rid);
    }
    UpperHalfStored(cfg, ps, k, rid);
  }

  /** The keys of the upper half are keys of the updated map. */
  lemma UpperHalfStored(cfg: Config, ps: seq<Page>, k: Row, rid: RowId)
    requires Inv(cfg, ps) && Usable(cfg) && k !in Contents(ps) && |ps[DescentPage(ps, k)].es| >= 2
    ensures var right := SplitInsert(ps[DescentPage(ps, k)].es, k, rid).1;
            right != [] && right[0].key in ToMap(right) && right[0].key in Contents(ps)[k := rid]
  {
    var es := ps[DescentPage(ps, k)].es;
    var right := SplitInsert(es, k, rid).1;
    ToMapKeys(right, right[0].key);
    if right[0].key != k {
      UpperEntry(es, k, rid);
      DescentSplits(cfg, ps, k);
      var all := AllEntries(ps);
      var j :| 0 <= j < |es| && es[j].key == right[0].key;
      assert all[|Prefix(ps, k)| + j] == es[j];
      ToMapKeys(all, right[0].key);
    }
  }

  lemma UpperEntry(es: seq<Entry>, k: Row, rid: RowId)
    requires |es| >= 2 && SplitInsert(es, k, rid).1[0].key != k
    ensures exists j :: 0 <= j < |es| && es[j].key == SplitInsert(es, k, rid).1[0].key
  {
    var half := |es| / 2;
    var right := SplitInsert(es, k, rid).1;
    if Less(es[..half][half - 1].key, k) {
      assert right[0] == es[half..][0] == es[half];
    } else {
      assert right[0] == es[half];
    }
  }

  /** The growth of a root with two slots returns normally and loses the upper half. */
  lemma GrowthLosesUpperHalf(cfg: Config, ps: seq<Page>, k: Row, rid: RowId)
    requires Inv(cfg, ps) && Usable(cfg) && k !in Contents(ps) && Loses(cfg, ps, k) && Root(ps).Leaf?
    ensures Inv(cfg, Insert(cfg, ps, k, rid).pages) && Insert(cfg, ps, k, rid).ok && |ps[DescentPage(ps, k)].es| >= 2
    ensures var right := SplitInsert(ps[DescentPage(ps, k)].es, k, rid).1;
            right != [] &&
            Contents(Insert(cfg, ps, k, rid).pages) == Contents(ps)[k := rid] - ToMap(right).Keys
  {
    hide Insert, LeafInsert, SplitInsert, ToMap, Sorted, Inv, AllEntries;
    assert Shaped(ps) by {
      ShapedInv(cfg, ps);
    }
    var (left, right) := SplitInsert(ps[DescentPage(ps, k)].es, k, rid);
    DescentFilled(cfg, ps, k);
    InsertGrowsShort(cfg, ps, k, rid);
    AllEntriesSorted(cfg, ps);
    LeafInsertIsUpdate(AllEntries(ps), k, rid);
    DropUpper(left, right);
  }

  lemma ShapedInv(cfg: Config, ps: seq<Page>)
    requires Inv(cfg, ps)
    ensures Shaped(ps)
  {
  }

  lemma DropUpper(left: seq<Entry>, right: seq<Entry>)
    requires Sorted(left + right)
    ensures ToMap(left) == ToMap(left + right) - ToMap(right).Keys
  {
    hide Sorted, ToMap;
    NothingAround(left);
    NothingAround(left + right);
    DropRight([], left, right, []);
  }

  lemma NothingAround<T>(m: seq<T>)
    ensures [] + m + [] == m
  {
  }

  /** An insertion that throws loses the upper half of the leaf it cut, and nothing else. */
  lemma ThrowLosesUpperHalf(cfg: Config, ps: seq<Page>, k: Row, rid: RowId)
    requires Inv(cfg, ps) && Usable(cfg) && k !in Contents(ps) && NoRoom(cfg, ps, k)
    ensures Shaped(Insert(cfg, ps, k, rid).pages) && |ps[DescentPage(ps, k)].es| >= 2
    ensures var right := SplitInsert(ps[DescentPage(ps, k)].es, k, rid).1;
            right != [] &&
            Contents(Insert(cfg, ps, k, rid).pages) == Contents(ps)[k := rid] - ToMap(right).Keys
  {
    var (left, right) := SplitInsert(ps[DescentPage(ps, k)].es, k, rid);
    DescentFilled(cfg, ps, k);
    InsertThrows(cfg, ps, k, rid);
    AllEntriesSorted(cfg, ps);
    LeafInsertIsUpdate(AllEntries(ps), k, rid);
    DropRight(Prefix(ps, k), left, right, Suffix(ps, k));
  }

  lemma DescentFilled(cfg: Config, ps: seq<Page>, k: Row)
    requires Inv(cfg, ps)
    ensures |ps[DescentPage(ps, k)].es| <= cfg.leafCap
  {
    assert ps[DescentPage(ps, k)].es == Leaves(ps)[DescentIndex(ps, k)];
  }

  lemma AbsentBeside(a: seq<Entry>, b: seq<Entry>, c: seq<Entry>, i: nat)
    requires Sorted(a + b + c) && i < |b|
    ensures b[i].key !in ToMap(a) && b[i].key !in ToMap(c)
  {
    var all, k, n := a + b + c, b[i].key, |a| + i;
    ToMapKeys(a, k);
    ToMapKeys(c, k);
    forall j | 0 <= j < |all| && j != n ensures all[j].key != k {
      LessTotal(all[j].key, all[n].key);
      LessTotal(all[n].key, all[j].key);
    }
    assert forall j :: 0 <= j < |a| ==> a[j] == all[j];
    assert forall j :: 0 <= j < |c| ==> c[j] == all[|a| + |b| + j];
  }

  lemma DropMiddle(a: seq<Entry>, b: seq<Entry>, c: seq<Entry>)
    requires Sorted(a + b + c)
    ensures ToMap(a + c) == ToMap(a + b + c) - ToMap(b).Keys
  {
    forall k | k in ToMap(b) ensures k !in ToMap(a) && k !in ToMap(c) {
      ToMapKeys(b, k);
      var i :| 0 <= i < |b| && b[i].key == k;
      AbsentBeside(a, b, c, i);
    }
    ToMapConcat(a, c);
    ToMapConcat(a + b, c);
    ToMapConcat(a, b);
  }

  lemma DropRight(p: seq<Entry>, left: seq<Entry>, right: seq<Entry>, s: seq<Entry>)
    requires Sorted(p + (left + right) + s)
    ensures ToMap(p + left + s) == ToMap(p + (left + right) + s) - ToMap(right).Keys
  {
    assert p + (left + right) + s == (p + left) + right + s;
    DropMiddle(p + left, right, s);
  }

  /** Removal: true exactly when the key was present, and then the plain map without it. */
  lemma RemoveCorrect(cfg: Config, ps: seq<Page>, k: Row)
    requires Inv(cfg, ps)
    ensures var (ps1, removed) := Remove(ps, k);
            Inv(cfg, ps1) && (removed <==> k in Contents(ps)) && Contents(ps1) == Contents(ps) - {k}
  {
    var all := AllEntries(ps);
    AllEntriesSorted(cfg, ps);
    RemoveOnList(cfg, ps, k);
    FindKeyFinds(all, k);
    if k in ToMap(all) {
      RemoveAtIsErase(all, FindKey(all, k));
    }
  }

  // ----- Runs -----

  datatype Operation = InsertOp(key: Row, rid: RowId) | RemoveOp(key: Row)

  /** The pages of a fresh index: metadata and one empty root leaf. */
  function FreshPages(): seq<Page> {
    [Metadata(1), Leaf([], INVALID, INVALID)]
  }

  ghost function Step(cfg: Config, ps: seq<Page>, op: Operation): seq<Page>
    requires Shaped(ps) && Usable(cfg)
  {
    match op
    case InsertOp(k, rid) => Insert(cfg, ps, k, rid).pages
    case RemoveOp(k) => Remove(ps, k).0
  }

  /** The caller inserts absent keys only, and the insertion loses nothing. */
  ghost predicate Allowed(cfg: Config, ps: seq<Page>, op: Operation)
    requires Shaped(ps)
  {
    op.InsertOp? ==> op.key !in Contents(ps) && !Loses(cfg, ps, op.key)
  }

  ghost function MapStep(m: map<Row, RowId>, op: Operation): map<Row, RowId> {
    match op
    case InsertOp(k, rid) => m[k := rid]
    case RemoveOp(k) => m - {k}
  }

  ghost function MapRun(m: map<Row, RowId>, ops: seq<Operation>): map<Row, RowId>
    decreases |ops|
  {
    if ops == [] then m else MapRun(MapStep(m, ops[0]), ops[1..])
  }

  /** ps1 is what some allowed run of ops leaves of ps. */
  ghost predicate RunsTo(cfg: Config, ps: seq<Page>, ops: seq<Operation>, ps1: seq<Page>)
    requires Usable(cfg)
    decreases |ops|
  {
    if ops == [] then ps1 == ps
    else Shaped(ps) && Allowed(cfg, ps, ops[0]) && RunsTo(cfg, Step(cfg, ps, ops[0]), ops[1..], ps1)
  }

  lemma StepCorrect(cfg: Config, ps: seq<Page>, op: Operation)
    requires Inv(cfg, ps) && Usable(cfg) && Allowed(cfg, ps, op)
    ensures Inv(cfg, Step(cfg, ps, op)) && Contents(Step(cfg, ps, op)) == MapStep(Contents(ps), op)
  {
    if op.InsertOp? {
      InsertCorrect(cfg, ps, op.key, op.rid);
    } else {
      RemoveCorrect(cfg, ps, op.key);
    }
  }

  lemma {:induction false} RunCorrect(cfg: Config, ps: seq<Page>, ops: seq<Operation>, ps1: seq<Page>)
    requires Usable(cfg) && Inv(cfg, ps) && RunsTo(cfg, ps, ops, ps1)
    ensures Inv(cfg, ps1) && Contents(ps1) == MapRun(Contents(ps), ops)
    decreases |ops|
  {
    if ops != [] {
      StepCorrect(cfg, ps, ops[0]);
      RunCorrect(cfg, Step(cfg, ps, ops[0]), ops[1..], ps1);
    }
  }

  lemma FreshInv(cfg: Config)
    ensures Inv(cfg, FreshPages()) && Contents(FreshPages()) == map[]
  {
    AllEntriesOfRootLeaf(FreshPages());
  }

  /** After any allowed run on a fresh index, lookup answers every key as a plain map does,
      and a removal reports success exactly for the keys of that map. */
  lemma RunIsMap(cfg: Config, ops: seq<Operation>, ps: seq<Page>, k: Row)
    requires Usable(cfg) && RunsTo(cfg, FreshPages(), ops, ps)
    ensures Inv(cfg, ps)
    ensures var m := MapRun(map[], ops);
            Lookup(ps, k) == (if k in m then Some(m[k]) else None) && (Remove(ps, k).1 <==> k in m)
  {
    FreshInv(cfg);
    RunCorrect(cfg, FreshPages(), ops, ps);
    LookupCorrect(cfg, ps, k);
    RemoveCorrect(cfg, ps, k);
  }
}
