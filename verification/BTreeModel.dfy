/** The index tree over page values (lib/sql/btree.cpp): what the pages say once their bytes
    are decoded, and the four operations as functions on them. */
module BTreeModel {
  import opened Rows
  import opened Seqs
  import opened Comparator

  datatype Entry = Entry(key: Row, rid: RowId)

  /** A decoded index page. An internal page of n slots has n children and the n - 1 keys of
      slots 1 .. n - 1; the key of slot 0 is never read. */
  datatype Page =
    | Other
    | Metadata(root: int)
    | Internal(kids: seq<int>, keys: seq<Row>)
    | Leaf(es: seq<Entry>, prev: int, next: int)

  const INVALID: int := -1

  /** How many entries a leaf and an internal page hold. */
  datatype Config = Config(leafCap: nat, internalCap: nat)

  // ----- Searching one page -----

  function LowerBound(es: seq<Entry>, k: Row): (n: nat)
    ensures n <= |es|
    ensures forall j :: 0 <= j < n ==> Less(es[j].key, k)
    ensures n < |es| ==> !Less(es[n].key, k)
  {
    if es == [] || !Less(es[0].key, k) then 0 else 1 + LowerBound(es[1..], k)
  }

  lemma LowerBoundUnique(es: seq<Entry>, k: Row, n: nat)
    requires n <= |es|
    requires forall j :: 0 <= j < n ==> Less(es[j].key, k)
    requires n < |es| ==> !Less(es[n].key, k)
    ensures n == LowerBound(es, k)
  {
  }

  function KeyLowerBound(keys: seq<Row>, k: Row): (n: nat)
    ensures n <= |keys|
    ensures forall j :: 0 <= j < n ==> Less(keys[j], k)
    ensures n < |keys| ==> !Less(keys[n], k)
  {
    if keys == [] || !Less(keys[0], k) then 0 else 1 + KeyLowerBound(keys[1..], k)
  }

  /** Index of the first entry with key k, |es| if there is none. */
  function FindKey(es: seq<Entry>, k: Row): (n: nat)
    ensures n <= |es|
    ensures forall j :: 0 <= j < n ==> es[j].key != k
    ensures n < |es| ==> es[n].key == k
  {
    if es == [] || es[0].key == k then 0 else 1 + FindKey(es[1..], k)
  }

  // ----- The shape of a tree -----

  predicate IsLeafPage(ps: seq<Page>, p: int) {
    0 <= p < |ps| && ps[p].Leaf?
  }

  /** Page 0 is the metadata page; the root is a leaf, or an internal page whose children are
      leaves, distinct from slot 1 on. */
  ghost predicate Shaped(ps: seq<Page>) {
    |ps| >= 2 && ps[0].Metadata? && 0 <= ps[0].root < |ps| &&
    match ps[ps[0].root]
    case Leaf(_, _, _) => true
    case Internal(kids, keys) =>
      |kids| >= 2 && |keys| == |kids| - 1 && Distinct(kids[1..]) &&
      forall i :: 0 <= i < |kids| ==> IsLeafPage(ps, kids[i])
    case _ => false
  }

  ghost function Root(ps: seq<Page>): Page
    requires Shaped(ps)
  {
    ps[ps[0].root]
  }

  /** The pages of the leaves, in slot order. */
  ghost function LivePages(ps: seq<Page>): (live: seq<int>)
    requires Shaped(ps)
    ensures |live| >= 1 && Distinct(live)
    ensures forall i :: 0 <= i < |live| ==> IsLeafPage(ps, live[i])
  {
    if Root(ps).Leaf? then [ps[0].root] else Root(ps).kids[1..]
  }

  ghost function Leaves(ps: seq<Page>): (ls: seq<seq<Entry>>)
    requires Shaped(ps)
    ensures |ls| == |LivePages(ps)|
    ensures forall i :: 0 <= i < |ls| ==> ls[i] == ps[LivePages(ps)[i]].es
  {
    var live := LivePages(ps);
    seq(|live|, i requires 0 <= i < |live| => ps[live[i]].es)
  }

  /** Everything the tree stores, leaf after leaf. */
  ghost function AllEntries(ps: seq<Page>): seq<Entry>
    requires Shaped(ps)
  {
    Flatten(Leaves(ps))
  }

  // ----- The operations -----

  /** The position, among the live leaves, of the leaf that the descent for k reaches. */
  ghost function DescentIndex(ps: seq<Page>, k: Row): (i: nat)
    requires Shaped(ps)
    ensures i < |LivePages(ps)|
  {
    if Root(ps).Leaf? then 0
    else
      var lb := KeyLowerBound(Root(ps).keys, k);
      if lb == |Root(ps).keys| then lb - 1 else lb
  }

  ghost function DescentPage(ps: seq<Page>, k: Row): (p: int)
    requires Shaped(ps)
    ensures IsLeafPage(ps, p)
  {
    LivePages(ps)[DescentIndex(ps, k)]
  }

  ghost function Lookup(ps: seq<Page>, k: Row): Option<RowId>
    requires Shaped(ps)
  {
    var es := ps[DescentPage(ps, k)].es;
    var i := LowerBound(es, k);
    if i < |es| && es[i].key == k then Some(es[i].rid) else None
  }

  function LeafInsert(es: seq<Entry>, k: Row, rid: RowId): seq<Entry> {
    InsertAt(es, LowerBound(es, k), Entry(k, rid))
  }

  /** The halves of a full leaf, with the new entry in the half it belongs to. */
  function SplitInsert(es: seq<Entry>, k: Row, rid: RowId): (r: (seq<Entry>, seq<Entry>))
    requires |es| >= 2
    ensures r.0 != [] && r.1 != []
  {
    var half := |es| / 2;
    var left, right := es[..half], es[half..];
    if Less(left[half - 1].key, k) then (left, LeafInsert(right, k, rid)) else (LeafInsert(left, k, rid), right)
  }

  function MaxKey(es: seq<Entry>): Row
    requires es != []
  {
    es[|es| - 1].key
  }

  /** The pages after an insertion, and false if it threw because the root is full. */
  datatype Inserted = Inserted(pages: seq<Page>, ok: bool)

  /** The key's leaf has room, or enough entries for two halves. */
  ghost predicate Insertable(cfg: Config, ps: seq<Page>, k: Row)
    requires Shaped(ps)
  {
    |ps[DescentPage(ps, k)].es| < cfg.leafCap || cfg.leafCap >= 2
  }

  /** The new root over the halves of a split root leaf. What finds no room in it is left out
      without notice. */
  function GrownRoot(cfg: Config, p: int, q: int, maxLeft: Row, maxRight: Row): Page {
    if cfg.internalCap >= 3 then Internal([p, p, q], [maxLeft, maxRight])
    else if cfg.internalCap == 2 then Internal([p, p], [maxLeft])
    else Internal([p], [])
  }

  ghost function Insert(cfg: Config, ps: seq<Page>, k: Row, rid: RowId): Inserted
    requires Shaped(ps) && Insertable(cfg, ps, k)
  {
    var p := DescentPage(ps, k);
    var leaf := ps[p];
    if |leaf.es| < cfg.leafCap then
      Inserted(ps[p := leaf.(es := LeafInsert(leaf.es, k, rid))], true)
    else
      var (left, right) := SplitInsert(leaf.es, k, rid);
      var newPage := |ps|;
      if Root(ps).Leaf? then
        var grown := ps[p := Leaf(left, INVALID, newPage)][0 := Metadata(newPage + 1)];
        Inserted(grown + [Leaf(right, p, INVALID), GrownRoot(cfg, p, newPage, MaxKey(left), MaxKey(right))], true)
      else
        var i := DescentIndex(ps, k);
        var keys := Root(ps).keys[i := MaxKey(left)];
        var split := ps[p := Leaf(left, leaf.prev, newPage)] + [Leaf(right, p, leaf.next)];
        if |Root(ps).kids| + 1 > cfg.internalCap then
          Inserted(split[ps[0].root := Internal(Root(ps).kids, keys)], false)
        else
          var root := Internal(InsertAt(Root(ps).kids, i + 2, newPage), InsertAt(keys, i + 1, MaxKey(right)));
          Inserted(split[ps[0].root := root], true)
  }

  /** The pages after the emptied leaf p has been taken out of the leaf chain. */
  function Unlink(ps: seq<Page>, p: int): (r: seq<Page>)
    requires IsLeafPage(ps, p)
    ensures |r| == |ps|
  {
    var ps1 := if ps[p].prev != INVALID && IsLeafPage(ps, ps[p].prev)
               then ps[ps[p].prev := ps[ps[p].prev].(next := ps[p].next)] else ps;
    if ps[p].next != INVALID && IsLeafPage(ps1, ps[p].next)
    then ps1[ps[p].next := ps1[ps[p].next].(prev := ps[p].prev)] else ps1
  }

  ghost function Remove(ps: seq<Page>, k: Row): (seq<Page>, bool)
    requires Shaped(ps)
  {
    var p := DescentPage(ps, k);
    var leaf := ps[p];
    var at := FindKey(leaf.es, k);
    if at == |leaf.es| then (ps, false)
    else
      var ps1 := ps[p := leaf.(es := RemoveAt(leaf.es, at))];
      if Root(ps).Leaf? || |leaf.es| > 1 then (ps1, true)
      else
        var i := DescentIndex(ps, k);
        var ps2 := Unlink(ps1, p);
        var root := Root(ps);
        if |root.kids| > 2 then
          (ps2[ps[0].root := Internal(RemoveAt(root.kids, i + 1), RemoveAt(root.keys, i))], true)
        else
          (ps2[ps[0].root := Internal([], [])][0 := Metadata(|ps|)] + [Leaf([], INVALID, INVALID)], true)
  }

  // ----- The invariant -----

  ghost predicate Sorted(es: seq<Entry>) {
    forall i, j :: 0 <= i < j < |es| ==> Less(es[i].key, es[j].key)
  }

  /** Leaf i holds keys at most key i and above key i - 1; the last leaf has no upper bound. */
  ghost predicate Separated(ls: seq<seq<Entry>>, keys: seq<Row>) {
    |keys| == |ls| &&
    (forall i :: 0 <= i < |ls| ==> ls[i] != []) &&
    (forall i, e :: 0 <= i < |ls| - 1 && e in ls[i] ==> !Less(keys[i], e.key)) &&
    (forall i, e :: 0 < i < |ls| && e in ls[i] ==> Less(keys[i - 1], e.key))
  }

  ghost predicate IsLink(ps: seq<Page>, p: int) {
    p == INVALID || IsLeafPage(ps, p)
  }

  /** Links of leaves, in use or not, lead to leaves. */
  ghost predicate Linked(ps: seq<Page>) {
    forall p :: 0 <= p < |ps| && ps[p].Leaf? ==> IsLink(ps, ps[p].prev) && IsLink(ps, ps[p].next)
  }

  ghost predicate Filled(cfg: Config, ls: seq<seq<Entry>>) {
    forall i :: 0 <= i < |ls| ==> |ls[i]| <= cfg.leafCap && Sorted(ls[i])
  }

  ghost predicate Inv(cfg: Config, ps: seq<Page>) {
    Shaped(ps) && Filled(cfg, Leaves(ps)) && Linked(ps) &&
    (Root(ps).Internal? ==> |Root(ps).kids| <= cfg.internalCap && Separated(Leaves(ps), Root(ps).keys))
  }

  /** Capacities with which leaves can be split; a root over the halves takes one child at least. */
  predicate Usable(cfg: Config) {
    cfg.leafCap >= 2 && cfg.internalCap >= 2
  }
}
