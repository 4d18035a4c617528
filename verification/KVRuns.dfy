/** The key-value storage over restarts: what the row numbers noted by a restart do to later
    operations, and which runs with restarts in them stay a plain map. */
module KVRuns {
  import opened Rows
  import opened CellPage
  import opened KVStorage

  // ----- Where the pairs really are -----

  /** The numbers of the pairs that bind the keys, in the first n pairs. */
  function Positions(rows: seq<Text>, n: nat): map<Text, int>
    requires 2 * n <= |rows|
  {
    if n == 0 then map[]
    else
      var key, value := rows[2 * n - 2], rows[2 * n - 1];
      if key == [] || value == [] then Positions(rows, n - 1) else Positions(rows, n - 1)[key := n - 1]
  }

  /** A restart notes half of each pair's number. */
  lemma {:induction false} RestartNotesHalves(rows: seq<Text>, n: nat)
    requires 2 * n <= |rows|
    ensures Indices(rows, n).Keys == Positions(rows, n).Keys == Pairs(rows, n).Keys
    ensures forall k :: k in Positions(rows, n) ==>
              0 <= Positions(rows, n)[k] < n && Indices(rows, n)[k] == Positions(rows, n)[k] / 2
  {
    if n > 0 {
      RestartNotesHalves(rows, n - 1);
    }
  }

  lemma {:induction false} MatchingPositions(s: Store, n: nat)
    requires Matching(s) && n <= s.count
    ensures forall k :: k in Positions(s.rows, n) <==> k in s.values && s.index[k] < n
    ensures forall k :: k in Positions(s.rows, n) ==> Positions(s.rows, n)[k] == s.index[k]
  {
    if n > 0 {
      MatchingPositions(s, n - 1);
      MatchingPair(s, n - 1);
      hide Matching;
    }
  }

  /** The store with the true pair numbers. */
  ghost function Located(s: Store): Store {
    Store(s.rows, |s.rows| / 2, Positions(s.rows, |s.rows| / 2), s.values)
  }

  lemma MatchingLocated(s: Store)
    requires Matching(s)
    ensures Located(s) == s
  {
    MatchingPositions(s, s.count);
    hide Positions;
    assert s.index.Keys == s.values.Keys;
    assert Located(s).index == s.index;
  }

  // ----- Erasing a pair by number -----

  /** Deleting the rows of pair j erases the key of that pair, if it is in use, and nothing
      otherwise. */
  lemma EraseRowsOf(s: Store, j: nat)
    requires Matching(s) && Usable(s) && j < s.count
    ensures EraseRows(s.rows, j) ==
            if s.rows[2 * j] == [] then s.rows else AfterErase(s, s.rows[2 * j]).rows
  {
    MatchingPair(s, j);
  }

  /** Deleting the rows of pair j erases a key exactly if the pair is the key's and the erasure is
      clean. */
  lemma EraseByNumber(s: Store, j: nat, key: Text)
    requires Matching(s) && Usable(s) && j < s.count && key in s.values
    ensures Recovered(EraseRows(s.rows, j)) == s.values - {key} <==> j == s.index[key] && Clean(s, key)
  {
    hide Recovered, EraseRows, LastLive, Clean;
    var k := s.rows[2 * j];
    EraseRowsOf(s, j);
    MatchingPair(s, j);
    EraseFaithful(s, key);
    if k == [] {
      MatchingRecovers(s);
    } else if k != key {
      EraseRecovers(s, k);
    }
  }

  // ----- After a restart -----

  lemma RestartOfMatching(s: Store)
    requires Matching(s) && Usable(s)
    ensures var r := Restarted(s.rows);
            Usable(r) && r.values == s.values && r.index.Keys == s.index.Keys &&
            forall k :: k in s.index ==> r.index[k] == s.index[k] / 2
  {
    UsableAtStart(s.rows);
    MatchingRecovers(s);
    MatchingLocated(s);
    RestartNotesHalves(s.rows, s.count);
    hide Indices, Positions, Recovered;
  }

  /** After a restart an erasure erases the pair at half of the key's pair number. */
  lemma RestartedErase(s: Store, key: Text)
    requires Matching(s) && Usable(s) && key in s.values
    ensures var r := Restarted(s.rows);
            Usable(r) && key in r.values &&
            var k := s.rows[2 * (s.index[key] / 2)];
            AfterErase(r, key).rows == if k == [] then s.rows else AfterErase(s, k).rows
  {
    RestartOfMatching(s);
    EraseRowsOf(s, s.index[key] / 2);
    hide EraseRows;
  }

  /** After a restart an erasure is right exactly for the key of the first pair. */
  lemma RestartedEraseFaithful(s: Store, key: Text)
    requires Matching(s) && Usable(s) && key in s.values
    ensures var r := Restarted(s.rows);
            Usable(r) && (Recovered(AfterErase(r, key).rows) == s.values - {key} <==> s.index[key] == 0)
  {
    RestartOfMatching(s);
    EraseByNumber(s, s.index[key] / 2, key);
    hide Recovered, EraseRows, Matching;
  }

  /** A set of a new key after a restart writes the rows that it would write without one, but
      notes the number 0. */
  lemma RestartedSetNotes(s: Store, key: Text, value: Text)
    requires Matching(s) && Usable(s) && key !in s.values
    ensures var r := Restarted(s.rows);
            Usable(r) &&
            var t, u := AfterSet(r, key, value), AfterSet(s, key, value);
            t.rows == u.rows && t.values == u.values == s.values[key := value] && t.index[key] == 0 &&
            u.index[key] == s.count && u.count == s.count + 1
  {
    RestartOfMatching(s);
    hide Recovered, EraseRows, Matching, Indices;
  }

  lemma ErasedByNumber(s: Store, key: Text)
    requires Usable(s) && key in s.values
    ensures AfterErase(s, key).rows == EraseRows(s.rows, s.index[key])
  {
  }

  /** After a restart a set of a new key is recorded as pair 0: the pair itself is recovered, but
      the key can be erased again only if it is the first of the page. */
  lemma RestartedSet(s: Store, key: Text, value: Text)
    requires Matching(s) && Usable(s) && key !in s.values && key != [] && value != []
    ensures var r := Restarted(s.rows);
            Usable(r) &&
            var t := AfterSet(r, key, value);
            t.index[key] == 0 && Recovered(t.rows) == t.values == s.values[key := value] &&
            (Recovered(AfterErase(t, key).rows) == s.values <==> s.count == 0)
  {
    RestartedSetNotes(s, key, value);
    SetNewKeepsMatching(s, key, value);
    hide Recovered, EraseRows, Matching, AfterSet, AfterErase, Restarted;
    var t, u := AfterSet(Restarted(s.rows), key, value), AfterSet(s, key, value);
    assert u.values - {key} == s.values;
    MatchingRecovers(u);
    ErasedByNumber(t, key);
    EraseByNumber(u, 0, key);
    if s.count == 0 {
      FirstIsClean(u, key);
    }
  }

  lemma FirstIsClean(s: Store, key: Text)
    requires Matching(s) && key in s.values && s.index[key] == 0
    ensures Clean(s, key)
  {
  }

  /** A page with two pairs, a to x and b to y. */
  function TwoPairs(): Store {
    Store([[97], [120], [98], [121]], 2, map[[97] := 0, [98] := 1], map[[97] := [120], [98] := [121]])
  }

  lemma TwoPairsMatch()
    ensures Matching(TwoPairs()) && Usable(TwoPairs())
  {
  }

  /** Two pairs, a restart, and an erasure of the second key: the first is gone and the second is
      still there. */
  lemma RestartErasesOther()
    ensures var s, a, b, y := TwoPairs(), [97], [98], [121];
            Matching(s) && Usable(s) && Usable(Restarted(s.rows)) &&
            Recovered(AfterErase(Restarted(s.rows), b).rows) == map[b := y]
  {
    hide Recovered, EraseRows, Matching, Usable, Restarted, AfterErase;
    var s: Store, a: Text, b: Text, y: Text := TwoPairs(), [97], [98], [121];
    TwoPairsMatch();
    RestartedErase(s, b);
    EraseRecovers(s, a);
    assert s.rows[0] == a && LastLive(s.rows, 0) == 0;
    assert s.values - {a} == map[b := y];
  }

  // ----- Runs -----

  /** A set, an erasure, a restart, or a set of a new key that stops when the given number of its
      two rows have been counted, and the restart after it. */
  datatype Operation =
    | SetOp(key: Text, value: Text)
    | EraseOp(key: Text)
    | RestartOp
    | StopOp(key: Text, value: Text, written: nat)

  /** The page holds the pairs of the map, whatever the noted numbers are. */
  ghost predicate Aligned(s: Store) {
    Usable(s) && Matching(Located(s))
  }

  /** The noted number of the key is right, and its erasure is clean. */
  ghost predicate Removable(s: Store, key: Text)
    requires Aligned(s) && key in s.values
  {
    s.index[key] == Located(s).index[key] && Clean(Located(s), key)
  }

  /** An erasure leaves a page that recovers the map in memory exactly if the key is removable. */
  lemma EraseAligned(s: Store, key: Text)
    requires Aligned(s) && key in s.values
    ensures Recovered(AfterErase(s, key).rows) == AfterErase(s, key).values <==> Removable(s, key)
  {
    var u := Located(s);
    RestartNotesHalves(s.rows, |s.rows| / 2);
    assert Usable(u);
    EraseByNumber(u, s.index[key], key);
  }

  ghost predicate Allowed(s: Store, op: Operation)
    requires Aligned(s)
  {
    match op
    case SetOp(key, value) => key != [] && value != [] && (key in s.values ==> Removable(s, key))
    case EraseOp(key) => key in s.values ==> Removable(s, key)
    case RestartOp => true
    case StopOp(key, value, written) => key != [] && value != [] && key !in s.values && (written == 0 || written == 2)
  }

  ghost function Step(s: Store, op: Operation): Store
    requires Usable(s)
  {
    match op
    case SetOp(key, value) => AfterSet(s, key, value)
    case EraseOp(key) => AfterErase(s, key)
    case RestartOp => Restarted(s.rows)
    case StopOp(key, value, written) => Restarted(s.rows + Counted(key, value, written))
  }

  /** The rows of a stopped set that have been counted. */
  function Counted(key: Text, value: Text, written: nat): seq<Text> {
    if written == 0 then [] else if written == 1 then [key] else [key, value]
  }

  /** After any number of cell writes of a set the page holds the rows that have been counted. */
  lemma StopCounts(cells: seq<cell>, size: nat, key: Text, value: Text, m: nat)
    requires Sound(cells, size) && Room(cells, size, key, value) && m <= |SetWrites(cells, size, key, value)|
    ensures var ws := SetWrites(cells, size, key, value)[..m];
            var written := if m < |key| + 2 then 0 else if m < |key| + |value| + 4 then 1 else 2;
            Within(cells, ws) && Sound(ApplyAll(cells, ws), size) &&
            RowList(ApplyAll(cells, ws), size) == RowList(cells, size) + Counted(key, value, written)
  {
    hide Sound, ApplyAll, Room;
    if m < |key| + 2 {
      CrashInKey(cells, size, key, value, m);
    } else {
      CrashInValue(cells, size, key, value, m);
    }
  }

  function Plain(m: map<Text, Text>, op: Operation): map<Text, Text> {
    match op
    case SetOp(key, value) => m[key := value]
    case EraseOp(key) => m - {key}
    case RestartOp => m
    case StopOp(key, value, written) => if written == 2 then m[key := value] else m
  }

  lemma LocatedUsable(s: Store)
    ensures Usable(s) ==> |s.rows| % 2 == 0 && s.values.Keys == Located(s).index.Keys ==> Usable(Located(s))
  {
    RestartNotesHalves(s.rows, |s.rows| / 2);
  }

  lemma EraseKeepsAligned(s: Store, key: Text)
    requires Aligned(s) && (key in s.values ==> Removable(s, key))
    ensures Aligned(AfterErase(s, key))
  {
    var u, r := Located(s), AfterErase(s, key);
    LocatedUsable(s);
    if key in s.values {
      CleanMatches(u, key);
      var v := AfterErase(u, key);
      assert r.rows == v.rows && r.values == v.values;
      MatchingLocated(v);
    }
    hide Matching, EraseRows, Positions;
  }

  lemma SetKeepsAligned(s: Store, key: Text, value: Text)
    requires Aligned(s) && key !in s.values && key != [] && value != []
    ensures Aligned(AfterSet(s, key, value))
  {
    var u, r := Located(s), AfterSet(s, key, value);
    LocatedUsable(s);
    SetNewKeepsMatching(u, key, value);
    var v := AfterSet(u, key, value);
    assert r.rows == v.rows && r.values == v.values;
    MatchingLocated(v);
    hide Matching, Positions;
  }

  lemma RestartKeepsAligned(s: Store)
    requires Aligned(s)
    ensures Aligned(Restarted(s.rows)) && Restarted(s.rows).values == s.values
  {
    LocatedUsable(s);
    RestartOfMatching(Located(s));
    hide Matching, Positions, Indices, Recovered;
  }

  /** A stopped set leaves a storage that goes on right exactly if it does not stop between the two
      counts; the map recovered is the old or the new one in any case. */
  lemma StopAligned(s: Store, key: Text, value: Text, written: nat)
    requires Aligned(s) && key !in s.values && key != [] && value != [] && written <= 2
    ensures var r := Restarted(s.rows + Counted(key, value, written));
            (Aligned(r) <==> written != 1) && r.values == if written == 2 then s.values[key := value] else s.values
  {
    var rows := s.rows + Counted(key, value, written);
    MatchingRecovers(Located(s));
    PairRecovered(s.rows, key, value);
    if written == 0 {
      assert rows == s.rows;
      RestartKeepsAligned(s);
    } else if written == 2 {
      SetKeepsAligned(s, key, value);
      RestartKeepsAligned(AfterSet(s, key, value));
      assert rows == AfterSet(s, key, value).rows;
    } else {
      OddNotAligned(Restarted(rows));
    }
    hide Aligned, Matching, Recovered, Indices;
  }

  lemma OddNotAligned(s: Store)
    requires |s.rows| % 2 == 1
    ensures !Aligned(s)
  {
  }

  lemma SetAlignedKeeps(s: Store, key: Text, value: Text)
    requires Aligned(s) && key != [] && value != [] && (key in s.values ==> Removable(s, key))
    ensures Aligned(AfterSet(s, key, value)) && AfterSet(s, key, value).values == s.values[key := value]
  {
    EraseKeepsAligned(s, key);
    SetErases(s, key, value);
    hide Aligned, AfterErase, AfterSet;
    SetKeepsAligned(AfterErase(s, key), key, value);
  }

  lemma ErasedMap(s: Store, key: Text)
    requires Usable(s)
    ensures AfterErase(s, key).values == s.values - {key}
  {
    hide EraseRows;
  }

  lemma AlignedUsable(s: Store)
    requires Aligned(s)
    ensures Usable(s)
  {
  }

  lemma StepKeeps(s: Store, op: Operation)
    requires Aligned(s) && Allowed(s, op)
    ensures Aligned(Step(s, op)) && Step(s, op).values == Plain(s.values, op)
  {
    hide Aligned, Removable, EraseRows, Usable, Located, Restarted, AfterErase, AfterSet, Counted;
    AlignedUsable(s);
    match op
    case SetOp(key, value) => SetAlignedKeeps(s, key, value);
    case EraseOp(key) =>
      EraseKeepsAligned(s, key);
      ErasedMap(s, key);
    case RestartOp => RestartKeepsAligned(s);
    case StopOp(key, value, written) => StopAligned(s, key, value, written);
  }

  ghost predicate RunsTo(s: Store, ops: seq<Operation>, r: Store)
    decreases |ops|
  {
    if ops == [] then r == s
    else Aligned(s) && Allowed(s, ops[0]) && RunsTo(Step(s, ops[0]), ops[1..], r)
  }

  function PlainRun(m: map<Text, Text>, ops: seq<Operation>): map<Text, Text>
    decreases |ops|
  {
    if ops == [] then m else PlainRun(Plain(m, ops[0]), ops[1..])
  }

  lemma {:induction false} RunKeeps(s: Store, ops: seq<Operation>, r: Store)
    requires Aligned(s) && RunsTo(s, ops, r)
    ensures Aligned(r) && r.values == PlainRun(s.values, ops)
    decreases |ops|
  {
    if ops != [] {
      StepKeeps(s, ops[0]);
      RunKeeps(Step(s, ops[0]), ops[1..], r);
    }
  }

  const EMPTY: Store := Store([], 0, map[], map[])

  /** After any run from a fresh file, restarts and stops of sets included, of sets and of erasures
      of removable keys, the storage holds and a restart rebuilds what a plain map holds. */
  lemma RunRecovers(ops: seq<Operation>, r: Store)
    requires RunsTo(EMPTY, ops, r)
    ensures r.values == PlainRun(map[], ops) == Recovered(r.rows)
  {
    MatchingLocated(EMPTY);
    RunKeeps(EMPTY, ops, r);
    MatchingRecovers(Located(r));
  }

  /** Without a restart the noted numbers stay right, so only the clean condition is left. */
  lemma NoRestart(s: Store, op: Operation)
    requires Aligned(s) && Matching(s) && Allowed(s, op) && (op.SetOp? || op.EraseOp?)
    ensures Matching(Step(s, op))
    ensures forall k :: k in s.values ==> (Removable(s, k) <==> Clean(s, k))
  {
    MatchingLocated(s);
    hide Aligned, EraseRows;
    assert op.key in s.values ==> Clean(s, op.key);
    CleanMatches(s, op.key);
    if op.SetOp? {
      SetErases(s, op.key, op.value);
      SetNewKeepsMatching(AfterErase(s, op.key), op.key, op.value);
    }
  }
}
