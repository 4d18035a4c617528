/** The master's key-value storage (master/persistent_kv/kv_storage.cpp): keys and values in
    alternate rows of a slotted page, an in-memory map beside it, and what a restart recovers. */
module KVStorage {
  import opened Rows
  import opened CellPage
  import FP = FlexiblePage

  // ----- Recovery -----

  /** The map that the first n pairs of rows stand for; pairs with an empty half are skipped. */
  function Pairs(rows: seq<Text>, n: nat): map<Text, Text>
    requires 2 * n <= |rows|
  {
    if n == 0 then map[]
    else
      var key, value := rows[2 * n - 2], rows[2 * n - 1];
      if key == [] || value == [] then Pairs(rows, n - 1) else Pairs(rows, n - 1)[key := value]
  }

  /** What the constructor rebuilds; a last row without a partner is ignored. */
  function Recovered(rows: seq<Text>): map<Text, Text> {
    Pairs(rows, |rows| / 2)
  }

  /** The row indices that the constructor notes, half of the true pair numbers. */
  function Indices(rows: seq<Text>, n: nat): map<Text, int>
    requires 2 * n <= |rows|
  {
    if n == 0 then map[]
    else
      var key, value := rows[2 * n - 2], rows[2 * n - 1];
      if key == [] || value == [] then Indices(rows, n - 1) else Indices(rows, n - 1)[key := (n - 1) / 2]
  }

  lemma {:induction false} IndicesInside(rows: seq<Text>, n: nat)
    requires 2 * n <= |rows|
    ensures Indices(rows, n).Keys == Pairs(rows, n).Keys
    ensures forall k :: k in Indices(rows, n) ==> 0 <= Indices(rows, n)[k] && 2 * Indices(rows, n)[k] + 1 < |rows|
  {
    if n > 0 {
      IndicesInside(rows, n - 1);
    }
  }

  /** The storage that a restart makes of a page; the count starts again. */
  function Restarted(rows: seq<Text>): Store {
    Store(rows, 0, Indices(rows, |rows| / 2), Recovered(rows))
  }

  lemma UsableAtStart(rows: seq<Text>)
    ensures Usable(Restarted(rows))
  {
    IndicesInside(rows, |rows| / 2);
  }

  lemma {:induction false} PairsPrefix(rows: seq<Text>, more: seq<Text>, n: nat)
    requires 2 * n <= |rows|
    ensures Pairs(rows + more, n) == Pairs(rows, n)
  {
    if n > 0 {
      PairsPrefix(rows, more, n - 1);
    }
  }

  /** A pair behind an even number of rows binds its key. */
  lemma PairRecovered(rows: seq<Text>, key: Text, value: Text)
    requires |rows| % 2 == 0 && key != [] && value != []
    ensures Recovered(rows + [key]) == Recovered(rows)
    ensures Recovered(rows + [key, value]) == Recovered(rows)[key := value]
  {
    PairsPrefix(rows, [key], |rows| / 2);
    PairsPrefix(rows, [key, value], |rows| / 2);
  }

  /** Behind a key row left by an interrupted set, the next pair is torn apart: its key becomes
      the value of the old key, and its own binding is lost. */
  lemma PairBehindDanglingKey(rows: seq<Text>, key: Text, value: Text)
    requires |rows| % 2 == 1 && rows[|rows| - 1] != [] && key != [] && value != []
    ensures Recovered(rows + [key, value]) == Recovered(rows)[rows[|rows| - 1] := key]
  {
    var all, n := rows + [key, value], |rows| / 2;
    PairsPrefix(rows, [key, value], n);
    assert all[2 * n] == rows[|rows| - 1] && all[2 * n + 1] == key;
  }

  /** A new pair is recovered as it is exactly behind an even number of rows; behind an odd number
      only if key and value equal the dangling key. */
  lemma PairRecoveredIff(rows: seq<Text>, key: Text, value: Text)
    requires key != [] && value != [] && key !in Recovered(rows)
    ensures Recovered(rows + [key, value]) == Recovered(rows)[key := value] <==>
            |rows| % 2 == 0 || (rows[|rows| - 1] == key && key == value)
  {
    hide Pairs;
    var was, now := Recovered(rows), Recovered(rows + [key, value]);
    if |rows| % 2 == 0 {
      PairRecovered(rows, key, value);
    } else if rows[|rows| - 1] != [] {
      PairBehindDanglingKey(rows, key, value);
      var last := rows[|rows| - 1];
      assert was[last := key][last] == key && was[key := value][key] == value;
      assert key in now <==> last == key;
    } else {
      PairBehindEmptyRow(rows, key, value);
      assert key !in now;
    }
  }

  lemma PairBehindEmptyRow(rows: seq<Text>, key: Text, value: Text)
    requires |rows| % 2 == 1 && rows[|rows| - 1] == []
    ensures Recovered(rows + [key, value]) == Recovered(rows)
  {
    var n := |rows| / 2;
    PairsPrefix(rows, [key, value], n);
    var all := rows + [key, value];
    assert all[2 * n] == rows[2 * n] && |all| / 2 == n + 1;
  }

  /** A dangling key a, and then a set of b to y: a restart finds a bound to b. */
  lemma DanglingKeyBinds()
    ensures Recovered([[97]]) == map[] && Recovered([[97]] + [[98], [121]]) == map[[97] := [98]]
  {
    assert Pairs([[97]], 0) == map[];
    PairBehindDanglingKey([[97]], [98], [121]);
  }

  // ----- Crashes during a set -----

  lemma {:induction false} ApplyConcat(cells: seq<cell>, a: seq<Write>, b: seq<Write>)
    requires Within(cells, a) && Within(cells, b)
    ensures Within(cells, a + b) && ApplyAll(cells, a + b) == ApplyAll(ApplyAll(cells, a), b)
    decreases |b|
  {
    if b == [] {
      assert a + b == a;
    } else {
      ApplyConcat(cells, a, b[..|b| - 1]);
      assert (a + b)[..|a + b| - 1] == a + b[..|b| - 1];
    }
  }

  /** A key and a value fit as two more rows. */
  ghost predicate Room(cells: seq<cell>, size: nat, key: Text, value: Text)
    requires Sound(cells, size)
  {
    Sum(Lengths(cells, size)) + |key| + |value| + 3 + Count(cells) <= size &&
    |key| < 0x1_0000 && |value| < 0x1_0000 && Count(cells) + 2 < 0x1_0000
  }

  function RowLengths(rows: seq<Text>): seq<nat> {
    seq(|rows|, i requires 0 <= i < |rows| => |rows[i]|)
  }

  /** The same of the rows of a page. */
  predicate Space(rows: seq<Text>, size: nat, key: Text, value: Text) {
    Sum(RowLengths(rows)) + |key| + |value| + 3 + |rows| <= size &&
    |key| < 0x1_0000 && |value| < 0x1_0000 && |rows| + 2 < 0x1_0000
  }

  lemma SpaceIsRoom(cells: seq<cell>, size: nat, key: Text, value: Text)
    requires Sound(cells, size)
    ensures Space(RowList(cells, size), size, key, value) <==> Room(cells, size, key, value)
  {
    assert RowLengths(RowList(cells, size)) == Lengths(cells, size);
  }

  lemma RoomForBoth(cells: seq<cell>, size: nat, key: Text, value: Text)
    requires Sound(cells, size) && Room(cells, size, key, value)
    ensures Fits(cells, size, key) && Sound(Inserted(cells, size, key), size)
    ensures Fits(Inserted(cells, size, key), size, value) && Count(Inserted(cells, size, key)) == Count(cells) + 1
  {
    InsertedLengths(cells, size, key);
    SumConcat(Lengths(cells, size), [|key|]);
    assert Sum([|key|]) == |key| + Sum([|key|][1..]);
  }

  /** All cell writes of a set of a new key, in their order. */
  ghost function SetWrites(cells: seq<cell>, size: nat, key: Text, value: Text): (ws: seq<Write>)
    requires Sound(cells, size) && Room(cells, size, key, value)
    ensures |ws| == |key| + |value| + 4 && Within(cells, ws)
  {
    RoomForBoth(cells, size, key, value);
    InsertWrites(cells, size, key) + InsertWrites(Inserted(cells, size, key), size, value)
  }

  lemma SetWritesInsert(cells: seq<cell>, size: nat, key: Text, value: Text)
    requires Sound(cells, size) && Room(cells, size, key, value)
    ensures Fits(cells, size, key) && Sound(Inserted(cells, size, key), size)
    ensures Fits(Inserted(cells, size, key), size, value)
    ensures ApplyAll(cells, SetWrites(cells, size, key, value)) == Inserted(Inserted(cells, size, key), size, value)
  {
    RoomForBoth(cells, size, key, value);
    hide Sound, Fits, ApplyAll;
    var first := InsertWrites(cells, size, key);
    ApplyConcat(cells, first, InsertWrites(Inserted(cells, size, key), size, value));
  }

  lemma CrashInKey(cells: seq<cell>, size: nat, key: Text, value: Text, m: nat)
    requires Sound(cells, size) && Room(cells, size, key, value) && m <= |key| + 2
    ensures var ws := SetWrites(cells, size, key, value)[..m];
            Within(cells, ws) && Sound(ApplyAll(cells, ws), size) &&
            RowList(ApplyAll(cells, ws), size) == RowList(cells, size) + if m == |key| + 2 then [key] else []
  {
    hide Sound, RowList, ApplyAll;
    RoomForBoth(cells, size, key, value);
    var first := InsertWrites(cells, size, key);
    assert SetWrites(cells, size, key, value)[..m] == first[..m];
    if m <= |key| + 1 {
      InsertPrefix(cells, size, key, m);
      assert RowList(cells, size) + [] == RowList(cells, size);
    } else {
      InsertAppends(cells, size, key);
      assert first[..m] == first;
    }
  }

  lemma CrashInValue(cells: seq<cell>, size: nat, key: Text, value: Text, m: nat)
    requires Sound(cells, size) && Room(cells, size, key, value) && |key| + 2 <= m <= |key| + |value| + 4
    ensures var ws := SetWrites(cells, size, key, value)[..m];
            Within(cells, ws) && Sound(ApplyAll(cells, ws), size) &&
            RowList(ApplyAll(cells, ws), size)
            == RowList(cells, size) + if m == |key| + |value| + 4 then [key, value] else [key]
  {
    hide Sound, RowList, ApplyAll;
    RoomForBoth(cells, size, key, value);
    var first, mid := InsertWrites(cells, size, key), Inserted(cells, size, key);
    var second, rest := InsertWrites(mid, size, value), m - |key| - 2;
    assert SetWrites(cells, size, key, value)[..m] == first + second[..rest];
    InsertAppends(cells, size, key);
    if rest <= |value| + 1 {
      InsertPrefix(mid, size, value, rest);
    } else {
      InsertAppends(mid, size, value);
      assert second[..rest] == second;
      assert RowList(cells, size) + [key] + [value] == RowList(cells, size) + [key, value];
    }
    ApplyConcat(cells, first, second[..rest]);
  }

  /** A set of a non-empty key and value that stops after any number of its cell writes recovers
      to the map before it or, if none is missing, to the map after it. */
  lemma CrashSafe(cells: seq<cell>, size: nat, key: Text, value: Text, m: nat)
    requires Sound(cells, size) && Room(cells, size, key, value) && Count(cells) % 2 == 0
    requires key != [] && value != [] && m <= |SetWrites(cells, size, key, value)|
    ensures var all := SetWrites(cells, size, key, value);
            Within(cells, all[..m]) && Sound(ApplyAll(cells, all[..m]), size) &&
            var was := Recovered(RowList(cells, size));
            Recovered(RowList(ApplyAll(cells, all[..m]), size)) == if m == |all| then was[key := value] else was
  {
    hide Sound, ApplyAll, Recovered;
    PairRecovered(RowList(cells, size), key, value);
    if m < |key| + 2 {
      CrashInKey(cells, size, key, value, m);
      assert RowList(cells, size) + [] == RowList(cells, size);
    } else {
      CrashInValue(cells, size, key, value, m);
    }
  }

  // ----- The storage as a value -----

  /** The rows of the page, the number of keys_, key2index_ and values_. */
  datatype Store = Store(rows: seq<Text>, count: nat, index: map<Text, int>, values: map<Text, Text>)

  /** Every noted index is that of a pair of rows. */
  ghost predicate Usable(s: Store) {
    2 * s.count <= |s.rows| && s.index.Keys == s.values.Keys &&
    forall k :: k in s.index ==> 0 <= s.index[k] && 2 * s.index[k] + 1 < |s.rows|
  }

  function EraseRows(rows: seq<Text>, i: nat): (r: seq<Text>)
    requires 2 * i + 1 < |rows|
    ensures |r| == |rows|
  {
    DeletedRows(DeletedRows(rows, 2 * i), 2 * i + 1)
  }

  ghost function AfterErase(s: Store, key: Text): (r: Store)
    requires Usable(s)
    ensures Usable(r)
  {
    if key !in s.values then s
    else Store(EraseRows(s.rows, s.index[key]), s.count, s.index - {key}, s.values - {key})
  }

  ghost function AfterSet(s: Store, key: Text, value: Text): (r: Store)
    requires Usable(s)
    ensures Usable(r)
  {
    var t := if key in s.index then AfterErase(s, key) else s;
    Store(t.rows + [key, value], t.count + 1, t.index[key := t.count], t.values[key := value])
  }

  /** The rows hold exactly the pairs of the map, each where its index says, and nothing else. */
  ghost predicate Matching(s: Store) {
    |s.rows| == 2 * s.count && s.index.Keys == s.values.Keys &&
    (forall k :: k in s.values ==>
       k != [] && s.values[k] != [] && 0 <= s.index[k] < s.count &&
       s.rows[2 * s.index[k]] == k && s.rows[2 * s.index[k] + 1] == s.values[k]) &&
    (forall i :: 0 <= i < s.count ==>
       (s.rows[2 * i] == [] && s.rows[2 * i + 1] == []) || (s.rows[2 * i] in s.values && s.index[s.rows[2 * i]] == i))
  }

  lemma {:induction false} MatchingPairs(s: Store, n: nat)
    requires Matching(s) && n <= s.count
    ensures forall k :: k in Pairs(s.rows, n) <==> k in s.values && s.index[k] < n
    ensures forall k :: k in Pairs(s.rows, n) ==> Pairs(s.rows, n)[k] == s.values[k]
  {
    if n > 0 {
      MatchingPairs(s, n - 1);
      MatchingPair(s, n - 1);
      hide Matching;
    }
  }

  lemma MatchingPair(s: Store, i: nat)
    requires Matching(s) && i < s.count
    ensures var key, value := s.rows[2 * i], s.rows[2 * i + 1];
            if key == [] || value == [] then forall k :: k in s.values ==> s.index[k] != i
            else key in s.values && s.values[key] == value && forall k :: k in s.values ==> (s.index[k] == i <==> k == key)
  {
  }

  /** A restart over a matching page rebuilds the map. */
  lemma MatchingRecovers(s: Store)
    requires Matching(s)
    ensures Recovered(s.rows) == s.values
  {
    MatchingPairs(s, s.count);
  }

  lemma SetNewKeepsMatching(s: Store, key: Text, value: Text)
    requires Matching(s) && Usable(s) && key !in s.values && key != [] && value != []
    ensures Matching(AfterSet(s, key, value))
  {
    var r := AfterSet(s, key, value);
    assert r.rows[2 * s.count] == key && r.rows[2 * s.count + 1] == value;
    forall i | 0 <= i < r.count
      ensures (r.rows[2 * i] == [] && r.rows[2 * i + 1] == []) || (r.rows[2 * i] in r.values && r.index[r.rows[2 * i]] == i)
    {
      if i < s.count {
        assert r.rows[2 * i] == s.rows[2 * i] && r.rows[2 * i + 1] == s.rows[2 * i + 1];
      }
    }
  }

  // ----- What an erasure does to the page -----

  /** The last pair before pair i that is in use; i if there is none. */
  function LastLive(rows: seq<Text>, i: nat): (m: nat)
    requires 2 * i <= |rows|
    ensures m <= i && (m < i ==> rows[2 * m] != [])
    ensures forall j :: 0 <= j < i && (m == i || m < j) ==> rows[2 * j] == []
  {
    if i == 0 then 0
    else if rows[2 * (i - 1)] != [] then i - 1
    else
      var m := LastLive(rows, i - 1);
      if m == i - 1 then i else m
  }

  /** The store without a pair. */
  ghost function Drop(s: Store, key: Text): Store
    requires Matching(s) && key in s.values
  {
    var i := s.index[key];
    Store(s.rows[2 * i := []][2 * i + 1 := []], s.count, s.index - {key}, s.values - {key})
  }

  lemma DropMatches(s: Store, key: Text)
    requires Matching(s) && key in s.values
    ensures Matching(Drop(s, key))
  {
    var r, i := Drop(s, key), s.index[key];
    forall j | 0 <= j < r.count
      ensures (r.rows[2 * j] == [] && r.rows[2 * j + 1] == []) || (r.rows[2 * j] in r.values && r.index[r.rows[2 * j]] == j)
    {
      assert j != i ==> r.rows[2 * j] == s.rows[2 * j] && r.rows[2 * j + 1] == s.rows[2 * j + 1];
    }
    forall k | k in r.values
      ensures r.rows[2 * r.index[k]] == k && r.rows[2 * r.index[k] + 1] == r.values[k]
    {
      assert s.index[k] != i;
    }
  }

  /** The store with another value in a pair. */
  ghost function Rewrite(s: Store, key: Text, value: Text): Store
    requires Matching(s) && key in s.values
  {
    Store(s.rows[2 * s.index[key] + 1 := value], s.count, s.index, s.values[key := value])
  }

  lemma RewriteMatches(s: Store, key: Text, value: Text)
    requires Matching(s) && key in s.values && value != []
    ensures Matching(Rewrite(s, key, value))
  {
    var r, i := Rewrite(s, key, value), s.index[key];
    forall j | 0 <= j < r.count
      ensures (r.rows[2 * j] == [] && r.rows[2 * j + 1] == []) || (r.rows[2 * j] in r.values && r.index[r.rows[2 * j]] == j)
    {
      assert r.rows[2 * j] == s.rows[2 * j];
    }
    forall k | k in r.values
      ensures r.rows[2 * r.index[k]] == k && r.rows[2 * r.index[k] + 1] == r.values[k]
    {
      assert k != key ==> s.index[k] != i;
    }
  }

  /** The store that the page stands for after the erasure of key: the last pair in use before it
      has the first character of the erased value. */
  ghost function Erased(s: Store, key: Text): (r: Store)
    requires Matching(s) && key in s.values
    ensures Matching(r)
  {
    var i := s.index[key];
    var m := LastLive(s.rows, i);
    DropMatches(s, key);
    if m == i then Drop(s, key)
    else
      LiveBefore(s, key);
      var v := s.rows[2 * m + 1][0 := s.values[key][0]];
      RewriteMatches(Drop(s, key), s.rows[2 * m], v);
      Rewrite(Drop(s, key), s.rows[2 * m], v)
  }

  lemma LiveBefore(s: Store, key: Text)
    requires Matching(s) && key in s.values && LastLive(s.rows, s.index[key]) < s.index[key]
    ensures var m := LastLive(s.rows, s.index[key]);
            var k := s.rows[2 * m];
            k in s.values - {key} && s.index[k] == m && s.values[k] == s.rows[2 * m + 1] != []
  {
  }

  lemma NearestIs(rows: seq<Text>, k: nat, m: nat)
    requires k <= |rows| && m <= k && (m < k ==> rows[m] != [])
    requires forall j :: 0 <= j < k && (m == k || m < j) ==> rows[j] == []
    ensures m == Nearest(rows, k)
  {
    assert m < k ==> rows[m] != [];
  }

  /** Rows before pair i: the last non-empty one is the value of the last pair in use. */
  lemma NearestValue(s: Store, i: nat)
    requires Matching(s) && i < s.count
    ensures var m := LastLive(s.rows, i);
            Nearest(s.rows, 2 * i) == if m == i then 2 * i else 2 * m + 1
  {
    hide Nearest, LastLive;
    var m := LastLive(s.rows, i);
    forall j | 0 <= j < 2 * i && (m == i || 2 * m + 1 < j) ensures s.rows[j] == [] {
      assert s.rows[2 * (j / 2)] == [];
      assert j == 2 * (j / 2) || j == 2 * (j / 2) + 1;
    }
    if m < i {
      assert s.rows[2 * m] in s.values;
    }
    NearestIs(s.rows, 2 * i, if m == i then 2 * i else 2 * m + 1);
  }

  lemma NearestAfterFirst(rows: seq<Text>, rows1: seq<Text>, k: nat)
    requires k < |rows| == |rows1| && rows1[k] == []
    requires forall j :: 0 <= j < k ==> (rows1[j] == [] <==> rows[j] == [])
    ensures var m := Nearest(rows, k);
            Nearest(rows1, k + 1) == if m == k then k + 1 else m
  {
    var m := Nearest(rows, k);
    NearestIs(rows1, k + 1, if m == k then k + 1 else m);
  }

  /** The rows without pair i, and with the first character of its value in row n before it. */
  function Overwritten(rows: seq<Text>, i: nat, n: nat): seq<Text>
    requires 2 * i + 1 < |rows| && n <= 2 * i
  {
    var rest := rows[2 * i := []][2 * i + 1 := []];
    if n == 2 * i || rows[n] == [] || rows[2 * i + 1] == [] then rest else rest[n := rows[n][0 := rows[2 * i + 1][0]]]
  }

  /** Deleting two adjacent rows in terms of the nearest non-empty row before them. */
  lemma EraseRowsTwice(rows: seq<Text>, i: nat)
    requires 2 * i + 1 < |rows| && rows[2 * i] != [] && rows[2 * i + 1] != []
    ensures EraseRows(rows, i) == Overwritten(rows, i, Nearest(rows, 2 * i))
  {
    var n, rows1 := Nearest(rows, 2 * i), DeletedRows(rows, 2 * i);
    NearestAfterFirst(rows, rows1, 2 * i);
    hide Nearest;
    if n < 2 * i {
      var x, y := rows[2 * i][0], rows[2 * i + 1][0];
      assert rows[n][0 := x][0 := y] == rows[n][0 := y];
      assert rows1[n] == rows[n][0 := x];
    }
  }

  /** Erased, spelled out: when nothing before the pair is in use, */
  lemma ErasedFirst(s: Store, key: Text)
    requires Matching(s) && key in s.values && LastLive(s.rows, s.index[key]) == s.index[key]
    ensures key in s.index && |s.rows| == 2 * s.count && 0 <= s.index[key] < s.count
    ensures var i := s.index[key];
            s.rows[2 * i + 1] != [] && Erased(s, key).rows == Overwritten(s.rows, i, 2 * i) &&
            Erased(s, key).values == s.values - {key}
  {
    hide Matching, LastLive, Rewrite, Drop;
    PairOf(s, key);
    DropParts(s, key);
  }

  /** ... and when pair m is the last one before pair i of the key. */
  lemma ErasedLater(s: Store, key: Text, i: nat, m: nat)
    requires key in s.index && s.index[key] == i && m < i && 2 * i + 1 < |s.rows|
    requires key in s.values && s.values[key] == s.rows[2 * i + 1] != [] && s.rows[2 * m + 1] != []
    requires Matching(s) && LastLive(s.rows, i) == m
    ensures Erased(s, key).rows == Overwritten(s.rows, i, 2 * m + 1)
  {
    hide Matching, LastLive, Rewrite, Drop, Erased;
    LiveBefore(s, key);
    ErasedIsRewrite(s, key, m);
    RewriteParts(s, key, s.rows[2 * m], s.rows[2 * m + 1][0 := s.values[key][0]]);
  }

  lemma ErasedLaterValues(s: Store, key: Text, i: nat, m: nat)
    requires key in s.index && s.index[key] == i && m < i && 2 * i + 1 < |s.rows|
    requires key in s.values && s.values[key] != [] && s.rows[2 * m + 1] != []
    requires Matching(s) && LastLive(s.rows, i) == m
    ensures Erased(s, key).values == (s.values - {key})[s.rows[2 * m] := s.rows[2 * m + 1][0 := s.values[key][0]]]
  {
    hide Matching, LastLive, Rewrite, Drop, Erased;
    LiveBefore(s, key);
    ErasedIsRewrite(s, key, m);
    RewriteParts(s, key, s.rows[2 * m], s.rows[2 * m + 1][0 := s.values[key][0]]);
  }

  lemma ErasedIsRewrite(s: Store, key: Text, m: nat)
    requires Matching(s) && key in s.values && LastLive(s.rows, s.index[key]) == m < s.index[key]
    ensures key in s.index && |s.rows| == 2 * s.count && 0 <= s.index[key] < s.count
    ensures Matching(Drop(s, key)) && s.rows[2 * m] in s.values - {key} && s.rows[2 * m + 1] != [] && s.values[key] != []
    ensures s.rows[2 * m] in Drop(s, key).values &&
            Erased(s, key) == Rewrite(Drop(s, key), s.rows[2 * m], s.rows[2 * m + 1][0 := s.values[key][0]])
  {
    hide Matching, LastLive, Rewrite, Drop;
    PairOf(s, key);
    DropMatches(s, key);
    DropParts(s, key);
    LiveBefore(s, key);
  }

  lemma ExactRows(s: Store, key: Text, i: nat, m: nat)
    requires key in s.index && s.index[key] == i < s.count && m <= i && 2 * i + 1 < |s.rows|
    requires s.rows[2 * i] != [] && s.rows[2 * i + 1] != [] && key in s.values && s.values[key] == s.rows[2 * i + 1]
    requires Matching(s) && LastLive(s.rows, i) == m
    ensures EraseRows(s.rows, i) == Erased(s, key).rows
  {
    hide Matching, EraseRows, Erased, Nearest, LastLive, Overwritten;
    NearestValue(s, i);
    EraseRowsTwice(s.rows, i);
    if m == i {
      ErasedFirst(s, key);
    } else {
      LiveBefore(s, key);
      ErasedLater(s, key, i, m);
    }
  }

  /** Deleting the rows of a pair leaves what Erased says. */
  lemma EraseRowsExact(s: Store, key: Text)
    requires Matching(s) && key in s.values
    ensures EraseRows(s.rows, s.index[key]) == Erased(s, key).rows
  {
    hide Matching, EraseRows, Erased, Nearest, LastLive, Overwritten;
    PairOf(s, key);
    ExactRows(s, key, s.index[key], LastLive(s.rows, s.index[key]));
  }

  lemma ErasedValues(s: Store, key: Text)
    requires Matching(s) && key in s.values
    ensures var m, rest := LastLive(s.rows, s.index[key]), s.values - {key};
            Erased(s, key).values ==
            if m == s.index[key] then rest else rest[s.rows[2 * m] := s.rows[2 * m + 1][0 := s.values[key][0]]]
  {
    hide Matching, Erased, LastLive, Overwritten;
    PairOf(s, key);
    if LastLive(s.rows, s.index[key]) == s.index[key] {
      ErasedFirst(s, key);
    } else {
      LiveBefore(s, key);
      ErasedLaterValues(s, key, s.index[key], LastLive(s.rows, s.index[key]));
    }
  }

  lemma PairOf(s: Store, key: Text)
    requires Matching(s) && key in s.values
    ensures key in s.index && |s.rows| == 2 * s.count && 0 <= s.index[key] < s.count
    ensures s.rows[2 * s.index[key]] == key != [] && s.rows[2 * s.index[key] + 1] == s.values[key] != []
  {
  }

  lemma DropParts(s: Store, key: Text)
    requires Matching(s) && key in s.values
    ensures key in s.index && 0 <= s.index[key] && 2 * s.index[key] + 1 < |s.rows|
    ensures Drop(s, key).rows == s.rows[2 * s.index[key] := []][2 * s.index[key] + 1 := []]
    ensures Drop(s, key).values == s.values - {key}
  {
    PairOf(s, key);
  }

  lemma RewriteParts(s: Store, key: Text, k: Text, v: Text)
    requires Matching(s) && key in s.values && Matching(Drop(s, key)) && k in s.values && k != key
    ensures k in s.index && key in s.index && 0 <= s.index[k] && 2 * s.index[k] + 1 < |s.rows|
    ensures 0 <= s.index[key] && 2 * s.index[key] + 1 < |s.rows|
    ensures Rewrite(Drop(s, key), k, v).rows ==
            s.rows[2 * s.index[key] := []][2 * s.index[key] + 1 := []][2 * s.index[k] + 1 := v]
    ensures Rewrite(Drop(s, key), k, v).values == (s.values - {key})[k := v]
  {
    PairOf(s, key);
    PairOf(s, k);
    hide Matching;
  }

  /** A restart after an erasure rebuilds the map without the key, but with the first character
      of the erased value in the last pair in use before it. */
  lemma EraseRecovers(s: Store, key: Text)
    requires Matching(s) && Usable(s) && key in s.values
    ensures var m, rest := LastLive(s.rows, s.index[key]), s.values - {key};
            Recovered(AfterErase(s, key).rows) ==
            if m == s.index[key] then rest else rest[s.rows[2 * m] := s.rows[2 * m + 1][0 := s.values[key][0]]]
  {
    EraseRowsExact(s, key);
    MatchingRecovers(Erased(s, key));
    ErasedValues(s, key);
    hide Recovered, EraseRows, Erased, LastLive;
  }

  /** Nothing before the key is in use, or the value before it begins with the same character. */
  ghost predicate Clean(s: Store, key: Text)
    requires Matching(s)
  {
    key in s.values && LastLive(s.rows, s.index[key]) < s.index[key] ==> (
        LiveBefore(s, key);
        s.rows[2 * LastLive(s.rows, s.index[key]) + 1][0] == s.values[key][0])
  }

  lemma RewriteSame(s: Store, key: Text)
    requires Matching(s) && key in s.values
    ensures Rewrite(s, key, s.values[key]) == s
  {
  }

  lemma CleanValue(s: Store, key: Text, m: nat)
    requires Matching(s) && key in s.values && Clean(s, key) && LastLive(s.rows, s.index[key]) == m < s.index[key]
    ensures var k, v := s.rows[2 * m], s.rows[2 * m + 1];
            v != [] && s.values[key] != [] && v[0 := s.values[key][0]] == v &&
            k in Drop(s, key).values && Drop(s, key).values[k] == v
  {
    LiveBefore(s, key);
    DropParts(s, key);
    PairOf(s, key);
    var v := s.rows[2 * m + 1];
    assert v[0] == s.values[key][0];
    hide Matching, Clean, LastLive, Drop;
    assert v[0 := s.values[key][0]] == v;
  }

  lemma ErasedIsDrop(s: Store, key: Text)
    requires Matching(s) && key in s.values && Clean(s, key)
    ensures Erased(s, key) == Drop(s, key)
  {
    PairOf(s, key);
    var m := LastLive(s.rows, s.index[key]);
    if m < s.index[key] {
      hide Matching, Rewrite, Drop, Erased, LastLive, Clean;
      ErasedIsRewrite(s, key, m);
      CleanValue(s, key, m);
      RewriteSame(Drop(s, key), s.rows[2 * m]);
    } else {
      hide Matching, Rewrite, Drop, LastLive, Clean;
    }
  }

  lemma CleanMatches(s: Store, key: Text)
    requires Matching(s) && Usable(s) && Clean(s, key)
    ensures Matching(AfterErase(s, key))
  {
    if key in s.values {
      EraseRowsExact(s, key);
      ErasedIsDrop(s, key);
      hide Matching, Erased, EraseRows;
    }
  }

  lemma UncleanDiffers(s: Store, key: Text)
    requires Matching(s) && Usable(s) && !Clean(s, key)
    ensures Recovered(AfterErase(s, key).rows) != AfterErase(s, key).values
  {
    EraseRecovers(s, key);
    LiveBefore(s, key);
    var m := LastLive(s.rows, s.index[key]);
    var k, v, c := s.rows[2 * m], s.rows[2 * m + 1], s.values[key][0];
    assert v[0] != c && AfterErase(s, key).values[k] == v;
    hide Recovered, EraseRows, Matching, Clean, LastLive;
    assert v[0 := c][0] == c;
    assert Recovered(AfterErase(s, key).rows)[k] == v[0 := c];
  }

  /** An erasure leaves a page that recovers to the map in memory exactly if it is clean. */
  lemma EraseFaithful(s: Store, key: Text)
    requires Matching(s) && Usable(s)
    ensures Recovered(AfterErase(s, key).rows) == AfterErase(s, key).values <==> Clean(s, key)
  {
    if Clean(s, key) {
      CleanMatches(s, key);
      MatchingRecovers(AfterErase(s, key));
    } else {
      UncleanDiffers(s, key);
    }
    hide Recovered, EraseRows, Matching, Clean;
  }

  /** A set of a key that is there erases it first. */
  lemma SetErases(s: Store, key: Text, value: Text)
    requires Usable(s)
    ensures key !in AfterErase(s, key).values
    ensures AfterSet(AfterErase(s, key), key, value) == AfterSet(s, key, value)
    ensures AfterSet(s, key, value).values == s.values[key := value]
  {
    assert (s.values - {key})[key := value] == s.values[key := value];
  }

  // ----- The object -----

  class KVStorage {
    var keys: seq<Text>
    var index: map<Text, int>
    var values: map<Text, Text>
    const page: FP.FlexiblePage

    ghost function State(): Store
      requires page.Valid()
      reads this, page.file
    {
      Store(page.Rows(), |keys|, index, values)
    }

    ghost predicate Valid()
      reads this, page.file
    {
      page.Valid() && Usable(State())
    }

    /** Recovery from the rows of an existing page. */
    constructor (page: FP.FlexiblePage)
      requires page.Valid()
      ensures Valid() && this.page == page
      ensures State() == Restarted(page.Rows())
    {
      hide FP.FileCells, Sound, RowList, Usable;
      this.page := page;
      keys, index, values := [], map[], map[];
      new;
      var i := 0;
      var count := page.GetRowCount();
      while 2 * i + 1 < count
        invariant 0 <= 2 * i <= count == |page.Rows()| && keys == []
        invariant values == Pairs(page.Rows(), i) && index == Indices(page.Rows(), i)
      {
        var key := page.GetRow(2 * i);
        var value := page.GetRow(2 * i + 1);
        if key.value != [] && value.value != [] {
          values := values[key.value := value.value];
          index := index[key.value := i / 2];
        }
        i := i + 1;
      }
      UsableAtStart(page.Rows());
    }

    method Erase(key: Text)
      requires Valid()
      modifies this, page.file
      ensures Valid() && State() == AfterErase(old(State()), key)
    {
      hide FP.FileCells, Sound, RowList, DeletedRows, Deleted;
      if key !in values {
        return;
      }
      values := values - {key};
      var i := index[key];
      index := index - {key};
      page.DeleteRow(2 * i);
      page.DeleteRow(2 * i + 1);
    }

    method AppendPair(key: Text, value: Text)
      requires page.Valid() && Room(page.Cells(), page.size, key, value)
      modifies page.file
      ensures page.Valid() && page.Rows() == old(page.Rows()) + [key, value]
      ensures page.Cells() == ApplyAll(old(page.Cells()), SetWrites(old(page.Cells()), page.size, key, value))
    {
      hide Sound, Fits, RowList, FP.FileCells, ApplyAll, Inserted, SetWrites;
      ghost var cells, rows := page.Cells(), page.Rows();
      RoomForBoth(cells, page.size, key, value);
      var ret := page.InsertRow(key);
      assert ret.0;
      ret := page.InsertRow(value);
      assert ret.0;
      SetWritesInsert(cells, page.size, key, value);
      assert rows + [key] + [value] == rows + [key, value];
    }

    /** Set of a key that the storage does not hold: its cell writes are SetWrites, in that order. */
    method SetNew(key: Text, value: Text)
      requires Valid() && key !in index && Room(page.Cells(), page.size, key, value)
      modifies this, page.file
      ensures Valid() && State() == AfterSet(old(State()), key, value)
      ensures page.Cells() == ApplyAll(old(page.Cells()), SetWrites(old(page.Cells()), page.size, key, value))
    {
      hide FP.FileCells, Sound, RowList, ApplyAll;
      keys := keys + [[]];
      index := index[key := |keys| - 1];
      AppendPair(key, value);
      values := values[key := value];
    }

    method Set(key: Text, value: Text)
      requires Valid()
      requires Space((if key in index then AfterErase(State(), key) else State()).rows, page.size, key, value)
      modifies this, page.file
      ensures Valid() && State() == AfterSet(old(State()), key, value)
    {
      SetErases(State(), key, value);
      if key in index {
        Erase(key);
      }
      SpaceIsRoom(page.Cells(), page.size, key, value);
      SetNew(key, value);
    }
  }
}
