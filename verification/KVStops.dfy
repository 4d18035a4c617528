/** An erasure that stops between two of its cell writes: what a restart recovers then. An erasure
    deletes the key row and then the value row, each with the writes that CellStops lists. */
module KVStops {
  import opened Rows
  import opened CellPage
  import opened CellStops
  import opened KVStorage

  // ----- A deletion stopped anywhere -----

  /** Down to which cell the first loop has copied after m writes. */
  ghost function CopiedTo(cells: seq<cell>, size: nat, k: nat, m: nat): (lo: nat)
    requires Sound(cells, size) && k < Count(cells) && 0 < m <= 1 + Copies(cells, size, k)
    ensures Reached(cells, size, k, lo)
  {
    size - Sum(Lengths(cells, size)) + Copies(cells, size, k) - (m - 1)
  }

  /** Up to which cell the second loop has cleared. */
  ghost function ClearedTo(cells: seq<cell>, size: nat, k: nat, m: nat): (hi: nat)
    requires Sound(cells, size) && k < Count(cells) && 1 + Copies(cells, size, k) < m <= |DeleteWrites(cells, size, k)|
    ensures hi <= size - Sum(Lengths(cells, size)) + Lengths(cells, size)[k]
  {
    size - Sum(Lengths(cells, size)) + (m - 1 - Copies(cells, size, k))
  }

  lemma StopAtIs(cells: seq<cell>, size: nat, k: nat, m: nat)
    requires Sound(cells, size) && k < Count(cells) && m <= |DeleteWrites(cells, size, k)|
    ensures StopAt(cells, size, k, m) ==
            if m == 0 then cells
            else if m <= 1 + Copies(cells, size, k) then Stopped(cells, size, k, CopiedTo(cells, size, k, m))
            else Cleared(cells, size, k, ClearedTo(cells, size, k, m))
  {
    hide Stopped, Cleared, Sum;
  }

  /** The rows from row j on are not disturbed when the first m writes of a deletion are done. */
  ghost predicate RestUndisturbed(cells: seq<cell>, size: nat, k: nat, m: nat, from: nat)
    requires Sound(cells, size) && k < Count(cells)
  {
    0 < m <= 1 + Copies(cells, size, k) ==> Undisturbed(cells, size, k, CopiedTo(cells, size, k, m), from)
  }

  lemma StopRest(cells: seq<cell>, size: nat, k: nat, m: nat, from: nat)
    requires Sound(cells, size) && k < Count(cells) && k < from && m <= |DeleteWrites(cells, size, k)|
    ensures var r := StopAt(cells, size, k, m);
            Sound(r, size) && Count(r) == Count(cells) &&
            (SameFrom(cells, r, size, from) <==> RestUndisturbed(cells, size, k, m, from))
  {
    hide Sum, Stopped, Cleared, Undisturbed, SameFrom, Sound, StopAt, CopiedTo, ClearedTo, DeleteWrites, Copies, Lengths;
    StopAtIs(cells, size, k, m);
    if m == 0 {
      SameAsItself(cells, size, from);
    } else if m <= 1 + Copies(cells, size, k) {
      StoppedLaterRows(cells, size, k, CopiedTo(cells, size, k, m), from);
    } else {
      ClearedRest(cells, size, k, ClearedTo(cells, size, k, m), from);
    }
  }

  lemma SameAsItself(cells: seq<cell>, size: nat, from: nat)
    requires Sound(cells, size)
    ensures SameFrom(cells, cells, size, from)
  {
  }

  lemma ClearedRest(cells: seq<cell>, size: nat, k: nat, hi: nat, from: nat)
    requires Sound(cells, size) && k < Count(cells) && k < from
    requires hi <= size - Sum(Lengths(cells, size)) + Lengths(cells, size)[k]
    ensures var r := Cleared(cells, size, k, hi);
            Sound(r, size) && Count(r) == Count(cells) && SameFrom(cells, r, size, from)
  {
    hide Sum, Cleared, Lengths, RowAt;
    ClearedRows(cells, size, k, hi);
    var r := Cleared(cells, size, k, hi);
    forall j | from <= j < Count(cells) ensures RowAt(r, size, j) == RowAt(cells, size, j) {
      assert RowList(r, size)[j] == DeletedRows(RowList(cells, size), k)[j];
    }
  }

  /** The row itself is empty after the first write, and those before it have changed after the
      second. */
  lemma StopHead(cells: seq<cell>, size: nat, k: nat, m: nat, j: nat)
    requires Sound(cells, size) && k < Count(cells) && 0 < m <= |DeleteWrites(cells, size, k)| && j <= k
    ensures var r, rows := StopAt(cells, size, k, m), RowList(cells, size);
            Sound(r, size) && Count(r) == Count(cells) &&
            RowAt(r, size, j) == if j == k then [] else if m == 1 then rows[j] else DeletedRows(rows, k)[j]
  {
    StopAtIs(cells, size, k, m);
    if m <= 1 + Copies(cells, size, k) {
      CopiedToTop(cells, size, k, m);
      hide Sum, Stopped, Cleared, Sound, StopAt, CopiedTo, ClearedTo, DeleteWrites, Copies, Lengths, DeletedRows, RowAt;
      StoppedEarlierRow(cells, size, k, CopiedTo(cells, size, k, m), j);
    } else {
      hide Sum, Stopped, Cleared, Sound, StopAt, CopiedTo, ClearedTo, DeleteWrites, Lengths, RowAt;
      ClearedRows(cells, size, k, ClearedTo(cells, size, k, m));
      assert RowList(StopAt(cells, size, k, m), size)[j] == DeletedRows(RowList(cells, size), k)[j];
    }
  }

  /** The same for all of these rows. */
  lemma StopHeadRows(cells: seq<cell>, size: nat, k: nat, m: nat)
    requires Sound(cells, size) && k < Count(cells) && 0 < m <= |DeleteWrites(cells, size, k)|
    ensures var r, rows := StopAt(cells, size, k, m), RowList(cells, size);
            Sound(r, size) && Count(r) == Count(cells) && RowList(r, size)[k] == [] &&
            forall j :: 0 <= j < k ==> RowList(r, size)[j] == (if m == 1 then rows else DeletedRows(rows, k))[j]
  {
    hide StopAt, DeleteWrites, RowAt, DeletedRows;
    StopHead(cells, size, k, m, k);
    forall j: nat | j < k
      ensures RowAt(StopAt(cells, size, k, m), size, j)
              == (if m == 1 then RowList(cells, size) else DeletedRows(RowList(cells, size), k))[j]
    {
      StopHead(cells, size, k, m, j);
    }
  }

  lemma CopiedToTop(cells: seq<cell>, size: nat, k: nat, m: nat)
    requires Sound(cells, size) && k < Count(cells) && 0 < m <= 1 + Copies(cells, size, k)
    ensures var ls := Lengths(cells, size);
            CopiedTo(cells, size, k, m) + ls[k] + Sum(ls[..k]) > size <==> m == 1
  {
    hide Sum;
  }

  // ----- The writes of an erasure -----

  /** The page between the two deletions. */
  lemma Between(cells: seq<cell>, size: nat, i: nat)
    requires Sound(cells, size) && 2 * i + 1 < Count(cells)
    ensures var d := Deleted(cells, size, 2 * i);
            Sound(d, size) && Count(d) == Count(cells) && RowList(d, size) == DeletedRows(RowList(cells, size), 2 * i)
  {
    DeleteEmpties(cells, size, 2 * i);
    DeletedLengths(cells, size, 2 * i);
  }

  /** All cell writes of the erasure of pair i, in their order. */
  ghost function EraseWrites(cells: seq<cell>, size: nat, i: nat): (ws: seq<Write>)
    requires Sound(cells, size) && 2 * i + 1 < Count(cells)
    ensures Within(cells, ws) && |ws| > |DeleteWrites(cells, size, 2 * i)|
  {
    Between(cells, size, i);
    DeleteWrites(cells, size, 2 * i) + DeleteWrites(Deleted(cells, size, 2 * i), size, 2 * i + 1)
  }

  /** The page after the first m of them. */
  ghost function EraseStop(cells: seq<cell>, size: nat, i: nat, m: nat): (r: seq<cell>)
    requires Sound(cells, size) && 2 * i + 1 < Count(cells)
    ensures |r| == |cells|
  {
    Between(cells, size, i);
    var w := |DeleteWrites(cells, size, 2 * i)|;
    if m <= w then StopAt(cells, size, 2 * i, m)
    else StopAt(Deleted(cells, size, 2 * i), size, 2 * i + 1, m - w)
  }

  lemma PrefixIsEraseStop(cells: seq<cell>, size: nat, i: nat, m: nat)
    requires Sound(cells, size) && 2 * i + 1 < Count(cells) && m <= |EraseWrites(cells, size, i)|
    ensures var ws := EraseWrites(cells, size, i)[..m];
            Within(cells, ws) && ApplyAll(cells, ws) == EraseStop(cells, size, i, m)
  {
    hide StopAt, DeleteWrites, Deleted, Sound;
    Between(cells, size, i);
    var d := Deleted(cells, size, 2 * i);
    var a, b := DeleteWrites(cells, size, 2 * i), DeleteWrites(d, size, 2 * i + 1);
    if m <= |a| {
      PrefixIsStop(cells, size, 2 * i, m);
      assert (a + b)[..m] == a[..m];
    } else {
      DeleteWritesDelete(cells, size, 2 * i);
      PrefixIsStop(d, size, 2 * i + 1, m - |a|);
      ApplyConcat(cells, a, b[..m - |a|]);
      assert (a + b)[..m] == a + b[..m - |a|];
    }
  }

  // ----- The rows of a stopped erasure -----

  /** The pairs behind pair i are not disturbed when the first m writes are done. */
  ghost predicate Kept(cells: seq<cell>, size: nat, i: nat, m: nat)
    requires Sound(cells, size) && 2 * i + 1 < Count(cells)
  {
    Between(cells, size, i);
    var w := |DeleteWrites(cells, size, 2 * i)|;
    if m <= w then RestUndisturbed(cells, size, 2 * i, m, 2 * i + 2)
    else RestUndisturbed(Deleted(cells, size, 2 * i), size, 2 * i + 1, m - w, 2 * i + 2)
  }

  /** The character that has replaced the first one of the nearest earlier row: none at first, then
      the key's, then the value's. */
  ghost function StopChar(cells: seq<cell>, size: nat, i: nat, m: nat): Option<byte>
    requires Sound(cells, size) && 2 * i + 1 < Count(cells)
  {
    var w, rows := |DeleteWrites(cells, size, 2 * i)|, RowList(cells, size);
    if m <= 1 || rows[2 * i] == [] || rows[2 * i + 1] == [] then None
    else if m <= w + 1 then Some(rows[2 * i][0])
    else Some(rows[2 * i + 1][0])
  }

  /** Rows without the key of pair i, whatever is left in the value's place, and with another first
      character in row n. */
  ghost predicate Headed(rows: seq<Text>, i: nat, n: nat, c: Option<byte>, r: seq<Text>)
    requires 2 * i + 1 < |rows|
  {
    |r| == |rows| && r[2 * i] == [] &&
    (forall j :: 0 <= j < 2 * i ==>
       r[j] == if j == n && c.Some? && rows[j] != [] then rows[j][0 := c.value] else rows[j])
  }

  lemma StopHeaded(cells: seq<cell>, size: nat, i: nat, m: nat)
    requires Sound(cells, size) && 2 * i + 1 < Count(cells) && 0 < m <= |EraseWrites(cells, size, i)|
    requires RowList(cells, size)[2 * i] != [] && RowList(cells, size)[2 * i + 1] != []
    ensures var r, rows := EraseStop(cells, size, i, m), RowList(cells, size);
            Sound(r, size) && Count(r) == Count(cells) &&
            Headed(rows, i, Nearest(rows, 2 * i), StopChar(cells, size, i, m), RowList(r, size))
  {
    hide StopAt, DeleteWrites, Deleted, Sound, RowList, Nearest, DeletedRows, Headed;
    Between(cells, size, i);
    var rows, w := RowList(cells, size), |DeleteWrites(cells, size, 2 * i)|;
    if m <= w {
      StopHeadRows(cells, size, 2 * i, m);
      TwoHeads(rows, i);
      var r := RowList(StopAt(cells, size, 2 * i, m), size);
      if m == 1 {
        UnchangedHeaded(rows, i, Nearest(rows, 2 * i), r);
      } else {
        SameHeaded(rows, i, Nearest(rows, 2 * i), Some(rows[2 * i][0]), DeletedRows(rows, 2 * i), r);
      }
    } else {
      SecondHeaded(cells, size, i, m - w);
    }
  }

  lemma UnchangedHeaded(rows: seq<Text>, i: nat, n: nat, r: seq<Text>)
    requires 2 * i + 1 < |rows| == |r| && r[2 * i] == [] && forall j :: 0 <= j < 2 * i ==> r[j] == rows[j]
    ensures Headed(rows, i, n, None, r)
  {
  }

  lemma SameHeaded(rows: seq<Text>, i: nat, n: nat, c: Option<byte>, x: seq<Text>, r: seq<Text>)
    requires 2 * i + 1 < |rows| && Headed(rows, i, n, c, x) && |r| == |x| && r[2 * i] == []
    requires forall j :: 0 <= j < 2 * i ==> r[j] == x[j]
    ensures Headed(rows, i, n, c, r)
  {
  }

  lemma SecondHeaded(cells: seq<cell>, size: nat, i: nat, m: nat)
    requires Sound(cells, size) && 2 * i + 1 < Count(cells)
    requires RowList(cells, size)[2 * i] != [] && RowList(cells, size)[2 * i + 1] != []
    requires var d := Deleted(cells, size, 2 * i);
             Sound(d, size) && Count(d) == Count(cells) && 0 < m <= |DeleteWrites(d, size, 2 * i + 1)|
    ensures var r, rows := StopAt(Deleted(cells, size, 2 * i), size, 2 * i + 1, m), RowList(cells, size);
            Sound(r, size) && Count(r) == Count(cells) &&
            Headed(rows, i, Nearest(rows, 2 * i), Some(if m == 1 then rows[2 * i][0] else rows[2 * i + 1][0]), RowList(r, size))
  {
    hide StopAt, DeleteWrites, Deleted, Sound, RowList, Nearest, DeletedRows, Headed;
    Between(cells, size, i);
    var rows, d := RowList(cells, size), Deleted(cells, size, 2 * i);
    var rows1 := DeletedRows(rows, 2 * i);
    StopHeadRows(d, size, 2 * i + 1, m);
    TwoHeads(rows, i);
    var r := RowList(StopAt(d, size, 2 * i + 1, m), size);
    if m == 1 {
      KeyRowEmpty(rows, i, Nearest(rows, 2 * i), Some(rows[2 * i][0]), rows1);
      SameHeaded(rows, i, Nearest(rows, 2 * i), Some(rows[2 * i][0]), rows1, r);
    } else {
      KeyRowEmpty(rows, i, Nearest(rows, 2 * i), Some(rows[2 * i + 1][0]), DeletedRows(rows1, 2 * i + 1));
      SameHeaded(rows, i, Nearest(rows, 2 * i), Some(rows[2 * i + 1][0]), DeletedRows(rows1, 2 * i + 1), r);
    }
  }

  lemma KeyRowEmpty(rows: seq<Text>, i: nat, n: nat, c: Option<byte>, x: seq<Text>)
    requires 2 * i + 1 < |rows| && Headed(rows, i, n, c, x)
    ensures |x| == |rows| && x[2 * i] == []
  {
  }

  /** The rows before a pair after its first deletion and after both. */
  lemma TwoHeads(rows: seq<Text>, i: nat)
    requires 2 * i + 1 < |rows| && rows[2 * i] != [] && rows[2 * i + 1] != []
    ensures var rows1 := DeletedRows(rows, 2 * i);
            Headed(rows, i, Nearest(rows, 2 * i), Some(rows[2 * i][0]), rows1) &&
            Headed(rows, i, Nearest(rows, 2 * i), Some(rows[2 * i + 1][0]), DeletedRows(rows1, 2 * i + 1))
  {
    EraseRowsTwice(rows, i);
    hide Nearest;
  }

  lemma StopTail(cells: seq<cell>, size: nat, i: nat, m: nat)
    requires Sound(cells, size) && 2 * i + 1 < Count(cells) && m <= |EraseWrites(cells, size, i)| && Kept(cells, size, i, m)
    ensures var r, rows := EraseStop(cells, size, i, m), RowList(cells, size);
            Sound(r, size) && Count(r) == Count(cells) && forall j :: 2 * i + 2 <= j < |rows| ==> RowList(r, size)[j] == rows[j]
  {
    hide StopAt, DeleteWrites, Deleted, Sound, RestUndisturbed, Nearest, RowList, SameFrom, DeletedRows;
    Between(cells, size, i);
    var w := |DeleteWrites(cells, size, 2 * i)|;
    if m <= w {
      StopRest(cells, size, 2 * i, m, 2 * i + 2);
      SameRows(cells, StopAt(cells, size, 2 * i, m), size, 2 * i + 2);
    } else {
      var d := Deleted(cells, size, 2 * i);
      StopRest(d, size, 2 * i + 1, m - w, 2 * i + 2);
      SameRows(d, StopAt(d, size, 2 * i + 1, m - w), size, 2 * i + 2);
      LaterRowsKept(RowList(cells, size), 2 * i);
    }
  }

  lemma SameRows(cells: seq<cell>, r: seq<cell>, size: nat, from: nat)
    requires Sound(cells, size) && Sound(r, size) && Count(r) == Count(cells) && SameFrom(cells, r, size, from)
    ensures forall j :: from <= j < Count(cells) ==> RowList(r, size)[j] == RowList(cells, size)[j]
  {
    hide RowAt;
  }

  lemma LaterRowsKept(rows: seq<Text>, k: nat)
    requires k < |rows|
    ensures forall j :: k < j < |rows| ==> DeletedRows(rows, k)[j] == rows[j]
  {
  }

  // ----- What a restart recovers -----

  /** A pair without a key is skipped, whatever its value. */
  lemma {:induction false} KeylessPair(rows: seq<Text>, i: nat, x: Text, n: nat)
    requires 2 * n <= |rows| && 2 * i + 1 < |rows| && rows[2 * i] == []
    ensures Pairs(rows[2 * i + 1 := x], n) == Pairs(rows, n)
  {
    if n > 0 {
      KeylessPair(rows, i, x, n - 1);
    }
  }

  /** The map without the key, and with another first character in the value of the last pair in
      use before it. */
  ghost function WithHead(s: Store, key: Text, c: Option<byte>): map<Text, Text>
    requires Matching(s) && key in s.values
  {
    PairOf(s, key);
    var m, rest := LastLive(s.rows, s.index[key]), s.values - {key};
    if m == s.index[key] || c.None? then rest
    else
      LiveBefore(s, key);
      rest[s.rows[2 * m] := s.rows[2 * m + 1][0 := c.value]]
  }

  lemma HeadedRecovers(s: Store, key: Text, r: seq<Text>, c: Option<byte>)
    requires Matching(s) && key in s.values && key in s.index
    requires 0 <= s.index[key] && 2 * s.index[key] + 1 < |s.rows|
    requires Headed(s.rows, s.index[key], Nearest(s.rows, 2 * s.index[key]), c, r)
    requires forall j :: 2 * s.index[key] + 2 <= j < |r| ==> r[j] == s.rows[j]
    ensures Recovered(r) == WithHead(s, key, c)
  {
    hide Matching, LastLive, Nearest, Pairs, Headed, WithHead;
    var i := s.index[key];
    PairOf(s, key);
    KeyRowEmpty(s.rows, i, Nearest(s.rows, 2 * i), c, r);
    KeylessPair(r, i, [], |r| / 2);
    NearestValue(s, i);
    if LastLive(s.rows, i) == i || c.None? {
      HeadUnchanged(s, key, r, c);
    } else {
      LiveBefore(s, key);
      HeadChanged(s, key, r, c.value, LastLive(s.rows, i));
    }
  }

  lemma HeadUnchanged(s: Store, key: Text, r: seq<Text>, c: Option<byte>)
    requires Matching(s) && key in s.values && key in s.index
    requires 0 <= s.index[key] && 2 * s.index[key] + 1 < |s.rows| == |r|
    requires LastLive(s.rows, s.index[key]) == s.index[key] || c.None?
    requires Headed(s.rows, s.index[key], Nearest(s.rows, 2 * s.index[key]), c, r)
    requires c.Some? ==> Nearest(s.rows, 2 * s.index[key]) == 2 * s.index[key]
    requires forall j :: 2 * s.index[key] + 2 <= j < |r| ==> r[j] == s.rows[j]
    ensures Recovered(r[2 * s.index[key] + 1 := []]) == WithHead(s, key, c)
  {
    hide Matching, LastLive, Nearest, Pairs, Drop;
    PairOf(s, key);
    DropParts(s, key);
    DropMatches(s, key);
    MatchingRecovers(Drop(s, key));
    assert r[2 * s.index[key] + 1 := []] == Drop(s, key).rows;
  }

  lemma HeadChanged(s: Store, key: Text, r: seq<Text>, c: byte, m: nat)
    requires Matching(s) && key in s.values && key in s.index
    requires 0 <= s.index[key] && 2 * s.index[key] + 1 < |s.rows| == |r|
    requires LastLive(s.rows, s.index[key]) == m < s.index[key] && s.rows[2 * m + 1] != []
    requires Headed(s.rows, s.index[key], 2 * m + 1, Some(c), r)
    requires forall j :: 2 * s.index[key] + 2 <= j < |r| ==> r[j] == s.rows[j]
    ensures Recovered(r[2 * s.index[key] + 1 := []]) == WithHead(s, key, Some(c))
  {
    hide Matching, LastLive, Nearest, Headed, Recovered, WithHead;
    PairOf(s, key);
    LiveBefore(s, key);
    PairOf(s, s.rows[2 * m]);
    HeadedRows(s.rows, s.index[key], 2 * m + 1, c, r);
    WithHeadIs(s, key, c, m);
    RewrittenRecovers(s, key, s.rows[2 * m], s.rows[2 * m + 1][0 := c]);
  }

  lemma WithHeadIs(s: Store, key: Text, c: byte, m: nat)
    requires key in s.index && 0 <= s.index[key] && m < s.index[key] && 2 * s.index[key] + 1 < |s.rows|
    requires Matching(s) && key in s.values && LastLive(s.rows, s.index[key]) == m && s.rows[2 * m + 1] != []
    ensures WithHead(s, key, Some(c)) == (s.values - {key})[s.rows[2 * m] := s.rows[2 * m + 1][0 := c]]
  {
    hide Matching, LastLive;
  }

  /** A restart over the page without a pair and with another value in an earlier one. */
  lemma RewrittenRecovers(s: Store, key: Text, k: Text, v: Text)
    requires key in s.index && 0 <= s.index[key] && 2 * s.index[key] + 1 < |s.rows|
    requires k in s.index && 0 <= s.index[k] && 2 * s.index[k] + 1 < |s.rows|
    requires Matching(s) && key in s.values && k in s.values && k != key && v != []
    ensures Recovered(s.rows[2 * s.index[key] := []][2 * s.index[key] + 1 := []][2 * s.index[k] + 1 := v])
            == (s.values - {key})[k := v]
  {
    hide Matching, Drop, Rewrite, Recovered;
    DropMatches(s, key);
    DropParts(s, key);
    RewriteParts(s, key, k, v);
    RewriteMatches(Drop(s, key), k, v);
    MatchingRecovers(Rewrite(Drop(s, key), k, v));
  }

  lemma HeadedRows(rows: seq<Text>, i: nat, n: nat, c: byte, r: seq<Text>)
    requires 2 * i + 1 < |rows| == |r| && n < 2 * i && rows[n] != [] && Headed(rows, i, n, Some(c), r)
    requires forall j :: 2 * i + 2 <= j < |r| ==> r[j] == rows[j]
    ensures r[2 * i + 1 := []] == rows[2 * i := []][2 * i + 1 := []][n := rows[n][0 := c]]
  {
  }

  /** A page that holds the rows of a store. */
  ghost predicate PageOf(cells: seq<cell>, size: nat, s: Store, key: Text) {
    Sound(cells, size) && RowList(cells, size) == s.rows && Matching(s) && key in s.values &&
    key in s.index && 0 <= s.index[key] && 2 * s.index[key] + 1 < |s.rows| == Count(cells)
  }

  /** An erasure stopped after any number of writes, with the pairs behind undisturbed: a restart
      recovers the old map before the first write, and then the map without the key, in which the
      last value in use before it begins with what has been copied there. */
  lemma StoppedErase(cells: seq<cell>, size: nat, s: Store, key: Text, m: nat)
    requires PageOf(cells, size, s, key) && m <= |EraseWrites(cells, size, s.index[key])|
    requires Kept(cells, size, s.index[key], m)
    ensures var i, r := s.index[key], EraseStop(cells, size, s.index[key], m);
            Sound(r, size) &&
            Recovered(RowList(r, size)) ==
            if m == 0 then s.values else WithHead(s, key, StopChar(cells, size, i, m))
  {
    hide EraseStop, EraseWrites, Kept, StopChar, Nearest, Recovered, Headed, RowList;
    var i := s.index[key];
    PairOf(s, key);
    StopTail(cells, size, i, m);
    if m == 0 {
      NothingWritten(cells, size, i);
      MatchingRecovers(s);
    } else {
      StopHeaded(cells, size, i, m);
      HeadedRecovers(s, key, RowList(EraseStop(cells, size, i, m), size), StopChar(cells, size, i, m));
    }
  }

  lemma NothingWritten(cells: seq<cell>, size: nat, i: nat)
    requires Sound(cells, size) && 2 * i + 1 < Count(cells)
    ensures EraseStop(cells, size, i, 0) == cells
  {
  }

  /** That is the map without the key exactly if no pair before is in use, nothing has been copied
      yet, or the copied character was there. */
  lemma WithHeadIsErased(s: Store, key: Text, c: Option<byte>)
    requires Matching(s) && key in s.values && key in s.index
    requires 0 <= s.index[key] && 2 * s.index[key] + 1 < |s.rows|
    ensures var i, m := s.index[key], LastLive(s.rows, s.index[key]);
            key !in WithHead(s, key, c) &&
            (WithHead(s, key, c) == s.values - {key} <==>
             m == i || c.None? || (s.rows[2 * m + 1] != [] && s.rows[2 * m + 1][0] == c.value))
  {
    PairOf(s, key);
    var m := LastLive(s.rows, s.index[key]);
    if m < s.index[key] && c.Some? {
      LiveBefore(s, key);
      hide Matching, LastLive;
      var v := s.rows[2 * m + 1];
      assert v[0] == c.value ==> v[0 := c.value] == v;
      assert v[0 := c.value][0] == c.value;
    }
  }

  // ----- Which erasures may stop anywhere -----

  /** The pairs behind stay undisturbed throughout. */
  ghost predicate KeptThroughout(cells: seq<cell>, size: nat, i: nat)
    requires Sound(cells, size) && 2 * i + 1 < Count(cells)
  {
    forall m: nat :: m <= |EraseWrites(cells, size, i)| ==> Kept(cells, size, i, m)
  }

  /** No pair before the key is in use, or the last value in use before it begins like the key and
      like the key's value. */
  ghost predicate SameHeads(s: Store, key: Text)
    requires Matching(s) && key in s.values
  {
    PairOf(s, key);
    var m := LastLive(s.rows, s.index[key]);
    m < s.index[key] ==>
      (LiveBefore(s, key);
       s.rows[2 * m + 1][0] == key[0] && s.rows[2 * m + 1][0] == s.values[key][0])
  }

  /** Recovery of the old map or the one without the key, wherever the erasure stops. */
  ghost predicate EraseSafe(cells: seq<cell>, size: nat, s: Store, key: Text)
    requires PageOf(cells, size, s, key)
  {
    forall m: nat :: m <= |EraseWrites(cells, size, s.index[key])| ==>
      var r := EraseStop(cells, size, s.index[key], m);
      Sound(r, size) && (Recovered(RowList(r, size)) == s.values || Recovered(RowList(r, size)) == s.values - {key})
  }

  /** With the pairs behind undisturbed, an erasure may stop anywhere exactly if the heads agree. */
  lemma EraseStopsSafely(cells: seq<cell>, size: nat, s: Store, key: Text)
    requires PageOf(cells, size, s, key) && KeptThroughout(cells, size, s.index[key])
    ensures EraseSafe(cells, size, s, key) <==> SameHeads(s, key)
  {
    hide EraseStop, EraseWrites, Kept, StopChar, Recovered, RowList, Sound, WithHead;
    var i := s.index[key];
    var n := |EraseWrites(cells, size, i)|;
    PairOf(s, key);
    forall m: nat | m <= n
      ensures var r := EraseStop(cells, size, i, m);
              Sound(r, size) &&
              (Recovered(RowList(r, size)) == s.values || Recovered(RowList(r, size)) == s.values - {key} <==>
               m == 0 || WithHead(s, key, StopChar(cells, size, i, m)) == s.values - {key})
    {
      StoppedErase(cells, size, s, key, m);
      WithHeadIsErased(s, key, StopChar(cells, size, i, m));
    }
    HeadsSeen(cells, size, s, key);
    forall m: nat | 0 < m <= n
      ensures SameHeads(s, key) ==> WithHead(s, key, StopChar(cells, size, i, m)) == s.values - {key}
    {
      WithHeadIsErased(s, key, StopChar(cells, size, i, m));
      StopCharIsHead(cells, size, s, key, m);
    }
  }

  lemma StopCharIsHead(cells: seq<cell>, size: nat, s: Store, key: Text, m: nat)
    requires PageOf(cells, size, s, key)
    ensures key != [] && s.values[key] != []
    ensures StopChar(cells, size, s.index[key], m) in {None, Some(key[0]), Some(s.values[key][0])}
  {
    PairOf(s, key);
    hide Matching;
  }

  /** Both heads are seen on the way. */
  lemma HeadsSeen(cells: seq<cell>, size: nat, s: Store, key: Text)
    requires PageOf(cells, size, s, key)
    ensures var i, ws := s.index[key], EraseWrites(cells, size, s.index[key]);
            |ws| >= 2 &&
            ((WithHead(s, key, StopChar(cells, size, i, 2)) == s.values - {key} &&
              WithHead(s, key, StopChar(cells, size, i, |ws|)) == s.values - {key}) <==> SameHeads(s, key))
  {
    hide EraseWrites, StopChar, WithHead, Matching, Sound, SameHeads, LastLive;
    PairOf(s, key);
    StopChars(cells, size, s, key);
    WithHeadIsErased(s, key, Some(key[0]));
    WithHeadIsErased(s, key, Some(s.values[key][0]));
    SameHeadsIs(s, key);
  }

  lemma SameHeadsIs(s: Store, key: Text)
    requires Matching(s) && key in s.values && key in s.index && key != [] && s.values[key] != []
    requires 0 <= s.index[key] && 2 * s.index[key] + 1 < |s.rows|
    ensures var m := LastLive(s.rows, s.index[key]);
            SameHeads(s, key) <==>
            m == s.index[key] || (s.rows[2 * m + 1] != [] && s.rows[2 * m + 1][0] == key[0] && s.rows[2 * m + 1][0] == s.values[key][0])
  {
    if LastLive(s.rows, s.index[key]) < s.index[key] {
      LiveBefore(s, key);
    }
    hide Matching;
  }

  lemma StopChars(cells: seq<cell>, size: nat, s: Store, key: Text)
    requires PageOf(cells, size, s, key)
    ensures var i, n := s.index[key], |EraseWrites(cells, size, s.index[key])|;
            n >= 4 && key != [] && s.values[key] != [] &&
            StopChar(cells, size, i, 2) == Some(key[0]) && StopChar(cells, size, i, n) == Some(s.values[key][0])
  {
    PairOf(s, key);
    Between(cells, size, s.index[key]);
    hide Matching;
  }

  // ----- The last pair in use -----

  /** Behind the last pair in use nothing can be disturbed. */
  lemma LastIsKept(cells: seq<cell>, size: nat, i: nat)
    requires Sound(cells, size) && 2 * i + 1 < Count(cells)
    requires forall j :: 2 * i + 2 <= j < Count(cells) ==> RowList(cells, size)[j] == []
    ensures KeptThroughout(cells, size, i)
  {
    Between(cells, size, i);
    var d := Deleted(cells, size, 2 * i);
    forall j | 2 * i + 2 <= j < Count(cells)
      ensures Lengths(cells, size)[j] == 0 && Lengths(d, size)[j] == 0
    {
      assert |RowList(cells, size)[j]| == Lengths(cells, size)[j];
      assert RowList(d, size)[j] == DeletedRows(RowList(cells, size), 2 * i)[j];
      assert |RowList(d, size)[j]| == Lengths(d, size)[j];
    }
  }

  /** An erasure of the last pair in use may stop anywhere exactly if the heads agree. */
  lemma LastEraseStopsSafely(cells: seq<cell>, size: nat, s: Store, key: Text)
    requires PageOf(cells, size, s, key)
    requires forall j :: 2 * s.index[key] + 2 <= j < |s.rows| ==> s.rows[j] == []
    ensures EraseSafe(cells, size, s, key) <==> SameHeads(s, key)
  {
    LastIsKept(cells, size, s.index[key]);
    EraseStopsSafely(cells, size, s, key);
  }

  // ----- A stop that recovers neither map -----

  lemma {:induction false} SumOnes(ls: seq<nat>)
    requires forall i :: 0 <= i < |ls| ==> ls[i] == 1
    ensures Sum(ls) == |ls|
  {
    if ls != [] {
      SumOnes(ls[1..]);
    }
  }

  /** A page with the rows a, x, b and y. */
  function FourRows(): seq<cell> {
    [4, 1, 1, 1, 1, 121, 98, 120, 97, 0, 0, 0, 0, 0, 0, 0, 0, 0]
  }

  lemma FourRowsSound()
    ensures var cells := FourRows();
            Sound(cells, 9) && Count(cells) == 4 && Lengths(cells, 9) == [1, 1, 1, 1] && Reached(cells, 9, 0, 9)
    ensures forall j: nat :: j < 4 ==> RowStart(Lengths(FourRows(), 9), 9, j) == 8 - j
  {
    var cells := FourRows();
    assert Count(cells) == 4;
    var ls := Lengths(cells, 9);
    assert ls == [1, 1, 1, 1];
    SumOnes(ls);
    assert ls[..0] == [];
    forall j: nat | j < 4 ensures RowStart(ls, 9, j) == 8 - j {
      SumOnes(ls[..j + 1]);
    }
  }

  lemma FourRowsRead()
    ensures var cells := FourRows();
            Sound(cells, 9) && Count(cells) == 4 && RowList(cells, 9) == [[97], [120], [98], [121]]
  {
    var cells := FourRows();
    FourRowsSound();
    forall j: nat | j < 4 ensures RowAt(cells, 9, j) == [CellChar(cells[8 - j])] {
      assert Lengths(cells, 9)[j] == 1 && RowStart(Lengths(cells, 9), 9, j) == 8 - j;
      assert cells[8 - j..9 - j] == [cells[8 - j]];
    }
    hide Sound, RowAt, RowStart, Lengths;
    var rows := RowList(cells, 9);
    assert |rows| == 4 && rows[0] == [97] && rows[1] == [120] && rows[2] == [98] && rows[3] == [121];
  }

  lemma StoppedRow(j: nat)
    requires 1 <= j < 4
    ensures var cells := FourRows();
            Sound(cells, 9) && Count(cells) == 4 &&
            var r := Stopped(cells, 9, 0, 9);
            Sound(r, 9) && Count(r) == 4 && RowAt(r, 9, j) == [CellChar(cells[9 - j])]
  {
    var cells := FourRows();
    FourRowsSound();
    StoppedLaterRow(cells, 9, 0, 9, j, 0);
    hide Sound, Stopped, RowAt;
    assert Lengths(cells, 9)[j] == 1;
  }

  lemma ShiftedRecovers(rows: seq<Text>)
    requires |rows| == 4 && rows[0] == [] && rows[2] != [] && rows[3] != []
    ensures Recovered(rows) == map[rows[2] := rows[3]]
  {
    assert Pairs(rows, 0) == map[];
    assert Pairs(rows, 1) == map[];
  }

  lemma FirstStop()
    ensures var cells := FourRows();
            Sound(cells, 9) && Count(cells) == 4 && 1 < |EraseWrites(cells, 9, 0)| &&
            EraseStop(cells, 9, 0, 1) == Stopped(cells, 9, 0, 9)
  {
    hide Stopped, RowAt, Sound;
    var cells := FourRows();
    FourRowsSound();
    StopAtIs(cells, 9, 0, 1);
    SumOnes(Lengths(cells, 9));
  }

  lemma StoppedFour()
    ensures var cells := FourRows();
            Sound(cells, 9) && Count(cells) == 4 &&
            var r := Stopped(cells, 9, 0, 9);
            Sound(r, 9) && Count(r) == 4 && Recovered(RowList(r, 9)) == map[[120] := [98]]
  {
    hide Sound, Stopped, RowAt, Lengths, Reached, RowStart, Recovered, Sum, DeletedRows;
    var cells := FourRows();
    FourRowsSound();
    StoppedEarlierRow(cells, 9, 0, 9, 0);
    StoppedRow(1);
    StoppedRow(2);
    StoppedRow(3);
    ShiftedRecovers(RowList(Stopped(cells, 9, 0, 9), 9));
  }

  /** An erasure of the first of the pairs a to x and b to y that stops behind its first write: a
      restart finds x bound to b, which is neither the old map nor the new one. */
  lemma StopRecoversNeither()
    ensures var cells := FourRows();
            Sound(cells, 9) && Count(cells) == 4 && RowList(cells, 9) == [[97], [120], [98], [121]] &&
            1 < |EraseWrites(cells, 9, 0)| &&
            var ws := EraseWrites(cells, 9, 0)[..1];
            Within(cells, ws) &&
            var r := ApplyAll(cells, ws);
            Sound(r, 9) && Count(r) == 4 && Recovered(RowList(r, 9)) == map[[120] := [98]]
  {
    hide Sound, Stopped, RowList, Recovered, EraseWrites, EraseStop, FourRows, Within, ApplyAll;
    FourRowsRead();
    FirstStop();
    PrefixIsEraseStop(FourRows(), 9, 0, 1);
    StoppedFour();
  }
}
