# A model of the storage engine

The repository is a small distributed database: chunks that store SQL tables in pages of 4096
bytes, a master that assigns tables to chunks and remembers the assignment in a persistent
key-value file, and nearest-neighbour searches over vectors. This project models the storage
engine and the algorithms around it, and proves that each layer is the simple thing it stands for.

Each imperative part is a class or method over the same state as in the program (frames as byte
arrays, the master's file as an array of nibbles, vectors and maps as fields). Every method is
proved against a specification function on values; the properties are proved about those functions.

* **Index tree** (`BTree*.dfy`, `Slots.dfy`). The pages are byte arrays. `BTreePage` shows that the
  slot operations are sequence operations on the decoded slots; `BTree` composes them into
  insertion, removal and lookup on a heap of pages and equates them with `Insert`, `Remove` and
  `Lookup` of `BTreeModel`; `BTreeMap`, `BTreeSteps` and `BTreeRuns` show that any run of those is
  a plain map. `BTreeDuplicates` and `BTreeScan` give the exact conditions under which an insertion
  keeps the page invariant and a removal keeps the full scan, `BTreeThrows` what a scan gives after
  an insertion that loses entries; `BTreeLosses` has a tree for either failure. `BTreeIterator` is
  the iterator with conditions.
* **Page layer** (`Bytes`, `Schemas`, `Marshal`, `FixedPage`, `Table`, `ClockCache`, `BufferPool`).
* **The master's storage** (`CellPage`, `FlexiblePage`, `CellStops`, `KVStorage`, `KVRuns`,
  `KVStops`): a slotted page of cells, its write order, what a restart recovers after a stop at any
  write of a set and, where the pairs behind are not disturbed, of an erasure, and runs with stops
  and restarts in them.
* **Algorithms**: the k-nearest window on a line (`IndexLine`, `LineTies`), the best-k buffer (`VertexBuffer`),
  chunk allocation (`Balancer`), natural join and ordering (`Join`, `Interpreter`, with
  `QueryMeaning` for what WHERE and ORDER BY mean in numbers), and pairs of printer and reader
  (`Ast`, `Lexer`, `Parser`, `Grammar`, `PrintParse`, `SchemaText`, `NumberText`, `Decimal`).
* **Shared**: `Rows` (values, rows, row ids), `Comparator`, `Seqs`, `OrderedSet` (a `std::set` as
  its ascending list), `Texts`.

## Where the code and its intent differ

The model follows the code; each difference is stated as a lemma or a condition.

* `BTree::insert` does not look for its key, while a leaf page promises unique keys. Where it
  loses nothing, the invariant is kept if and only if the key is absent
  (`BTreeDuplicates.InsertKeepsInvOnlyIfAbsent`).
* An insertion that finds the root page full throws after it has already cut the leaf: the entries
  of the upper half are lost to lookups (`BTreeRuns.ThrowLosesUpperHalf`), while a scan still gives
  them (`BTreeThrows.ThrowKeepsScan`).
* With keys of 1359 to 2032 bytes an internal page has two slots, one of them the invalid first
  (`BTreePage.UsableKeys`). The third `insertEntry` into a new root is then refused, its result is
  ignored, and the insertion returns normally although the upper half of the split root leaf is lost
  to lookups (`BTreeRuns.GrowthLosesUpperHalf`, `BTreeLosses.KeysLost`); a scan still gives it
  (`BTreeThrows.GrowthKeepsScan`). In all, an insertion of an absent key updates the map if and only
  if it does not lose an upper half (`BTreeRuns.InsertCorrect`).
* A split does not refresh the previous link of the old right neighbour, and slot 0 of the root
  keeps naming the leftmost leaf after that leaf is emptied. A removal keeps the scan complete if
  and only if it is safe in the sense of `BTreeScan.SafeRemove`; `BTreeLosses.ScanLost` is a tree of
  three keys in which removing the first makes the scan end at once. Lookups are never affected.
* The first loop of a leaf `split` writes one slot past the page when the capacity is odd
  (`BTreePage.SplitStaysInside`), and leaves of keys longer than 2032 bytes have room for one entry
  only and cannot be split (`BTreePage.UsableKeys`).
* A deletion in the master's page starts its compaction one cell too high: it overwrites the first
  character of the nearest earlier non-empty row (`CellPage.DeleteEmpties`), which is harmless
  exactly in the cases of `CellPage.DeletionIsLocal`. For the key-value storage this means that an
  erasure leaves a page that recovers correctly if and only if it is clean
  (`KVStorage.EraseFaithful`). The 65536th row makes the page read as empty
  (`CellPage.InsertAppends`).
* A restart notes half of each pair's number (`KVRuns.RestartNotesHalves`) and counts from 0 again.
  So an erasure after a restart erases the pair at half the number (`KVRuns.RestartedErase`), which
  is right if and only if the key is that of the first pair (`KVRuns.RestartedEraseFaithful`), and a
  key that is set after a restart can be erased again only if the page was empty
  (`KVRuns.RestartedSet`). `KVRuns.RestartErasesOther` is a page of two pairs on which the wrong pair
  goes. In any state an erasure is right exactly if the noted number is and it is clean
  (`KVRuns.EraseAligned`).
* An erasure that stops between its cell writes may disturb the rows that have not been copied yet,
  and it exactly does where a character differs from the one that lies higher by the deleted length
  (`CellStops.StoppedLaterRows`); a restart may then find neither the old map nor the new one
  (`KVStops.StopRecoversNeither`). Where the pairs behind are not disturbed, `KVStops.StoppedErase` is
  what a restart recovers, and an erasure may stop anywhere if and only if no pair before is in use
  or the last value in use before begins like the key and like its value
  (`KVStops.EraseStopsSafely`); this covers the last pair in use
  (`KVStops.LastEraseStopsSafely`).
* After a stop between the two rows of a pair, the dangling key is ignored on restart, but the next
  pair that is written behind it is read shifted: it is recovered if and only if the number of rows
  is even or key and value both equal the dangling key (`KVStorage.PairRecoveredIff`,
  `KVStorage.DanglingKeyBinds`). So after a stopped set the storage goes on right if and only if the
  stop was not between the two counts (`KVRuns.StopAligned`).
* `lock` bits of the clock are cleared by a sweep, so they do not pin a frame: a slot whose bit is
  set is taken if and only if all bits are set and the hand is at it (`ClockCache.SetSlotTaken`), and
  a frame loses its page on such a miss whether there are references to it or not
  (`BufferPool.FramePool.LosesPage`). The pool theorem is about the frame acquired last.
* An update leaves one position per chunk if and only if every position of the chunk has the
  remembered or the reported size (`Balancer.UpdatedOnce`). An allocation does not tell
  `chunk2Free_`, so after it that holds exactly if the chunk was not cut or the report is what was
  left of it (`Balancer.UpdateAfterAllocation`). A failed allocation has already emptied the positions
  (`Balancer.EnoughIsTotal`).
* The scanner turns `==` into the token of `>` (`PrintParse.EqualsParsesAsGreater`). A printed expression
  parses back if and only if its strings are names, its operators have tokens and its numbers are
  in range (`PrintParse.PrintedParses`).
* On a line with equal projections a point outside the answer may be nearer than its farthest one
  (`LineTies.OutsideMayBeNearer`). `LineTies.AnswerLeavesNothingNearer` and
  `LineTies.BestLeaveNothingNearer` say exactly when none is; distinct projections are enough.

## Model

| member | source | states |
|---|---|---|
| BTreePage.LeafPage.constructor | lib/sql/btree_page.h:397 | the page object works on the frame and codec it was given |
| BTreePage.LeafPage.GetKey | lib/sql/btree_page.h:435-440 | reads the key of the decoded slot at an index |
| BTreePage.LeafPage.SetKey | lib/sql/btree_page.h:442-444 | changes the key of one slot and nothing else of the page, header included |
| BTreePage.LeafPage.GetValue | lib/sql/btree_page.h:457-463 | reads the row id of the decoded slot at an index |
| BTreePage.LeafPage.SetValue | lib/sql/btree_page.h:446-455 | changes the row id of one slot and nothing else of the page |
| BTreePage.LeafPage.IncreaseSize | lib/sql/btree_page.h:422 | adds to the size field modulo 2^32 and touches no slot and no other header field |
| BTreePage.LeafPage.InsertEntry | lib/sql/btree_page.h:519-535 | false and the frame unchanged exactly if the page is full; otherwise the entry list with the new entry at the index, the links kept |
| BTreePage.LeafPage.LowerBound | lib/sql/btree_page.h:538-554 | the index of the first entry whose key is not below the key |
| BTreePage.LeafPage.Remove | lib/sql/btree_page.h:557-576 | true exactly if an entry has the key, which is then taken out of the list; otherwise the frame is unchanged |
| BTreePage.LeafPage.CheckCorrectness | lib/sql/btree_page.h:495-505 | accepts exactly the pages whose keys ascend from slot 1 on |
| BTreePage.LeafPage.Split | lib/sql/btree_page.h:581-599 | into an empty page: the entries are cut at half, left and right together are the old list, links are kept, and the greatest left key is returned |
| BTreePage.SplitStaysInside | lib/sql/btree_page.h:587-590 | the slots that the first loop of a split of a full leaf writes lie inside the page exactly if the capacity is even |
| BTreePage.CapacityHolds | lib/sql/btree_page.h:205-208 | as many slots as the computed capacity fit behind the header of either page kind |
| BTreePage.CapacityIsMost | lib/sql/btree_page.h:411-414 | no more slots fit, in bytes: 16 and the size of a key and 8 for each entry of a leaf, 8 and the size of a key and 4 for each child |
| BTreePage.LeafLayout | lib/sql/btree_page.h:384-465 | which leaf any bytes stand for: kind 3, size, previous and next page in four bytes each, then from byte 16 on the entries, each a key's encoding in the space of a key and the two halves of the row id |
| BTreePage.InternalLayout | lib/sql/btree_page.h:177-256 | which internal page any bytes stand for: kind 2, size, then from byte 8 on the keys with their children, the first key not used |
| BTreePage.MetadataLayout | lib/sql/btree_page.h:120-149 | the metadata page: kind 1 and the root |
| BTreePage.UsableKeys | lib/sql/btree_page.h:205-208 | leaves can be split exactly with keys of at most 2032 bytes, a root has room for both halves exactly up to 1358 bytes, and between them both capacities are 2 |
| BTreePage.EntryKeyWritten | lib/sql/btree_page.h:442-444 | serializing a key at the front of a slot changes the slot's key and keeps its row id |
| BTreePage.EntryPageWritten | lib/sql/btree_page.h:446-450 | writing the page half of a row id keeps the key and the row half |
| BTreePage.LeafSlotWritten | lib/sql/btree_page.h:446-455 | a write inside one slot changes the decoded list at that index only, and no header byte |
| BTreePage.InternalPage.GetKey | lib/sql/btree_page.h:218-223 | reads the key of the decoded slot at an index |
| BTreePage.InternalPage.SetKey | lib/sql/btree_page.h:225-227 | changes the key of one slot and nothing else of the page |
| BTreePage.InternalPage.GetValue | lib/sql/btree_page.h:230-235 | reads the child page of the decoded slot at an index |
| BTreePage.InternalPage.SetValue | lib/sql/btree_page.h:238-243 | changes the child page of one slot and nothing else of the page |
| BTreePage.InternalPage.InsertFirstEntry | lib/sql/btree_page.h:258-262 | the empty page gets the child in slot 0, whose key is not set |
| BTreePage.InternalPage.InsertEntry | lib/sql/btree_page.h:265-279 | false and the frame unchanged exactly if the page is full; otherwise key and child inserted at the index |
| BTreePage.InternalPage.LowerBound | lib/sql/btree_page.h:342-358 | the first slot from 1 on whose key is not below the key, the size if there is none |
| BTreePage.InternalPage.RemoveByIndex | lib/sql/btree_page.h:360-366 | the slot list without the slot at the index |
| BTree.Tree.constructor | lib/sql/btree.cpp:31-49 | a fresh index: a metadata page that names an empty root leaf without neighbours |
| BTree.Tree.SetRootPageIndex | lib/sql/btree_page.h:146-149 | only the root index of the metadata page changes |
| BTree.Tree.AllocateLeaf | lib/sql/btree.h:39-46 | appends one page, an empty leaf; all other pages stay |
| BTree.Tree.AllocateInternal | lib/sql/btree.h:50-57 | appends one page, an empty internal page; all other pages stay |
| BTree.Tree.Descend | lib/sql/btree.cpp:69-93 | ends at the leaf that the separators name for the key, with the internal page and slot taken on the stacks |
| BTree.Tree.SplitAndInsert | lib/sql/btree.cpp:106-136 | on the bytes: the full leaf keeps the lower half, the new page gets the upper half and the leaf's old next link, and the new entry is in the half it belongs to |
| BTree.Tree.EnterHalves | lib/sql/btree.cpp:153-166 | the separator is lowered to the left maximum and the right half entered behind it; false, with the separator already lowered, exactly if the root page is full |
| BTree.Tree.GrowRoot | lib/sql/btree.cpp:176-207 | a new internal root over the two halves, the right one left out without notice if there is no room for it; the halves become the only two leaves of the chain |
| BTree.Tree.InsertKey | lib/sql/btree.cpp:66-214 | the pages after the byte-level insertion decode to the specified insertion, losses included, and it throws exactly where that one does; the leaf capacity matters only if the reached leaf is full |
| BTree.Tree.UnlinkLeaf | lib/sql/btree.cpp:253-268 | the neighbours of an emptied leaf are linked to each other |
| BTree.Tree.RemoveKey | lib/sql/btree.cpp:216-306 | the pages and the result of the byte-level removal are those of the specified removal |
| BTree.Tree.LookupKey | lib/sql/btree.cpp:409-457 | the result of the byte-level lookup is that of the specified lookup |
| BTreeModel.LowerBound | lib/sql/btree_page.h:538-554 | everything before the result is below the key and what is at it is not |
| BTreeMap.DescentSplits | lib/sql/btree.cpp:82-86 | the descent for a key reaches the one leaf such that all entries before it are below the key and all after it above |
| BTreeMap.AllEntriesSorted | lib/sql/btree_page.h:389-392 | under the separator invariant the leaves in slot order hold all entries in strictly ascending order |
| BTreeMap.LookupCorrect | lib/sql/btree.cpp:409-457 | lookup returns exactly what the plain map of all entries holds |
| BTreeMap.LeafInsertIsUpdate | lib/sql/btree.cpp:96-100 | inserting an absent key at its lower bound keeps the list sorted and is the update of the map |
| BTreeSteps.SplitInsertIsInsert | lib/sql/btree.cpp:125-134 | left half followed by right half is the old list with the new entry inserted; the left one has the lower half of the old entries, and the new one if it is below one of them |
| BTreeSteps.SeparatedSplit | lib/sql/btree.cpp:153-166 | the separator invariant survives a split: both halves' maxima become separators |
| BTreeSteps.SeparatedRemove | lib/sql/btree.cpp:269-279 | the separator invariant survives taking out a leaf with its separator |
| BTreeSteps.InsertFits | lib/sql/btree.cpp:94-101 | an insertion into a leaf with room keeps the invariant and inserts into the list of all entries |
| BTreeSteps.InsertGrows | lib/sql/btree.cpp:176-207 | so does one that splits the root leaf, if an internal page has three slots |
| BTreeSteps.InsertGrowsShort | lib/sql/btree.cpp:179-181 | with two slots it returns, keeps the invariant and leaves only the lower half reachable |
| BTreeSteps.InsertSplits | lib/sql/btree.cpp:153-165 | so does one that splits a leaf under a root with room |
| BTreeSteps.InsertThrows | lib/sql/btree.cpp:166 | one that finds the root full keeps the invariant but leaves only the lower half of the split leaf reachable |
| BTreeSteps.RemoveOnList | lib/sql/btree.cpp:216-306 | every removal, leaf deletion and collapse to a fresh root leaf included, keeps the invariant and takes the entry out of the list of all entries |
| BTreeRuns.InsertCorrect | lib/sql/btree.cpp:66-214 | for an absent key: keeps the invariant, throws exactly if leaf and root are full, and updates the plain map at the key if and only if it loses no upper half |
| BTreeRuns.ThrowLosesUpperHalf | lib/sql/btree.cpp:125-166 | after an insertion that throws, exactly the keys of the non-empty upper half are missing from the map |
| BTreeRuns.GrowthLosesUpperHalf | lib/sql/btree.cpp:176-207 | so after a growth of the root into a page of two slots, which returns normally |
| BTreeRuns.LosesUpperHalf | lib/sql/btree.cpp:125-207 | in either case the map is not the updated one |
| BTreeRuns.RemoveCorrect | lib/sql/btree.cpp:216-306 | true exactly if the key was present; the map without the key afterwards, the invariant kept |
| BTreeRuns.RunCorrect | lib/sql/btree.cpp:66-306 | over any run of insertions of absent keys that lose nothing and any removals, from any state with the invariant, the tree holds what the plain map holds |
| BTreeRuns.RunIsMap | lib/sql/btree.cpp:409-457 | from a fresh index, after any such run, lookup and the result of removal are those of the plain map |
| BTreeDuplicates.InsertedEntries | lib/sql/btree.cpp:94-207 | where an insertion that loses nothing puts its entry, key present or not |
| BTreeDuplicates.InsertKeepsInvOnlyIfAbsent | lib/sql/btree.cpp:100 | such an insertion keeps the invariant if and only if the key is absent |
| BTreeScan.YieldsUnique | lib/sql/btree.cpp:487-517 | a scan from a position gives at most one list of entries |
| BTreeScan.PathYields | lib/sql/btree.cpp:498-511 | iterating from a leaf gives the rest of it and then the entries of the leaves along the next links, and ends |
| BTreeScan.ChainedScan | lib/sql/btree.cpp:584-600 | with an intact chain the scan ends and gives every stored entry once, ascending |
| BTreeScan.InsertKeepsScan | lib/sql/btree.cpp:106-118 | insertions keep the chain intact although they leave an old previous link behind |
| BTreeScan.RemoveScan | lib/sql/btree.cpp:253-279 | after a removal the scan is complete if and only if the removal is safe |
| BTreeScan.BreaksFirst | lib/sql/btree.cpp:584-593 | emptying the first of several leaves always makes the scan incomplete |
| BTreeScan.BreaksDangling | lib/sql/btree.cpp:256-268 | emptying a leaf in the middle that is linked back to no leaf in use makes it incomplete |
| BTreeScan.BreaksSkipping | lib/sql/btree.cpp:256-268 | emptying a leaf that is linked back past its predecessor makes it incomplete |
| BTreeScan.ScanIsMap | lib/sql/btree.cpp:584-600 | after any run of insertions and safe removals on a fresh index the scan gives the plain map's pairs, each once, in ascending key order |
| BTreeLosses.LongKeyCapacities | lib/sql/btree_page.h:205-208 | a schema for which the program has two entries to a leaf and three slots to an internal page |
| BTreeLosses.ScanLost | lib/sql/btree.cpp:592 | with such keys, a tree of three keys, reached by insertions, whose scan is lost by removing the first key |
| BTreeLosses.KeysLost | lib/sql/btree.cpp:181 | keys of 1359 bytes, a leaf of two of them and a third insertion, after which lookups find the first only |
| BTreeThrows.ThrowKeepsScan | lib/sql/btree.cpp:110-166 | after an insertion that throws the scan gives all entries and the new one, so it is no longer that of the reachable leaves |
| BTreeThrows.GrowthKeepsScan | lib/sql/btree.cpp:110-191 | so after a growth of the root that loses the upper half |
| BTreeIterator.IsRowValid | lib/sql/btree.cpp:545-568 | the verdict on a key: accepted, rejected, or an unknown column, in the order of the conditions |
| BTreeIterator.ConditionMeaning | lib/sql/btree.cpp:548-565 | each of the six comparisons on a column accepts exactly the keys whose value stands in that relation to the constant in the order of values |
| BTreeIterator.IntConditions | lib/sql/btree.cpp:548-565 | on a signed column the six comparisons are =, !=, <, <=, > and >= of the numbers |
| BTreeIterator.UIntConditions | lib/sql/btree.cpp:548-565 | on an unsigned column too |
| BTreeIterator.CheckMeaning | lib/sql/btree.cpp:545-568 | with known columns a key is accepted exactly if it satisfies every condition |
| BTreeIterator.IteratedIsFilter | lib/sql/btree.cpp:602-619 | a scan with conditions gives exactly the entries of the full scan that satisfy all conditions, in the same order |
| BTreeIterator.Iterator.constructor | lib/sql/btree.cpp:602-618 | starts at the leaf that slot 0 of the root leads to |
| BTreeIterator.Iterator.NextRow | lib/sql/btree.cpp:487-517 | gives the first accepted entry of those still ahead and leaves the rest ahead |
| Comparator.CompareRows | lib/sql/comparator.cpp:27-53 | on rows of one shape it is the lexicographic order with the given directions |
| Comparator.NumbersAscend | lib/sql/comparator.cpp:13-25 | a key of one number is less exactly if the number is smaller, and false comes before true |
| Comparator.TextsAscend | lib/sql/comparator.cpp:13-25 | a key of one string is less exactly if it is a proper prefix or smaller in the first character that differs |
| Comparator.LexIsOrder | lib/sql/comparator.cpp:27-53 | for every list of directions: antisymmetric, transitive, and 0 only for equal rows |
| Comparator.LexMeaning | lib/sql/comparator.cpp:30-51 | less exactly if some first differing position decides, in that position's direction and the order of values: false before true, numbers by size, strings by their first difference |
| Marshal.NullBitsMeaning | lib/sql/marshal.cpp:73-82 | bit i of the mask is set exactly if value i is null |
| Marshal.ColumnRoundTrip | lib/sql/marshal.cpp:129-166 | a stored value reads back if it is a varchar without NUL, a string of at most 255 bytes or of another type; otherwise it does not |
| Marshal.RowRoundTrip | lib/sql/marshal.cpp:118-225 | a stored row of such values reads back, whatever bytes follow, and the reader stops where the row ends |
| Marshal.RowRoundTripOnlyIf | lib/sql/marshal.cpp:118-225 | a row of the schema with any other value never reads back |
| Marshal.RowSize | lib/sql/marshal.cpp:95-116 | the encoding takes exactly the fixed part with nulls skipped plus the strings' characters |
| Marshal.RowLayout | lib/sql/marshal.cpp:118-170 | the bytes of a row with a column of each type: mask of nulls, boolean, nothing for a null, number, string filled up with NULs, string behind its length |
| Marshal.FixedRowSize | lib/sql/marshal.cpp:32-71 | without strings a row takes at most the fixed row size, nulls or not |
| Marshal.FixedRowDecodes | lib/sql/marshal.cpp:172-225 | without strings any bytes of the fixed size decode to a row that the codec preserves |
| Marshal.RowsRoundTrip | client/client_getter.cpp:181-190 | concatenated rows and the list of their lengths decode to the same rows |
| Marshal.Marshaller.GetNulls | lib/sql/marshal.cpp:73-82 | returns the mask that NullBitsMeaning is about |
| Marshal.Marshaller.GetRowSpace | lib/sql/marshal.cpp:95-116 | returns the length of the row's encoding |
| Marshal.Marshaller.SerializeRow | lib/sql/marshal.cpp:118-170 | writes the row's encoding at the position, returns the position behind it and changes no other byte |
| Marshal.Marshaller.DeserializeRow | lib/sql/marshal.cpp:172-225 | returns the row that the bytes at the position decode to |
| Bytes.Int32RoundTrip | lib/sql/btree_page.h:28-43 | a signed 32-bit field reads back in four bytes |
| Bytes.LittleEndian | lib/sql/marshal.cpp:13-28 | four bytes of a number, the least significant first |
| Bytes.TwosComplement | lib/sql/marshal.cpp:13-28 | a signed 32-bit field in two's complement |
| Bytes.TwosComplement64 | lib/sql/marshal.cpp:13-28 | a signed 64-bit field in two's complement, the lower half first |
| FixedPage.FixedPage.GetRow | lib/sql/fixed.cpp:20-27 | the row of a slot, the row without values if the slot is free |
| FixedPage.FixedPage.DeleteRow | lib/sql/fixed.cpp:29-33 | frees the slot and keeps every other slot |
| FixedPage.FixedPage.FindRowSlot | lib/sql/fixed.cpp:54-63 | the first free slot, if there is one |
| FixedPage.FixedPage.InsertRow | lib/sql/fixed.cpp:35-45 | the row goes into the first free slot, every other slot is kept; refused and unchanged exactly if the page is full |
| FixedPage.SlotFilled | lib/sql/fixed.cpp:39-42 | a presence byte and an encoded row fit a slot and decode to the row |
| FixedPage.PageLayout | lib/sql/fixed.cpp:22-62 | as many slots as fit in 4096 bytes, each a presence byte and the space of a row; which row a slot's bytes stand for |
| FixedPage.WriteInSlot | lib/sql/fixed.cpp:50-52 | slots are separate: a write inside one changes that slot only |
| Table.Table.InsertRow | lib/sql/table.cpp:14-28 | ends, and leaves the specified table: the row in the first free slot from the current page on, or in a new page |
| Table.Table.GetRow | lib/sql/table.cpp:30-35 | the row under an id, the row without values if it is free |
| Table.Table.DeleteRow | lib/sql/table.cpp:37-41 | frees the id and keeps every other |
| Table.InsertIsUpdate | lib/sql/table.cpp:14-28 | an insertion returns an id that was free and binds it; every other id keeps its row |
| Table.PlaceIsFirst | lib/sql/table.cpp:14-28 | a row goes into the first free slot from the current page on, which becomes the current page, or into slot 0 of a new page |
| Table.DeleteIsErase | lib/sql/table.cpp:37-41 | a deletion is the map without the id |
| Table.RunIsMap | lib/sql/table.cpp:14-41 | over any run, live ids read their own rows and all others read empty, and every id returned was free |
| ClockCache.TakesFirstClear | lib/sql/cache.h:30-42 | with a clear bit, put takes the first clear slot from the hand in circular order, having cleared exactly the set bits it passed |
| ClockCache.TakesOwn | lib/sql/cache.h:30-42 | with all bits set it takes the hand's slot and clears all others |
| ClockCache.Fair | lib/sql/cache.h:30-42 | from any bits, as many consecutive puts as there are slots take each slot once |
| ClockCache.TakesNext | lib/sql/cache.h:30-42 | a slot is taken next exactly if it is the first clear one from the hand, or the hand is at it and all bits are set |
| ClockCache.SetSlotTaken | lib/sql/cache.h:32-35 | a slot whose bit is set is taken exactly if all bits are set and the hand is at it |
| ClockCache.ClockCache.Find | lib/sql/cache.h:21-28 | found exactly if some slot has the key, and then the first such slot |
| ClockCache.ClockCache.Put | lib/sql/cache.h:30-42 | ends, and takes the slot, bits and hand that TakesFirstClear and TakesOwn describe; the key replaces the slot's |
| ClockCache.ClockCache.Lock | lib/sql/cache.h:44-50 | sets the bits of the slots with the key and no others |
| ClockCache.ClockCache.Unlock | lib/sql/cache.h:52-58 | clears the bits of the slots with the key and no others |
| BufferPool.AcquireKeepsView | lib/sql/bufferpool.cpp:43-68 | on a hit, a miss or an eviction no page changes its content, and the frame returned holds the content of the page asked for |
| BufferPool.WriteIsUpdate | lib/sql/bufferpool.cpp:94-98 | writing through a frame changes its page's content and no other page's |
| BufferPool.PoolIsMemory | lib/sql/bufferpool.cpp:43-68 | for any frame count and any choice of slots to evict, every access of a run reads the last bytes written to its page, as on a flat memory |
| BufferPool.DumpedAllIsView | lib/sql/bufferpool.cpp:27-32 | writing back all frames leaves on disk what the pool showed |
| BufferPool.FramePool.constructor | lib/sql/bufferpool.cpp:10-25 | the empty pool shows the disk |
| BufferPool.FramePool.AcquireFrame | lib/sql/bufferpool.cpp:43-68 | the specified access with the slot that the clock takes; the content of every page is kept and the frame shows the page |
| BufferPool.FramePool.LosesPage | lib/sql/bufferpool.cpp:55-60 | a frame loses its page exactly on a miss for which its slot is next on the clock, references or not |
| BufferPool.FramePool.ReleaseFrame | lib/sql/bufferpool.cpp:70-76 | only the reference count of the frame changes, no content |
| BufferPool.FramePool.Close | lib/sql/bufferpool.cpp:27-32 | the disk holds what the pool showed |
| FlexiblePage.NibblesOfValue | master/persistent_kv/flexible_page.cpp:5-21 | four nibbles keep a value modulo 2^16 |
| FlexiblePage.NibbleOrder | master/persistent_kv/flexible_page.cpp:5-21 | the lowest nibble comes first, a negative value is in two's complement |
| FlexiblePage.FlexiblePage.GetByIndex | master/persistent_kv/flexible_page.cpp:5-14 | reads the cell that four nibbles make up |
| FlexiblePage.FlexiblePage.SetByIndex | master/persistent_kv/flexible_page.cpp:16-21 | writes one cell modulo 2^16 and keeps all others |
| FlexiblePage.FlexiblePage.GetSizesRows | master/persistent_kv/flexible_page.cpp:27-34 | the row lengths noted in the page |
| FlexiblePage.FlexiblePage.GetRow | master/persistent_kv/flexible_page.cpp:61-75 | the row of the page's list at an index inside it, the exception otherwise |
| FlexiblePage.FlexiblePage.InsertRow | master/persistent_kv/flexible_page.cpp:92-109 | refused and unchanged exactly if the row does not fit; otherwise the specified cell writes, which append the row |
| FlexiblePage.FlexiblePage.EraseRow | master/persistent_kv/flexible_page.cpp:45-52 | the exact cells after the two loops, the one overwritten cell included |
| FlexiblePage.FlexiblePage.DeleteRow | master/persistent_kv/flexible_page.cpp:77-90 | the exact cells and rows after a deletion |
| CellPage.RowInside | master/persistent_kv/flexible_page.cpp:61-75 | rows lie behind the count and the lengths, each up to where the previous one begins |
| CellPage.CharsRoundTrip | master/persistent_kv/flexible_page.cpp:70-73 | characters stored in cells, sign-extended or not, read back |
| CellPage.SignExtended | master/persistent_kv/flexible_page.cpp:102-104 | a cell holds the signed value of a character, modulo 2^16 |
| CellPage.InsertPrefix | master/persistent_kv/flexible_page.cpp:102-107 | after any prefix of an insertion's writes without the count the page is sound and holds the rows it held |
| CellPage.InsertAppends | master/persistent_kv/flexible_page.cpp:92-109 | a whole insertion appends the row and keeps all others; as the 65536th it makes the page read as empty |
| CellPage.DeleteEmpties | master/persistent_kv/flexible_page.cpp:45-90 | a deletion empties its row, and its first character replaces that of the nearest earlier non-empty row; every other row reads the same |
| CellPage.DeletionIsLocal | master/persistent_kv/flexible_page.cpp:46 | a deletion leaves all other rows alone exactly if the row is empty, or no earlier row holds anything, or the nearest one begins with the same character |
| CellStops.StoppedIsRaised | master/persistent_kv/flexible_page.cpp:45-48 | the states of the first loop of a deletion, once the length has been written |
| CellStops.StoppedLaterRow | master/persistent_kv/flexible_page.cpp:46-48 | in such a state a later row reads its copied characters right, and for each other one what lies higher by the deleted length |
| CellStops.StoppedEarlierRow | master/persistent_kv/flexible_page.cpp:46-48 | the deleted row is empty at once, and the one overwritten character is there after the first copy |
| CellStops.StoppedLaterRows | master/persistent_kv/flexible_page.cpp:46-48 | later rows read as before if and only if every character that has not been copied equals the one that lies higher by the deleted length |
| CellStops.ClearedRows | master/persistent_kv/flexible_page.cpp:49-51 | in the second loop the page already reads as after the whole deletion |
| CellStops.PrefixIsStop | master/persistent_kv/flexible_page.cpp:45-52 | the page after any number of the writes of a deletion, in their order |
| CellStops.DeleteWritesDelete | master/persistent_kv/flexible_page.cpp:88-89 | all of these writes are the deletion |
| KVStorage.PairRecovered | master/persistent_kv/kv_storage.cpp:12-22 | behind an even number of rows a key alone is ignored and a pair binds the key |
| KVStorage.PairBehindDanglingKey | master/persistent_kv/kv_storage.cpp:12-22 | behind a dangling key the next pair is read shifted: the dangling key gets the new key as its value |
| KVStorage.PairRecoveredIff | master/persistent_kv/kv_storage.cpp:12-22 | a new pair behind any rows is recovered if and only if their number is even or key and value both equal the dangling key |
| KVStorage.DanglingKeyBinds | master/persistent_kv/kv_storage.cpp:12-22 | a dangling key and a set of another key, after which the dangling key is bound to that key |
| KVStorage.SetWritesInsert | master/persistent_kv/kv_storage.cpp:31-34 | the cell writes of a set are those of inserting the key and then the value |
| KVStorage.CrashSafe | master/persistent_kv/kv_storage.cpp:24-37 | a set of a new pair stopped after any number of its cell writes leaves a sound page that recovers the old map, or the new one if all writes are done |
| KVStorage.MatchingRecovers | master/persistent_kv/kv_storage.cpp:12-22 | a restart over a page that matches the map in memory rebuilds that map |
| KVStorage.SetNewKeepsMatching | master/persistent_kv/kv_storage.cpp:24-37 | a set of a new non-empty pair keeps page and map matching |
| KVStorage.EraseRowsExact | master/persistent_kv/kv_storage.cpp:39-48 | the rows after the two deletions of an erasure |
| KVStorage.EraseRecovers | master/persistent_kv/kv_storage.cpp:39-48 | what a restart recovers after an erasure: the map without the key, in which the value of the last live pair before it has taken over the erased value's first character |
| KVStorage.EraseFaithful | master/persistent_kv/kv_storage.cpp:39-48 | a restart after an erasure recovers the map in memory if and only if no pair before the key is live or its value begins with the same character |
| KVRuns.RestartNotesHalves | master/persistent_kv/kv_storage.cpp:20 | for any rows, a restart notes for each key half of its pair number |
| KVRuns.EraseByNumber | master/persistent_kv/kv_storage.cpp:44-47 | deleting the rows of pair j erases a key if and only if j is its pair and the erasure is clean |
| KVRuns.RestartedErase | master/persistent_kv/kv_storage.cpp:39-48 | after a restart an erasure erases the key of the pair at half the number, and nothing if that pair is not in use |
| KVRuns.RestartedEraseFaithful | master/persistent_kv/kv_storage.cpp:39-48 | after a restart an erasure leaves a page that recovers the map without the key if and only if the key is that of pair 0 |
| KVRuns.RestartedSet | master/persistent_kv/kv_storage.cpp:29-35 | after a restart a new key is set right but noted as pair 0, so that erasing it again is right if and only if the page was empty |
| KVRuns.RestartErasesOther | master/persistent_kv/kv_storage.cpp:20 | two pairs, a restart and an erasure of the second key: the first is gone and the second still there |
| KVRuns.EraseAligned | master/persistent_kv/kv_storage.cpp:39-48 | whatever has been noted, an erasure leaves a page that recovers the map in memory if and only if the noted number is right and the erasure is clean |
| KVRuns.StopCounts | master/persistent_kv/kv_storage.cpp:31-34 | after any number of the writes of a set the page holds the rows that have been counted |
| KVRuns.StopAligned | master/persistent_kv/kv_storage.cpp:24-37 | after a stopped set the map is the old or the new one, and the storage goes on right if and only if the stop was not between the two counts |
| KVRuns.RunRecovers | master/persistent_kv/kv_storage.cpp:12-48 | after any run from a fresh file of sets, restarts, stopped sets and erasures that are right in that sense, the map in memory is the plain map and a restart rebuilds it |
| KVRuns.NoRestart | master/persistent_kv/kv_storage.cpp:29-30 | between restarts the noted numbers stay right, so only the clean condition remains |
| KVStops.PrefixIsEraseStop | master/persistent_kv/kv_storage.cpp:46-47 | the page after any number of the writes of both deletions of an erasure, in their order |
| KVStops.StoppedErase | master/persistent_kv/kv_storage.cpp:39-48 | an erasure stopped at any write that does not disturb the pairs behind: a restart recovers the old map before the first write, then the map without the key, in which the last value in use before begins with what has been copied there |
| KVStops.WithHeadIsErased | master/persistent_kv/flexible_page.cpp:46 | that is exactly the map without the key if no pair before is in use, nothing has been copied, or the copied character was there |
| KVStops.EraseStopsSafely | master/persistent_kv/kv_storage.cpp:39-48 | with the pairs behind undisturbed, a restart finds the old or the new map wherever the erasure stops if and only if no pair before is in use or its value begins like the key and like the erased value |
| KVStops.LastEraseStopsSafely | master/persistent_kv/kv_storage.cpp:39-48 | the same, without further condition, for the last pair in use |
| KVStops.StopRecoversNeither | master/persistent_kv/flexible_page.cpp:88-89 | a page of two pairs where an erasure stopped behind its first write recovers neither the old map nor the new one |
| KVStorage.KVStorage.constructor | master/persistent_kv/kv_storage.cpp:12-22 | rebuilds the map from the pairs of rows, and the noted row indices, which are half of the true ones |
| KVStorage.KVStorage.Erase | master/persistent_kv/kv_storage.cpp:39-48 | the rows, indices and map after an erasure; nothing changes for an absent key |
| KVStorage.KVStorage.SetNew | master/persistent_kv/kv_storage.cpp:29-35 | the specified state, reached by exactly the cell writes that CrashSafe is about, in their order |
| KVStorage.KVStorage.Set | master/persistent_kv/kv_storage.cpp:24-37 | the specified state, for a key that is there already after its erasure |
| IndexLine.CostIsFarthest | lib/vectors/lsh.cpp:49 | on a sorted line the ends of a window are its farthest points |
| IndexLine.CostIsReached | lib/vectors/lsh.cpp:49 | some point of the window is exactly that far |
| IndexLine.BestOfAllChoices | lib/vectors/lsh.cpp:43-54 | any choice of k points has one at least as far as the farthest of a best window |
| IndexLine.NearWindowsSuffice | lib/vectors/lsh.cpp:35-38 | for every window some window that starts from pos - k to pos + 1 costs no more |
| IndexLine.Searched | lib/vectors/lsh.cpp:40-54 | the first of the cheapest near windows is a best window of the whole line, unless every window costs 1e14 or more |
| IndexLine.IndexLine.AddVector | lib/vectors/lsh.cpp:22-24 | appends the vector with its projection |
| IndexLine.DotLinear | lib/vectors/vec_operations.cpp:102-119 | projections are additive and homogeneous |
| IndexLine.DotUnit | lib/vectors/vec_operations.cpp:102-119 | the projection of a unit vector is that coordinate of the line's vector |
| IndexLine.IndexLine.Build | lib/vectors/lsh.cpp:26-30 | the line is sorted by projection and holds the same vectors |
| IndexLine.IndexLine.SearchNearestK | lib/vectors/lsh.cpp:32-61 | the answer is the vectors of the first near best window; the whole line if it is shorter than k; the first k if every window costs 1e14 or more |
| LineTies.BestLeaveNothingNearer | lib/vectors/lsh.cpp:43-60 | with d the best cost, no best window leaves a point nearer than d outside if and only if there is none, or they fit k together with all points at p - d and also with all at p + d |
| LineTies.AnswerLeavesNothingNearer | lib/vectors/lsh.cpp:43-60 | the window that the search keeps leaves none outside if and only if there is none, or they fit k with all points at p - d, or all of them are below p |
| LineTies.OutsideIsFarther | lib/vectors/lsh.cpp:43-60 | with distinct projections no best window leaves a nearer point outside |
| LineTies.OutsideMayBeNearer | lib/vectors/lsh.cpp:43-60 | a line with equal projections where the search leaves a nearer point outside |
| VertexBuffer.PutKeepsSmallest | lib/vectors/hnsw.h:37-50 | a put keeps the k smallest of all vertices put, whether the vertex is new, kept or was dropped before |
| VertexBuffer.SmallestUnique | lib/vectors/hnsw.h:17-21 | there is only one list of the k smallest |
| VertexBuffer.PutsKeepSmallest | lib/vectors/hnsw.h:37-50 | after any sequence of puts the buffer is the k smallest of all vertices ever put |
| VertexBuffer.KeptAreNearest | lib/vectors/hnsw.h:17-21 | after any puts no vertex that is not kept is nearer than one that is; of equally near ones the smaller numbers are kept |
| VertexBuffer.KeptCount | lib/vectors/hnsw.h:44-48 | k of the distinct vertices put are kept, all of them if there are no more |
| VertexBuffer.PutsCommute | lib/vectors/hnsw.h:37-50 | the order and number of puts of the same vertices does not matter |
| VertexBuffer.VertexBuffer.Put | lib/vectors/hnsw.h:37-50 | false and unchanged exactly if the map has the vertex, whatever the distance; otherwise the k smallest of what has been put and the new one, map and ordered set in agreement; with fixed distances every put counts |
| VertexBuffer.VertexBuffer.GetSmallestByV | lib/vectors/hnsw.h:60-62 | a vertex ever put that no other is nearer than, the smallest number of those equally near |
| Balancer.PartitionRoundTrip | master/balancer.cpp:25-50 | a recorded partition reads back if and only if no host contains a comma or semicolon |
| Balancer.PieceLayout | master/balancer.cpp:15-31 | a piece as it is recorded, host,port:bytes |
| Balancer.PieceForms | master/balancer.cpp:38-47 | what is read as a piece, and that a text without a comma, or without a colon behind the port, is none |
| Balancer.PartitionLayout | master/balancer.cpp:25-31 | pieces in order with a semicolon behind each |
| Balancer.SerializeValue | master/balancer.cpp:25-31 | the loop's text is that of every piece in order, the text that PartitionRoundTrip reads back |
| Balancer.DeserializeValue | master/balancer.cpp:33-50 | the loop reads the pieces of the text in order, skipping tokens that do not parse; the inverse in PartitionRoundTrip |
| Balancer.EnoughIsTotal | master/balancer.cpp:67-71 | an allocation succeeds exactly if the total free space is at least the request; otherwise no position is left |
| Balancer.PiecesSum | master/balancer.cpp:72-86 | the pieces of a successful allocation sum to the request |
| Balancer.FreeOrder | master/balancer.h:31 | positions are ordered by size, then by host character by character, then by port |
| Balancer.LastFirst | master/balancer.cpp:72-86 | the pieces come from the positions from the last one down, whole but for the last piece |
| Balancer.PiecesPositive | master/balancer.cpp:72-86 | no piece of a successful allocation is empty |
| Balancer.TotalDrops | master/balancer.cpp:72-86 | a successful allocation takes exactly the request off the total free space |
| Balancer.Conserved | master/balancer.cpp:72-86 | on every chunk, what was free is what is left plus what was taken |
| Balancer.RemainingSound | master/balancer.cpp:72-86 | afterwards each chunk is still listed at most once, in order, with no more than it had |
| Balancer.FewestPieces | master/balancer.cpp:72-86 | no choice of fewer positions could have held the request |
| Balancer.UpdateKeepsSynced | master/balancer.cpp:52-60 | an update of a chunk leaves one position per chunk, with the reported sizes, if that was so before |
| Balancer.UpdatedOnce | master/balancer.cpp:52-60 | an update leaves one position per chunk if and only if every position of the chunk has the remembered or the reported size |
| Balancer.UpdateAfterAllocation | master/balancer.cpp:52-60 | after an allocation on a synced state that is so if and only if the chunk was not cut or the report is what was left of it |
| Balancer.TwoPositions | master/balancer.cpp:52-60 | ten bytes free, four taken and seven reported leave two positions |
| Balancer.RecordedPartition | master/balancer.cpp:88-111 | the partition of a table, as recorded and read back, sums to its size and takes from each chunk what the allocation took |
| Balancer.Balancer.OnUpdate | master/balancer.cpp:52-60 | the specified positions and sizes, with the report narrowed to int; reports below 2^31 keep sizes non-negative |
| Balancer.AsIntMeaning | master/balancer.cpp:57-58 | a reported size as an int is the same number modulo 2^32 |
| Balancer.Balancer.Allocate | master/balancer.cpp:66-87 | ends, with the specified pieces and remaining positions |
| Balancer.Balancer.InsertTable | master/balancer.cpp:62-90 | succeeds exactly if the total is at least the size, and then records the pieces' text under the table; otherwise nothing is recorded and no position is left |
| Balancer.Balancer.GetPartition | master/balancer.cpp:106-112 | the recorded pieces, the exception for an unknown table |
| OrderedSet.InsertAscends | master/balancer.cpp:58 | an insertion into an ordered set keeps it ascending and adds an element exactly if it is new |
| OrderedSet.EraseAscends | master/balancer.cpp:56 | an erasure keeps it ascending and takes out that element only |
| Join.ChoicesAreAgreeing | lib/sql/interpreter.cpp:171-179 | the choices of one row per table that a join keeps are exactly those that agree on every shared column |
| Join.ChoicesAscend | lib/sql/interpreter.cpp:171-172 | each choice occurs once, in lexicographic order |
| Join.AddedFirstOccurrences | lib/sql/interpreter.cpp:152-167 | the columns of a join are the columns of all tables where they first occur |
| Join.JoinTwoIsNatural | lib/sql/interpreter.cpp:146-195 | joining one more table to the natural join of the others is the natural join of all |
| Join.SingleIsNatural | lib/sql/interpreter.cpp:132-145 | a single table is its own natural join |
| Interpreter.ExtractValue | lib/sql/interpreter.cpp:121-128 | the value of the first column equal to the given one, none if there is none |
| Interpreter.IsMatched | lib/sql/interpreter.cpp:173-178 | two rows match exactly if they have equal values in every shared column |
| Interpreter.JoinPair | lib/sql/interpreter.cpp:152-194 | the rows and schema of the pairwise join that JoinTwoIsNatural is about |
| Interpreter.ExecuteJoin | lib/sql/interpreter.cpp:130-196 | the recursive join of any number of tables is their natural join, empty rows skipped, nulls equal to nulls |
| QueryMeaning.PresentInOrder | lib/sql/interpreter.cpp:138-145 | a scan gives the rows at ascending positions, namely all rows that have values |
| Interpreter.BoundAgain | lib/sql/interpreter.cpp:228-230 | binding a row after another leaves the variables as if it were bound alone |
| Interpreter.SelectedInOrder | lib/sql/interpreter.cpp:254-260 | the selected rows are those at ascending positions of the join, namely all positions at which the filter is true |
| QueryMeaning.ComparisonsEval | lib/sql/interpreter.cpp:99-113 | on two integers =, <, <=, > and >= are those of the integers |
| QueryMeaning.ArithmeticEval | lib/sql/interpreter.cpp:87-95 | sums, differences and products, none where they do not fit 64 bits |
| QueryMeaning.DivisionEval | lib/sql/interpreter.cpp:96-98 | the one quotient whose remainder is smaller than the divisor and zero or of the dividend's sign; none by zero, or if it does not fit |
| QueryMeaning.OnlyIntegers | lib/sql/interpreter.cpp:81-115 | anything but two integers and one of the nine operators gives none |
| QueryMeaning.ColumnEval | lib/sql/interpreter.cpp:70-76 | with a row bound, a name is the value in the last column of that name |
| QueryMeaning.NameEval | lib/sql/interpreter.cpp:70-76 | any other name is a variable if there is one and a string if not |
| QueryMeaning.AllSelected | lib/sql/interpreter.cpp:255 | without a WHERE all rows are kept |
| QueryMeaning.WhereKeeps | lib/sql/interpreter.cpp:254-260 | WHERE throws exactly if its expression is no truth value for some row; otherwise it keeps, in order, exactly the rows for which it is true |
| QueryMeaning.WhereCompares | lib/sql/interpreter.cpp:224-261 | WHERE with a comparison of an integer column and a number keeps, in order, exactly the rows whose value stands in that relation to it |
| QueryMeaning.KeyMeaning | lib/sql/interpreter.cpp:291-295 | a sort key has the values of the expressions in order; there is one exactly if all have a value |
| QueryMeaning.OrderByColumn | lib/sql/interpreter.cpp:263-331 | rows are ordered by an integer column exactly if its values do not fall, or with DESC do not rise |
| Interpreter.KeysShape | lib/sql/interpreter.cpp:291-295 | sort keys of two rows without nulls have the same types |
| Interpreter.FullRowsSortable | lib/sql/interpreter.cpp:299-300 | so the comparator may be asked about the keys of any rows without nulls |
| Interpreter.Sort | lib/sql/interpreter.cpp:299-314 | a sort by the comparator: a permutation in which no key is less than an earlier one |
| Interpreter.SortedRows | lib/sql/interpreter.cpp:315-318 | rows taken in the order of the sorted arguments are a permutation of the rows in the order of their keys |
| Interpreter.Interpreter.SelectRows | lib/sql/interpreter.cpp:224-261 | the selected rows, none where the filter throws |
| Interpreter.Interpreter.OrderRows | lib/sql/interpreter.cpp:263-331 | a permutation of the rows ordered by their keys and directions, none exactly where a key throws |
| Interpreter.Interpreter.ExecuteSelect | lib/sql/interpreter.cpp:199-333 | SELECT * with WHERE and ORDER BY: the natural join, filtered, and a permutation of that ordered by the keys |
| Lexer.PrintedScans | lib/sql/lexer.l:11-64 | scanning a printed expression gives its tokens, whatever follows that does not continue a word |
| Lexer.EqualSignsScanAsGreater | lib/sql/lexer.l:63 | the text a==b has the tokens of a>b |
| Lexer.SignsScan | lib/sql/lexer.l:50-58 | the token of each sign of one character |
| Lexer.ComparisonsScan | lib/sql/lexer.l:59-63 | the tokens of <, <=, > and >=, longest first; a lone equal sign is unexpected |
| Lexer.WordsScan | lib/sql/lexer.l:20-48 | a word is a name unless it is one of the twelve keywords |
| Lexer.WordCharacters | lib/sql/lexer.l:9-20 | words are of letters, underscores and, behind the first character, digits |
| Lexer.NumbersScan | lib/sql/lexer.l:13-18 | a number is what it says modulo 2^32 as a signed one, and -1 from 2^63 on |
| Lexer.UnexpectedScan | lib/sql/lexer.l:94-97 | any other character ends the scan with an error |
| Lexer.SpacesSkipped | lib/sql/lexer.l:77 | spaces between tokens are skipped |
| Lexer.Lexer.Lex | lib/sql/lexer.l:89-100 | returns the next token and stops behind it, so that repeated calls give the tokens of the text |
| Grammar.ParsesSentences | lib/sql/parser.y:66-137 | the parser accepts exactly the sentences of the grammar of values, with the precedences as tiers and left association, and gives the tree that they derive |
| PrintParse.WrittenParses | lib/sql/parser.y:124-137 | an expression written with all parentheses, or with only those that precedences and left association need, parses to the same tree with its numbers narrowed to int, which is the tree itself exactly if they are in range |
| PrintParse.ThreeOperands | lib/sql/parser.y:66-68 | three literals and two operators without parentheses, for all of them: the second operator comes first exactly if it binds tighter, * and / before + and - before comparisons; otherwise the left one |
| PrintParse.ParsedIsNamed | lib/sql/parser.y:124-137 | whatever the scanned tokens are, a parsed tree has names for strings and operators that have tokens |
| PrintParse.PrintedParses | lib/sql/ast.cpp:87-139 | a printed expression, scanned and parsed, is the same tree if and only if its strings are names, its operators have tokens and its numbers are in range |
| Ast.OperatorTexts | lib/sql/ast.cpp:105-136 | the text of each operator |
| Ast.PrintedLayout | lib/sql/ast.cpp:87-139 | a printed expression has its operands in parentheses and its strings in quotes |
| PrintParse.EqualsParsesAsGreater | lib/sql/parser.y:136 | a==b is read as a>b |
| NumberText.NumbersReadBack | lib/serialize.cpp:14-35 | every list of 64-bit numbers reads back |
| NumberText.NumbersLayout | lib/serialize.cpp:27-35 | numbers as text, a blank behind each |
| NumberText.UnsignedForms | lib/serialize.cpp:10-12 | a number with a minus sign is read modulo 2^64; none is read from 2^64 on |
| NumberText.Serialize | lib/serialize.cpp:27-35 | the loop's text is that of every number in order, the text that NumbersReadBack reads back |
| NumberText.Deserialize | lib/serialize.cpp:14-25 | the loop reads the numbers of the text in order, none where it throws; the inverse in NumbersReadBack |
| Decimal.NumberReadsBack | lib/serialize.cpp:6-12 | a decimal number reads back up to the first character behind it that is no digit |
| Decimal.NumberForms | master/balancer.cpp:42-45 | what is read: blanks, an optional sign and digits up to the next other character; none without digits or out of range |
| Decimal.DigitsAppend | lib/serialize.cpp:6-8 | the digits of a number, the last one last |
| SchemaText.SchemaRoundTrip | lib/sql/schema.cpp:52-117 | a schema's text reads back if and only if every column has a non-empty name without white space and commas and a type that has a name |
| SchemaText.TypeTexts | lib/sql/schema.cpp:7-24 | the text of each type |
| SchemaText.ColumnLayout | lib/sql/schema.cpp:32-44 | a column as text: name, blank, type, and a length other than 0 in parentheses |
| SchemaText.SchemaLayout | lib/sql/schema.cpp:52-69 | columns separated by a comma and a blank |
| SchemaText.TypeNamed | lib/sql/schema.cpp:99-112 | a word names a type exactly if it is the text of that type |
| SchemaText.LengthForms | lib/sql/schema.cpp:92-97 | no length without a parenthesis; behind one all but the last character is read, modulo 2^32 |
| SchemaText.LengthReadsBack | lib/sql/schema.cpp:92-97 | a type with a length in parentheses, or none for 0, reads back |
| SchemaText.Print | lib/sql/schema.cpp:52-69 | the loop's text, its trailing separator removed, is that of every column in order, the text that SchemaRoundTrip reads back |
| SchemaText.Deserialize | lib/sql/schema.cpp:77-117 | the loop reads the columns of the text in order, none where it throws; the inverse in SchemaRoundTrip |

## Left out

- BTree.Tree.InsertKey: an insertion into a full leaf requires an even leaf capacity, because otherwise the split writes outside its page; keys have the tree's shape and read back. The page size given at creation is stored and never read by the program.
- BTreePage.LeafPage.Split: a full leaf of odd capacity is excluded, since the first loop then writes past the page (BTreePage.SplitStaysInside).
- BTree.Tree.SplitAndInsert: the same.
- BTree.Tree.constructor: opening an existing index and its two consistency checks (lib/sql/btree.cpp:51-61) are left out.
- BTree.Tree.LookupKey: the tree works on its pages in memory; that this is what the buffer pool shows is BufferPool.PoolIsMemory, for clients that use the frame acquired last, as clock bits do not pin the others.
- Comparator.CompareRows: the program asserts that rows have one shape; beyond that the specification orders kinds by rank, so that it is total.
- BTreeScan.ScanIsMap: removals have to be safe, as unsafe ones lose the scan (BTreeScan.RemoveScan).
- BufferPool.FramePool.AcquireFrame: excludes a page whose key equals the default key of an empty frame, on which the program asks a missing file for its descriptor.
- KVStorage.CrashSafe: cell writes are taken as atomic and ordered.
- KVStops.StoppedErase: what is recovered when pairs behind are disturbed is not stated beyond their characters (CellStops.StoppedLaterRow).
- KVRuns.RunRecovers: stopped erasures are not steps of a run.
- Table.Table.InsertRow: a page count or slot beyond 32 bits is excluded; the table works on its pages in memory, as above.
- Interpreter.Interpreter.ExecuteSelect: SELECT with a projection is left out, as are INSERT, CREATE and DROP; 64-bit overflow, division by zero and wrong types are the exception; sort keys that the comparator would not accept are excluded.
- Interpreter.ExecuteJoin: in a shared column values are null in both tables or in none, as the comparator asserts.
- Interpreter.JoinPair: the same.
- Interpreter.IsMatched: the same.
- Interpreter.Sort: std::sort is taken by its specification; so are std::set, std::map and std::lower_bound.
- IndexLine.IndexLine.SearchNearestK: projections are real numbers, so rounding is not modelled; the vector of a line is given, not random; an empty line, on which the program reads outside it, is excluded.
- PrintParse.PrintedParses: covers literals and binary operators; unary operators are printed but have no tokens and no rule. For -2^31 the program negates an int that overflows; the model takes the result as 2^31.
- Balancer.Balancer.Allocate: sizes are non-negative, as they are after reports below 2^31.
- Balancer.Balancer.InsertTable: the same.
- lib/sql/flexible.cpp, the page for rows with strings, has the layout of the master's page with byte-sized lengths and count.
- Balancer::EraseTable locks its mutex twice and never returns; mutexes, logging and statistics counters are left out everywhere.
- HNSW::Build and SearchNearestK, the merge of several lines in LSH, and the vector arithmetic in SIMD.
- merge, mergeLeft, the split of internal pages and the code behind the early return of BTree::remove are on no live path.
- System calls, files and the store: a file is an array of pages or nibbles that starts zeroed.
- The rest of the SQL grammar, the generated scanner and parser tables, and the network code.
