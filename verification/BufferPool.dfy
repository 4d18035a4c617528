/** The buffer pool (lib/sql/bufferpool.cpp): frames over the pages of open files, written back
    when their slot is taken, which together are flat page memory. */
module BufferPool {
  import opened Rows
  import opened Bytes
  import CC = ClockCache

  /** An open file's descriptor and a page in it; every descriptor is its own disk. */
  datatype PageId = PageId(fd: int, page: int)

  type Memory = map<PageId, Bytes>

  // ----- The pool as a value -----

  /** What the frames hold, their bytes, and the pages on disk. */
  datatype Pool = Pool(held: seq<Option<PageId>>, data: seq<Bytes>, disk: Memory)

  ghost predicate Consistent(pool: Pool) {
    |pool.held| == |pool.data| &&
    (forall i :: 0 <= i < |pool.held| && pool.held[i].Some? ==> pool.held[i].value in pool.disk) &&
    (forall i, j :: 0 <= i < j < |pool.held| && pool.held[i].Some? ==> pool.held[i] != pool.held[j])
  }

  /** The frame that holds a page, the number of frames if none does. */
  function Holder(held: seq<Option<PageId>>, id: PageId): (i: nat)
    ensures i <= |held|
    ensures i < |held| ==> held[i] == Some(id)
    ensures forall j :: 0 <= j < i ==> held[j] != Some(id)
  {
    if held == [] || held[0] == Some(id) then 0 else 1 + Holder(held[1..], id)
  }

  /** A page reads as its frame if one holds it, otherwise as on disk. */
  function Content(pool: Pool, id: PageId): Bytes
    requires |pool.held| == |pool.data| && id in pool.disk
  {
    var i := Holder(pool.held, id);
    if i < |pool.held| then pool.data[i] else pool.disk[id]
  }

  function View(pool: Pool): (m: Memory)
    requires |pool.held| == |pool.data|
    ensures m.Keys == pool.disk.Keys
  {
    map id | id in pool.disk :: Content(pool, id)
  }

  lemma HolderUnique(pool: Pool, id: PageId, i: nat)
    requires Consistent(pool) && i < |pool.held| && pool.held[i] == Some(id)
    ensures Holder(pool.held, id) == i
  {
  }

  /** The disk after the frame of a slot has been written back. */
  function Dumped(pool: Pool, slot: nat): Memory
    requires |pool.held| == |pool.data| && slot < |pool.held|
  {
    if pool.held[slot].Some? then pool.disk[pool.held[slot].value := pool.data[slot]] else pool.disk
  }

  /** The pool after the page on disk has replaced what the slot held. */
  function Loaded(pool: Pool, slot: nat, id: PageId): Pool
    requires |pool.held| == |pool.data| && slot < |pool.held| && id in pool.disk
  {
    var disk := Dumped(pool, slot);
    Pool(pool.held[slot := Some(id)], pool.data[slot := disk[id]], disk)
  }

  /** The pool after an access, with the slot that a miss would take, and the frame returned. */
  function Acquired(pool: Pool, id: PageId, victim: nat): (r: (Pool, nat))
    requires |pool.held| == |pool.data| && victim < |pool.held| && id in pool.disk
    ensures r.1 < |pool.held|
  {
    var i := Holder(pool.held, id);
    if i < |pool.held| then (pool, i) else (Loaded(pool, victim, id), victim)
  }

  lemma LoadedConsistent(pool: Pool, slot: nat, id: PageId)
    requires Consistent(pool) && slot < |pool.held| && id in pool.disk && Holder(pool.held, id) == |pool.held|
    ensures Consistent(Loaded(pool, slot, id))
  {
    var r := Loaded(pool, slot, id);
    forall i, j | 0 <= i < j < |r.held| && r.held[i].Some? ensures r.held[i] != r.held[j] {
      assert pool.held[i] != Some(id) && pool.held[j] != Some(id);
    }
  }

  lemma LoadedContent(pool: Pool, slot: nat, id: PageId, x: PageId)
    requires Consistent(pool) && slot < |pool.held| && id in pool.disk && Holder(pool.held, id) == |pool.held|
    requires x in pool.disk
    ensures x in Loaded(pool, slot, id).disk && Content(Loaded(pool, slot, id), x) == Content(pool, x)
  {
    var r, i := Loaded(pool, slot, id), Holder(pool.held, x);
    LoadedConsistent(pool, slot, id);
    if x == id {
      HolderUnique(r, id, slot);
    } else if i < |pool.held| && i != slot {
      HolderUnique(r, x, i);
    } else {
      forall j | 0 <= j < |r.held| ensures r.held[j] != Some(x) {
        assert j != slot ==> r.held[j] == pool.held[j];
      }
    }
  }

  /** An access changes no page's content, on a hit, a miss or an eviction, and returns a frame
      that holds the page. */
  lemma AcquireKeepsView(pool: Pool, id: PageId, victim: nat)
    requires Consistent(pool) && victim < |pool.held| && id in pool.disk
    ensures var (r, i) := Acquired(pool, id, victim);
            Consistent(r) && View(r) == View(pool) && r.held[i] == Some(id) && r.data[i] == View(pool)[id]
  {
    var (r, i) := Acquired(pool, id, victim);
    if Holder(pool.held, id) == |pool.held| {
      LoadedConsistent(pool, victim, id);
      assert r.disk.Keys == pool.disk.Keys;
      forall x | x in pool.disk ensures Content(r, x) == Content(pool, x) {
        LoadedContent(pool, victim, id, x);
      }
      HolderUnique(r, id, i);
    }
  }

  /** Writing through a frame writes its page and no other. */
  lemma WriteIsUpdate(pool: Pool, slot: nat, id: PageId, bytes: Bytes)
    requires Consistent(pool) && slot < |pool.held| && pool.held[slot] == Some(id)
    ensures var r := pool.(data := pool.data[slot := bytes]);
            Consistent(r) && View(r) == View(pool)[id := bytes]
  {
    var r := pool.(data := pool.data[slot := bytes]);
    forall x | x in pool.disk ensures Content(r, x) == if x == id then bytes else Content(pool, x) {
      if Holder(pool.held, x) == slot {
      } else if x == id {
        HolderUnique(pool, id, slot);
      }
    }
  }

  lemma NothingHeld(pool: Pool)
    requires |pool.held| == |pool.data| && forall i :: 0 <= i < |pool.held| ==> pool.held[i] == None
    ensures Consistent(pool) && View(pool) == pool.disk
  {
  }

  // ----- Runs -----

  /** A client's access: it reads its latest frame, then overwrites it or leaves it. */
  datatype Access = Access(id: PageId, write: Option<Bytes>)

  /** A run through the pool with the slots that misses take, and what the accesses read. */
  ghost predicate RunsTo(pool: Pool, accesses: seq<Access>, victims: seq<nat>, read: seq<Bytes>, last: Pool)
    decreases |accesses|
  {
    if accesses == [] then read == [] && last == pool
    else
      var a := accesses[0];
      victims != [] && read != [] && |pool.held| == |pool.data| && victims[0] < |pool.held| && a.id in pool.disk &&
      var (p, i) := Acquired(pool, a.id, victims[0]);
      read[0] == p.data[i] &&
      RunsTo(if a.write.Some? then p.(data := p.data[i := a.write.value]) else p,
             accesses[1..], victims[1..], read[1..], last)
  }

  function Written(memory: Memory, a: Access): Memory {
    if a.write.Some? then memory[a.id := a.write.value] else memory
  }

  /** The same run on flat memory. */
  ghost predicate FlatRunsTo(memory: Memory, accesses: seq<Access>, read: seq<Bytes>, last: Memory)
    decreases |accesses|
  {
    if accesses == [] then read == [] && last == memory
    else
      var a := accesses[0];
      read != [] && a.id in memory && read[0] == memory[a.id] &&
      FlatRunsTo(Written(memory, a), accesses[1..], read[1..], last)
  }

  /** Whatever slots are taken, every access reads the last bytes written to its page. */
  lemma {:induction false} PoolIsMemory(pool: Pool, accesses: seq<Access>, victims: seq<nat>, read: seq<Bytes>, last: Pool)
    requires Consistent(pool) && RunsTo(pool, accesses, victims, read, last)
    ensures Consistent(last) && FlatRunsTo(View(pool), accesses, read, View(last))
    decreases |accesses|
  {
    if accesses != [] {
      var a := accesses[0];
      AcquireKeepsView(pool, a.id, victims[0]);
      var (p, i) := Acquired(pool, a.id, victims[0]);
      if a.write.Some? {
        WriteIsUpdate(p, i, a.id, a.write.value);
      }
      var next := if a.write.Some? then p.(data := p.data[i := a.write.value]) else p;
      PoolIsMemory(next, accesses[1..], victims[1..], read[1..], last);
    }
  }

  // ----- Writing everything back -----

  /** The disk after the first n frames have been written back. */
  function DumpedAll(pool: Pool, n: nat): Memory
    requires |pool.held| == |pool.data| && n <= |pool.held|
  {
    if n == 0 then pool.disk else Dumped(pool.(disk := DumpedAll(pool, n - 1)), n - 1)
  }

  lemma {:induction false} DumpedAllContent(pool: Pool, n: nat)
    requires Consistent(pool) && n <= |pool.held|
    ensures DumpedAll(pool, n).Keys == pool.disk.Keys
    ensures forall x :: x in pool.disk ==>
              DumpedAll(pool, n)[x] == if Holder(pool.held, x) < n then Content(pool, x) else pool.disk[x]
  {
    hide Holder, Content;
    if n > 0 {
      DumpedAllContent(pool, n - 1);
      forall x | x in pool.disk
        ensures DumpedAll(pool, n)[x] == if Holder(pool.held, x) < n then Content(pool, x) else pool.disk[x]
      {
        DumpedOne(pool, n, x);
      }
    }
  }

  lemma DumpedOne(pool: Pool, n: nat, x: PageId)
    requires Consistent(pool) && 0 < n <= |pool.held| && x in pool.disk && DumpedAll(pool, n - 1).Keys == pool.disk.Keys
    requires DumpedAll(pool, n - 1)[x] == if Holder(pool.held, x) < n - 1 then Content(pool, x) else pool.disk[x]
    ensures x in DumpedAll(pool, n)
    ensures DumpedAll(pool, n)[x] == if Holder(pool.held, x) < n then Content(pool, x) else pool.disk[x]
  {
    if pool.held[n - 1] == Some(x) {
      HolderUnique(pool, x, n - 1);
    }
    hide Holder;
  }

  /** Writing back all frames leaves on disk what the pool showed. */
  lemma DumpedAllIsView(pool: Pool)
    requires Consistent(pool)
    ensures DumpedAll(pool, |pool.held|) == View(pool)
  {
    DumpedAllContent(pool, |pool.held|);
  }

  // ----- The object -----

  class Disk {
    var pages: Memory

    method ReadPage(buf: array<byte>, id: PageId)
      requires id in pages && |pages[id]| == buf.Length
      modifies buf
      ensures buf[..] == pages[id]
    {
      for i := 0 to buf.Length
        invariant buf[..i] == pages[id][..i]
      {
        buf[i] := pages[id][i];
      }
    }

    method WritePage(buf: array<byte>, id: PageId)
      modifies this
      ensures pages == old(pages)[id := buf[..]]
    {
      pages := pages[id := buf[..]];
    }
  }

  datatype FrameState = FrameState(file: Option<int>, page: int, refs: nat)

  function HeldBy(f: FrameState): Option<PageId> {
    if f.file.Some? then Some(PageId(f.file.value, f.page)) else None
  }

  function HeldByAll(frames: seq<FrameState>): (held: seq<Option<PageId>>)
    ensures |held| == |frames| && forall i :: 0 <= i < |frames| ==> held[i] == HeldBy(frames[i])
  {
    if frames == [] then [] else [HeldBy(frames[0])] + HeldByAll(frames[1..])
  }

  ghost function Contents(buffers: seq<array<byte>>): (data: seq<Bytes>)
    reads buffers
    ensures |data| == |buffers| && forall i :: 0 <= i < |buffers| ==> data[i] == buffers[i][..]
  {
    if buffers == [] then [] else [buffers[0][..]] + Contents(buffers[1..])
  }

  method NewBuffers(n: nat) returns (made: seq<array<byte>>)
    ensures |made| == n && forall b :: b in made ==> fresh(b)
    ensures forall i :: 0 <= i < n ==> made[i].Length == PAGE_SIZE
    ensures forall i, j :: 0 <= i < j < n ==> made[i] != made[j]
  {
    made := [];
    while |made| < n
      invariant |made| <= n && forall b :: b in made ==> fresh(b)
      invariant forall i :: 0 <= i < |made| ==> made[i].Length == PAGE_SIZE
      invariant forall i, j :: 0 <= i < j < |made| ==> made[i] != made[j]
    {
      var data := new byte[PAGE_SIZE](_ => 0);
      assert data !in made;
      made := made + [data];
    }
  }

  class FramePool {
    const disk: Disk
    const cache: CC.ClockCache<PageId>
    const buffers: seq<array<byte>>
    var frames: seq<FrameState>

    ghost function State(): (pool: Pool)
      requires |buffers| == |frames|
      reads this, disk, buffers
    {
      Pool(HeldByAll(frames), Contents(buffers), disk.pages)
    }

    /** Frames over separate buffers hold different pages of the disk. */
    ghost predicate Framed()
      reads this, disk, buffers
    {
      |buffers| == |frames| && Consistent(State()) &&
      (forall i :: 0 <= i < |buffers| ==> buffers[i].Length == PAGE_SIZE) &&
      (forall i, j :: 0 <= i < j < |buffers| ==> buffers[i] != buffers[j]) &&
      forall id :: id in disk.pages ==> |disk.pages[id]| == PAGE_SIZE
    }

    ghost predicate Valid()
      reads this, disk, cache, buffers
    {
      Framed() && |frames| == |cache.keys| && cache.Valid() &&
      forall i :: 0 <= i < |frames| ==>
        cache.keys[i] == if frames[i].file.Some? then PageId(frames[i].file.value, frames[i].page) else PageId(0, 0)
    }

    /** No empty frame has the key of the page. Empty frames have the default key; on a hit of one
        the program would ask the missing file for its descriptor. */
    ghost predicate Findable(id: PageId)
      requires Valid()
      reads this, disk, cache, buffers
    {
      forall i :: 0 <= i < |frames| && cache.keys[i] == id ==> frames[i].file.Some?
    }

    constructor (disk: Disk, frameCount: nat)
      requires frameCount >= 1 && forall id :: id in disk.pages ==> |disk.pages[id]| == PAGE_SIZE
      ensures Valid() && fresh(cache) && (forall b :: b in buffers ==> fresh(b)) && this.disk == disk
      ensures |frames| == frameCount && View(State()) == disk.pages
    {
      this.disk := disk;
      cache := new CC.ClockCache(frameCount, PageId(0, 0));
      var made := NewBuffers(frameCount);
      buffers := made;
      frames := seq(frameCount, _ => FrameState(None, 0, 0));
      new;
      NothingHeld(State());
    }

    method DumpFrame(slot: nat)
      requires |buffers| == |frames| && slot < |frames|
      modifies disk
      ensures disk.pages == Dumped(old(State()), slot)
    {
      var frame := frames[slot];
      if frame.file.Some? {
        disk.WritePage(buffers[slot], PageId(frame.file.value, frame.page));
      }
    }

    /** A miss: the slot taken by the clock is written back and read anew. */
    method Load(id: PageId) returns (slot: nat)
      requires Valid() && id in disk.pages && id !in cache.keys
      modifies this, cache, disk, buffers
      ensures Valid() && slot == CC.Take(old(cache.clock), old(cache.hand)).slot
      ensures State() == Loaded(old(State()), slot, id)
    {
      NotHeld(id);
      slot := cache.Put(id);
      Refill(slot, id);
    }

    method Refill(slot: nat, id: PageId)
      requires Framed() && slot < |frames| && id in disk.pages && Holder(State().held, id) == |State().held|
      modifies this`frames, disk, buffers
      ensures Framed() && State() == Loaded(old(State()), slot, id)
      ensures frames == old(frames)[slot := FrameState(Some(id.fd), id.page, old(frames)[slot].refs)]
    {
      ghost var was := State();
      DumpFrame(slot);
      frames := frames[slot := FrameState(Some(id.fd), id.page, frames[slot].refs)];
      disk.ReadPage(buffers[slot], id);
      LoadedConsistent(was, slot, id);
      assert State().held == Loaded(was, slot, id).held;
      assert State().data == Loaded(was, slot, id).data;
    }

    lemma NotHeld(id: PageId)
      requires Valid() && id !in cache.keys
      ensures Holder(State().held, id) == |State().held|
    {
      Unfound(id);
    }

    lemma HeldByFrame(id: PageId, slot: nat)
      requires Valid() && Findable(id) && slot < |cache.keys| && cache.keys[slot] == id
      ensures Holder(State().held, id) == slot && HeldBy(frames[slot]) == Some(id)
    {
      HolderUnique(State(), id, slot);
    }

    lemma Unfound(id: PageId)
      requires Valid() && id !in cache.keys
      ensures forall i :: 0 <= i < |frames| ==> HeldBy(frames[i]) != Some(id)
    {
      forall i | 0 <= i < |frames| ensures HeldBy(frames[i]) != Some(id) {
        assert cache.keys[i] in cache.keys;
      }
    }

    /** The reference taken on a frame; the first one sets the slot's bit. */
    method Pin(slot: nat, id: PageId)
      requires Valid() && slot < |frames|
      modifies this, cache
      ensures Valid() && State() == old(State())
      ensures frames == old(frames)[slot := old(frames)[slot].(refs := old(frames)[slot].refs + 1)]
    {
      ghost var was := State();
      frames := frames[slot := frames[slot].(refs := frames[slot].refs + 1)];
      assert State().held == was.held;
      if frames[slot].refs == 1 {
        cache.Lock(id);
      }
    }

    method AcquireFrame(id: PageId) returns (slot: nat)
      requires Valid() && id in disk.pages && Findable(id)
      modifies this, cache, disk, buffers
      ensures Valid()
      ensures (State(), slot) == Acquired(old(State()), id, CC.Take(old(cache.clock), old(cache.hand)).slot)
      ensures View(State()) == old(View(State())) && buffers[slot][..] == View(State())[id]
    {
      hide View, Loaded, CC.Take, Holder;
      AcquireKeepsView(State(), id, CC.Take(cache.clock, cache.hand).slot);
      var found, index := cache.Find(id);
      if found {
        slot := index;
        HeldByFrame(id, slot);
      } else {
        NotHeld(id);
        slot := Load(id);
      }
      Pin(slot, id);
    }

    /** An access takes the page of frame t away exactly if it is a miss and slot t is next on the
        clock, whether there are references to the frame or not. */
    lemma LosesPage(id: PageId, t: nat)
      requires Valid() && Findable(id) && id in disk.pages && t < |frames|
      ensures var pool, clock := State(), cache.clock;
              Acquired(pool, id, CC.Take(clock, cache.hand).slot).0.held[t] != pool.held[t] <==>
              id !in cache.keys && CC.IsNext(clock, cache.hand, t)
    {
      hide Holder, CC.Take, CC.IsNext;
      CC.TakesNext(cache.clock, cache.hand, t);
      if id in cache.keys {
        var i :| 0 <= i < |cache.keys| && cache.keys[i] == id;
        HeldByFrame(id, i);
      } else {
        NotHeld(id);
        Unfound(id);
      }
    }

    method ReleaseFrame(slot: nat)
      requires Valid() && slot < |frames| && frames[slot].refs > 0 && frames[slot].file.Some?
      modifies this, cache
      ensures Valid() && State() == old(State())
      ensures frames == old(frames)[slot := old(frames)[slot].(refs := old(frames)[slot].refs - 1)]
    {
      ghost var was := State();
      frames := frames[slot := frames[slot].(refs := frames[slot].refs - 1)];
      assert State().held == was.held;
      if frames[slot].refs == 0 {
        cache.Unlock(PageId(frames[slot].file.value, frames[slot].page));
      }
    }

    /** What the destructor does: all frames are written back. */
    method Close()
      requires Valid()
      modifies disk
      ensures disk.pages == old(View(State()))
    {
      ghost var was := State();
      DumpedAllIsView(was);
      for i := 0 to |frames|
        invariant disk.pages == DumpedAll(was, i) && State() == was.(disk := disk.pages)
      {
        DumpFrame(i);
      }
    }
  }
}
