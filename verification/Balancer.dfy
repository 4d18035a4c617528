/** The master's allocation of tables to chunks (master/balancer.cpp): greedy choice from the
    ordered free positions, and the text that records it. */
module Balancer {
  import opened Rows
  import opened Seqs
  import opened Comparator
  import opened OrderedSet
  import opened Texts
  import opened Decimal
  import KV = KVStorage

  datatype Chunk = Chunk(host: Text, port: int32)

  /** A part of a table on a chunk. */
  datatype Piece = Piece(chunk: Chunk, bytes: int32)

  // ----- The text of a partition -----

  const COMMA: byte := 44
  const COLON: byte := 58
  const SEMICOLON: byte := 59

  function PieceText(p: Piece): Text {
    p.chunk.host + [COMMA] + ToText(p.chunk.port) + [COLON] + ToText(p.bytes)
  }

  function PartitionText(ps: seq<Piece>): Text {
    if ps == [] then [] else PieceText(ps[0]) + [SEMICOLON] + PartitionText(ps[1..])
  }

  function ReadInt(t: Text): (r: Option<(int, Text)>)
    ensures r.Some? ==> -0x8000_0000 <= r.value.0 < 0x8000_0000
  {
    ReadNumber(t, -0x8000_0000, 0x7fff_ffff)
  }

  /** The piece that a token names, None if it is not of the form host,port:bytes. */
  function ParsePiece(token: Text): Option<Piece> {
    var i := IndexOf(token, COMMA);
    if i == |token| then None
    else
      var port := ReadInt(token[i + 1..]);
      if port.None? then None
      else
        var u := SkipSpace(port.value.1);
        if u == [] || u[0] != COLON then None
        else
          var bytes := ReadInt(u[1..]);
          if bytes.None? then None else Some(Piece(Chunk(token[..i], port.value.0), bytes.value.0))
  }

  /** The pieces of the tokens between semicolons; tokens of another form are skipped. */
  function ParsePartition(t: Text): seq<Piece>
    decreases |t|
  {
    if t == [] then []
    else
      var i := IndexOf(t, SEMICOLON);
      var p := ParsePiece(t[..i]);
      (if p.Some? then [p.value] else []) + ParsePartition(if i < |t| then t[i + 1..] else [])
  }

  predicate CleanHost(p: Piece) {
    COMMA !in p.chunk.host && SEMICOLON !in p.chunk.host
  }

  lemma PieceReadsBack(p: Piece)
    requires CleanHost(p)
    ensures ParsePiece(PieceText(p)) == Some(p)
  {
    var host, port, bytes := p.chunk.host, ToText(p.chunk.port), ToText(p.bytes);
    var t := PieceText(p);
    hide ToText, ReadNumber;
    assert t[|host|] == COMMA && t[..|host|] == host;
    IndexOfIs(t, COMMA, |host|);
    assert t[|host| + 1..] == port + ([COLON] + bytes);
    NumberReadsBack(p.chunk.port, [COLON] + bytes, -0x8000_0000, 0x7fff_ffff);
    assert SkipSpace([COLON] + bytes) == [COLON] + bytes;
    assert ([COLON] + bytes)[1..] == bytes + [];
    NumberReadsBack(p.bytes, [], -0x8000_0000, 0x7fff_ffff);
  }

  /** What is read as a piece: a host up to the first comma, a port, blanks, a colon and a number, with
      anything behind; none without them. */
  lemma PieceForms(host: Text, port: int32, blanks: Text, bytes: int32, rest: Text)
    requires COMMA !in host && (forall i :: 0 <= i < |blanks| ==> IsSpace(blanks[i])) && (rest != [] ==> !IsDigit(rest[0]))
    ensures ParsePiece(host + [COMMA] + (ToText(port) + (blanks + ([COLON] + (ToText(bytes) + rest)))))
            == Some(Piece(Chunk(host, port), bytes))
    ensures ParsePiece(host) == None
    ensures blanks == [] && (rest == [] || (rest[0] != COLON && !IsSpace(rest[0]))) ==>
              ParsePiece(host + [COMMA] + (ToText(port) + rest)) == None
  {
    var tail := [COLON] + (ToText(bytes) + rest);
    PieceParsed(host, port, blanks + tail);
    BlanksSkipped(blanks, tail);
    assert tail[1..] == ToText(bytes) + rest;
    NumberReadsBack(bytes, rest, -0x8000_0000, 0x7fff_ffff);
    hide ToText, ReadNumber;
    if blanks == [] && (rest == [] || (rest[0] != COLON && !IsSpace(rest[0]))) {
      PieceParsed(host, port, rest);
      BlanksSkipped([], rest);
      assert [] + rest == rest;
    }
    IndexOfNone(host, COMMA);
  }

  lemma PieceParsed(host: Text, port: int32, rest: Text)
    requires COMMA !in host && (rest != [] ==> !IsDigit(rest[0]))
    ensures ParsePiece(host + [COMMA] + (ToText(port) + rest)) ==
            var u := SkipSpace(rest);
            if u == [] || u[0] != COLON then None
            else
              var bytes := ReadInt(u[1..]);
              if bytes.None? then None else Some(Piece(Chunk(host, port), bytes.value.0))
  {
    var t := host + [COMMA] + (ToText(port) + rest);
    assert t[|host|] == COMMA && t[..|host|] == host && t[|host| + 1..] == ToText(port) + rest;
    IndexOfIs(t, COMMA, |host|);
    NumberReadsBack(port, rest, -0x8000_0000, 0x7fff_ffff);
    hide ToText, ReadNumber;
  }

  /** A piece as it is recorded. */
  lemma PieceLayout()
    ensures PieceText(Piece(Chunk(Letters("ab"), -80), 5)) == Letters("ab,-80:5")
  {
    assert Digits(80) == Digits(8) + [48];
  }

  /** Pieces are recorded in order, with a semicolon behind each. */
  lemma PartitionLayout(p: Piece, q: Piece)
    ensures PartitionText([p, q]) == PieceText(p) + Letters(";") + PieceText(q) + Letters(";")
  {
    hide PieceText;
    assert [p, q][1..] == [q] && Letters(";") == [SEMICOLON];
    assert PartitionText([q]) == PieceText(q) + [SEMICOLON];
  }

  lemma {:induction false} DigitsOnly(n: nat, c: byte)
    requires !IsDigit(c)
    ensures c !in Digits(n)
  {
  }

  lemma PieceWithoutSemicolon(p: Piece)
    requires CleanHost(p)
    ensures SEMICOLON !in PieceText(p)
  {
    DigitsOnly(Magnitude(p.chunk.port), SEMICOLON);
    DigitsOnly(Magnitude(p.bytes), SEMICOLON);
  }

  function Magnitude(i: int): nat {
    if i < 0 then -i else i
  }

  lemma ParseStep(t: Text)
    ensures t == [] ==> ParsePartition(t) == []
    ensures t != [] ==>
              var i := IndexOf(t, SEMICOLON);
              var p := ParsePiece(t[..i]);
              ParsePartition(t) ==
                (if p.Some? then [p.value] else []) + ParsePartition(if i < |t| then t[i + 1..] else [])
  {
  }

  lemma TokenParsed(x: Text, rest: Text)
    requires SEMICOLON !in x
    ensures ParsePartition(x + [SEMICOLON] + rest)
            == (if ParsePiece(x).Some? then [ParsePiece(x).value] else []) + ParsePartition(rest)
  {
    hide ParsePiece, IndexOf;
    var t := x + [SEMICOLON] + rest;
    assert t[..|x|] == x && t[|x|] == SEMICOLON && t[|x| + 1..] == rest;
    IndexOfIs(t, SEMICOLON, |x|);
  }

  lemma {:induction false} CleanReadsBack(ps: seq<Piece>)
    requires forall i :: 0 <= i < |ps| ==> CleanHost(ps[i])
    ensures ParsePartition(PartitionText(ps)) == ps
  {
    hide PieceText, ParsePiece, ParsePartition, CleanHost;
    if ps == [] {
      ParseStep([]);
    } else {
      CleanReadsBack(ps[1..]);
      PieceReadsBack(ps[0]);
      PieceWithoutSemicolon(ps[0]);
      TokenParsed(PieceText(ps[0]), PartitionText(ps[1..]));
      assert [ps[0]] + ps[1..] == ps;
    }
  }

  lemma {:induction false} ParsedAreClean(t: Text)
    ensures forall i :: 0 <= i < |ParsePartition(t)| ==> CleanHost(ParsePartition(t)[i])
    decreases |t|
  {
    if t != [] {
      var i := IndexOf(t, SEMICOLON);
      ParsedAreClean(if i < |t| then t[i + 1..] else []);
      var token := t[..i];
      var j := IndexOf(token, COMMA);
      assert SEMICOLON !in token[..j];
    }
  }

  /** A recorded partition reads back exactly if no host contains a separator. */
  lemma PartitionRoundTrip(ps: seq<Piece>)
    ensures ParsePartition(PartitionText(ps)) == ps <==> forall i :: 0 <= i < |ps| ==> CleanHost(ps[i])
  {
    ParsedAreClean(PartitionText(ps));
    if forall i :: 0 <= i < |ps| ==> CleanHost(ps[i]) {
      CleanReadsBack(ps);
    }
  }

  // ----- Free positions -----

  datatype Free = Free(size: int, chunk: Chunk)

  /** By size, then host, then port. */
  predicate FreeBefore(a: Free, b: Free) {
    if a.size != b.size then a.size < b.size
    else if a.chunk.host != b.chunk.host then TextLess(a.chunk.host, b.chunk.host)
    else a.chunk.port < b.chunk.port
  }

  lemma FreeBeforeTotal()
    ensures StrictTotal(FreeBefore)
  {
    forall a, b ensures FreeBefore(a, b) ==> !FreeBefore(b, a) {
      TextLessTotal(a.chunk.host, b.chunk.host);
    }
    forall a, b ensures !FreeBefore(a, b) && !FreeBefore(b, a) ==> a == b {
      TextLessTotal(a.chunk.host, b.chunk.host);
    }
    forall a, b, c | FreeBefore(a, b) && FreeBefore(b, c) ensures FreeBefore(a, c) {
      if a.size == b.size == c.size {
        if TextLess(a.chunk.host, b.chunk.host) && TextLess(b.chunk.host, c.chunk.host) {
          TextLessTransitive(a.chunk.host, b.chunk.host, c.chunk.host);
          TextLessTotal(a.chunk.host, c.chunk.host);
        }
      }
    }
  }

  /** Positions of equal size are ordered by host, and those of one host by port. */
  lemma FreeOrder(a: Free, b: Free)
    ensures FreeBefore(a, b) <==>
            a.size < b.size ||
            (a.size == b.size &&
              ((exists i: nat :: TextBefore(a.chunk.host, b.chunk.host, i)) ||
               (a.chunk.host == b.chunk.host && a.chunk.port < b.chunk.port)))
  {
    TextLessMeaning(a.chunk.host, b.chunk.host);
    TextLessTotal(a.chunk.host, b.chunk.host);
  }

  lemma InsertFree(free: seq<Free>, x: Free)
    requires Ascending(free, FreeBefore)
    ensures Ascending(Insert(free, x, FreeBefore), FreeBefore)
  {
    FreeBeforeTotal();
    InsertAscends(free, x, FreeBefore);
  }

  lemma EraseFree(free: seq<Free>, x: Free)
    requires Ascending(free, FreeBefore)
    ensures Ascending(Erase(free, x), FreeBefore)
    ensures forall y :: y in Erase(free, x) <==> y in free && y != x
  {
    FreeBeforeTotal();
    EraseAscends(free, x, FreeBefore);
  }

  ghost predicate OncePerChunk(free: seq<Free>) {
    forall x, y :: x in free && y in free && x.chunk == y.chunk ==> x == y
  }

  function Total(free: seq<Free>): int {
    if |free| == 0 then 0 else Total(free[..|free| - 1]) + free[|free| - 1].size
  }

  /** The free bytes of one chunk. */
  function FreeOf(free: seq<Free>, c: Chunk): int {
    if |free| == 0 then 0
    else FreeOf(free[..|free| - 1], c) + if free[|free| - 1].chunk == c then free[|free| - 1].size else 0
  }

  function Bytes(ps: seq<Piece>): int {
    if ps == [] then 0 else ps[0].bytes + Bytes(ps[1..])
  }

  function BytesOn(ps: seq<Piece>, c: Chunk): int {
    if ps == [] then 0 else (if ps[0].chunk == c then ps[0].bytes else 0) + BytesOn(ps[1..], c)
  }

  /** Sizes are what an int can say of free bytes. */
  ghost predicate Sized(free: seq<Free>) {
    forall x :: x in free ==> 0 <= x.size < 0x8000_0000
  }

  // ----- Greedy allocation -----

  /** The pieces that the loop takes from the greatest positions, all of them when they do not
      suffice. */
  function Pieces(free: seq<Free>, size: nat): seq<Piece>
    requires Sized(free)
    decreases |free|
  {
    if size == 0 || |free| == 0 then []
    else
      var init, last := free[..|free| - 1], free[|free| - 1];
      if size >= last.size then [Piece(last.chunk, last.size)] + Pieces(init, size - last.size)
      else [Piece(last.chunk, size)]
  }

  function Remaining(free: seq<Free>, size: nat): seq<Free>
    decreases |free|
  {
    if size == 0 || |free| == 0 then free
    else
      var init, last := free[..|free| - 1], free[|free| - 1];
      if size >= last.size then Remaining(init, size - last.size)
      else Insert(init, Free(last.size - size, last.chunk), FreeBefore)
  }

  function Enough(free: seq<Free>, size: nat): bool
    decreases |free|
  {
    size == 0 || (|free| > 0 &&
      (size < free[|free| - 1].size || Enough(free[..|free| - 1], size - free[|free| - 1].size)))
  }

  lemma {:induction false} TotalPositive(free: seq<Free>)
    requires Sized(free)
    ensures Total(free) >= 0
  {
    if |free| > 0 {
      assert free[|free| - 1] in free;
      TotalPositive(free[..|free| - 1]);
    }
  }

  /** The allocation fails exactly if the total is below the request, and then nothing is left. */
  lemma {:induction false} EnoughIsTotal(free: seq<Free>, size: nat)
    requires Sized(free)
    ensures Enough(free, size) <==> Total(free) >= size
    ensures !Enough(free, size) ==> Remaining(free, size) == []
    decreases |free|
  {
    TotalPositive(free);
    if |free| > 0 {
      TotalPositive(free[..|free| - 1]);
    }
    if size > 0 && |free| > 0 && size >= free[|free| - 1].size {
      EnoughIsTotal(free[..|free| - 1], size - free[|free| - 1].size);
    }
  }

  /** The pieces come from the positions, the last one first, and all but the last piece are whole. */
  lemma {:induction false} LastFirst(free: seq<Free>, size: nat)
    requires Sized(free)
    ensures var ps := Pieces(free, size);
            |ps| <= |free| &&
            forall j :: 0 <= j < |ps| ==>
              ps[j].chunk == free[|free| - 1 - j].chunk && (j < |ps| - 1 ==> ps[j].bytes == free[|free| - 1 - j].size)
    decreases |free|
  {
    if size > 0 && |free| > 0 && size >= free[|free| - 1].size {
      LastFirst(free[..|free| - 1], size - free[|free| - 1].size);
    }
  }

  /** The pieces of a successful allocation sum to the request. */
  lemma {:induction false} PiecesSum(free: seq<Free>, size: nat)
    requires Sized(free) && Enough(free, size)
    ensures Bytes(Pieces(free, size)) == size
    decreases |free|
  {
    if size > 0 {
      var init, last := free[..|free| - 1], free[|free| - 1];
      if size >= last.size {
        PiecesSum(init, size - last.size);
        assert Pieces(free, size)[1..] == Pieces(init, size - last.size);
      }
    }
  }

  lemma {:induction false} SmallerTotal(free: seq<Free>)
    requires Sized(free) && Ascending(free, FreeBefore) && (|free| > 0 ==> free[|free| - 1].size == 0)
    ensures Total(free) == 0
  {
    if |free| > 1 {
      FreeBeforeTotal();
      InitMembers(free, FreeBefore);
      assert FreeBefore(free[|free| - 2], free[|free| - 1]);
      SmallerTotal(free[..|free| - 1]);
    }
  }

  /** ... and none of them is empty. */
  lemma {:induction false} PiecesPositive(free: seq<Free>, size: nat)
    requires Sized(free) && Ascending(free, FreeBefore) && Enough(free, size)
    ensures forall p :: p in Pieces(free, size) ==> p.bytes > 0
    decreases |free|
  {
    if size > 0 {
      var init, last := free[..|free| - 1], free[|free| - 1];
      FreeBeforeTotal();
      InitMembers(free, FreeBefore);
      hide FreeBefore, Ascending;
      if last.size == 0 {
        SmallerTotal(free);
        EnoughIsTotal(free, size);
      } else if size >= last.size {
        PiecesPositive(init, size - last.size);
      }
    }
  }

  lemma {:induction false} TotalFirst(free: seq<Free>, x: Free)
    ensures Total([x] + free) == Total(free) + x.size
    decreases |free|
  {
    var s := [x] + free;
    if |free| == 0 {
      assert s[..|s| - 1] == [];
    } else {
      TotalFirst(free[..|free| - 1], x);
      assert s[..|s| - 1] == [x] + free[..|free| - 1];
    }
  }

  lemma {:induction false} TotalInsert(free: seq<Free>, x: Free)
    requires x !in free
    ensures Total(Insert(free, x, FreeBefore)) == Total(free) + x.size
  {
    if free != [] && !FreeBefore(x, free[0]) {
      TotalInsert(free[1..], x);
      TotalFirst(free[1..], free[0]);
      TotalFirst(Insert(free[1..], x, FreeBefore), free[0]);
      assert free == [free[0]] + free[1..];
    } else {
      TotalFirst(free, x);
    }
  }

  /** A successful allocation takes the request off the total. */
  lemma {:induction false} TotalDrops(free: seq<Free>, size: nat)
    requires Ascending(free, FreeBefore) && OncePerChunk(free) && Enough(free, size)
    ensures Total(Remaining(free, size)) == Total(free) - size
    decreases |free|
  {
    hide FreeBefore, Ascending, OncePerChunk, Insert;
    if size > 0 {
      var init, last := free[..|free| - 1], free[|free| - 1];
      InitOnce(free);
      if size >= last.size {
        TotalDrops(init, size - last.size);
      } else {
        TotalInsert(init, Free(last.size - size, last.chunk));
      }
    }
  }

  lemma InitOnce(free: seq<Free>)
    requires Ascending(free, FreeBefore) && OncePerChunk(free) && |free| > 0
    ensures var init, last := free[..|free| - 1], free[|free| - 1];
            Ascending(init, FreeBefore) && OncePerChunk(init) && forall x :: x in init ==> x.chunk != last.chunk
  {
    FreeBeforeTotal();
    InitMembers(free, FreeBefore);
    assert free[|free| - 1] in free;
  }

  lemma {:induction false} FreeOfOther(free: seq<Free>, c: Chunk)
    requires forall x :: x in free ==> x.chunk != c
    ensures FreeOf(free, c) == 0
  {
    if |free| > 0 {
      FreeOfOther(free[..|free| - 1], c);
    }
  }

  lemma {:induction false} FreeOfFirst(free: seq<Free>, x: Free, c: Chunk)
    ensures FreeOf([x] + free, c) == FreeOf(free, c) + if x.chunk == c then x.size else 0
    decreases |free|
  {
    var s := [x] + free;
    if |free| == 0 {
      assert s[..|s| - 1] == [];
    } else {
      FreeOfFirst(free[..|free| - 1], x, c);
      assert s[..|s| - 1] == [x] + free[..|free| - 1];
    }
  }

  lemma {:induction false} FreeOfInsert(free: seq<Free>, x: Free, c: Chunk)
    requires x !in free
    ensures FreeOf(Insert(free, x, FreeBefore), c) == FreeOf(free, c) + if x.chunk == c then x.size else 0
  {
    if free != [] && !FreeBefore(x, free[0]) {
      FreeOfInsert(free[1..], x, c);
      FreeOfFirst(free[1..], free[0], c);
      FreeOfFirst(Insert(free[1..], x, FreeBefore), free[0], c);
      assert free == [free[0]] + free[1..];
    } else {
      FreeOfFirst(free, x, c);
    }
  }

  /** Chunk by chunk, what the allocation takes is what is no longer free; so no piece exceeds
      its chunk. */
  lemma {:induction false} Conserved(free: seq<Free>, size: nat, c: Chunk)
    requires Sized(free) && Ascending(free, FreeBefore) && OncePerChunk(free)
    ensures FreeOf(Remaining(free, size), c) + BytesOn(Pieces(free, size), c) == FreeOf(free, c)
    decreases |free|
  {
    hide FreeBefore, Ascending, OncePerChunk, Insert;
    if size > 0 && |free| > 0 {
      var init, last := free[..|free| - 1], free[|free| - 1];
      InitOnce(free);
      assert forall x :: x in init ==> x in free;
      if size >= last.size {
        Conserved(init, size - last.size, c);
        assert Pieces(free, size)[1..] == Pieces(init, size - last.size);
      } else {
        FreeOfInsert(init, Free(last.size - size, last.chunk), c);
        assert Pieces(free, size)[1..] == [];
      }
    }
  }

  /** The state after a successful allocation is again one position a chunk. */
  lemma {:induction false} RemainingSound(free: seq<Free>, size: nat)
    requires Sized(free) && Ascending(free, FreeBefore) && OncePerChunk(free)
    ensures var r := Remaining(free, size);
            Sized(r) && Ascending(r, FreeBefore) && OncePerChunk(r) &&
            forall x :: x in r ==> exists y :: y in free && y.chunk == x.chunk && x.size <= y.size
    decreases |free|
  {
    hide FreeBefore, Ascending, Insert;
    if size > 0 && |free| > 0 {
      var init, last := free[..|free| - 1], free[|free| - 1];
      InitOnce(free);
      assert forall x :: x in init ==> x in free;
      if size >= last.size {
        RemainingSound(init, size - last.size);
      } else {
        InsertFree(init, Free(last.size - size, last.chunk));
        assert last in free;
      }
    } else {
      assert Remaining(free, size) == free;
    }
  }

  // ----- No allocation uses fewer chunks -----

  /** The sum of the m greatest positions. */
  function Top(free: seq<Free>, m: nat): int
    requires m <= |free|
  {
    if m == 0 then 0 else free[|free| - 1].size + Top(free[..|free| - 1], m - 1)
  }

  /** Positions of a list, each at most once. */
  ghost predicate Chosen(free: seq<Free>, chosen: seq<Free>) {
    Distinct(chosen) && forall x :: x in chosen ==> x in free
  }

  lemma {:induction false} TopInit(free: seq<Free>, m: nat)
    requires Ascending(free, FreeBefore) && m < |free|
    ensures Top(free[..|free| - 1], m) <= Top(free, m)
    decreases m
  {
    if m > 0 {
      var init := free[..|free| - 1];
      TopInit(init, m - 1);
      assert FreeBefore(free[|free| - 2], free[|free| - 1]);
    }
  }

  lemma {:induction false} TotalWithout(chosen: seq<Free>, i: nat)
    requires i < |chosen|
    ensures Total(chosen) == Total(RemoveAt(chosen, i)) + chosen[i].size
    decreases |chosen|
  {
    var r := RemoveAt(chosen, i);
    if i == |chosen| - 1 {
      assert r == chosen[..i];
    } else {
      TotalWithout(chosen[..|chosen| - 1], i);
      var init := chosen[..|chosen| - 1];
      assert init[..i] == chosen[..i] && init[i + 1..] == chosen[i + 1..|chosen| - 1];
      assert r[..|r| - 1] == RemoveAt(init, i);
    }
  }

  /** Any m positions hold at most what the m greatest hold. */
  lemma {:induction false} TopIsMost(free: seq<Free>, chosen: seq<Free>)
    requires Ascending(free, FreeBefore) && Chosen(free, chosen)
    ensures |chosen| <= |free| && Total(chosen) <= Top(free, |chosen|)
    decreases |free|
  {
    if chosen != [] {
      assert chosen[0] in free;
      FreeBeforeTotal();
      InitMembers(free, FreeBefore);
      var init, last := free[..|free| - 1], free[|free| - 1];
      if last in chosen {
        var i :| 0 <= i < |chosen| && chosen[i] == last;
        var rest := RemoveAt(chosen, i);
        RemoveAtDistinct(chosen, i);
        assert forall x :: x in rest ==> x in chosen;
        TopIsMost(init, rest);
        TotalWithout(chosen, i);
      } else {
        TopIsMost(init, chosen);
        TopInit(free, |chosen|);
      }
    }
  }

  /** All pieces but the last come short of the request. */
  lemma {:induction false} PiecesNeeded(free: seq<Free>, size: nat)
    requires Sized(free) && Enough(free, size)
    ensures size > 0 ==> 0 < |Pieces(free, size)| <= |free| && Top(free, |Pieces(free, size)| - 1) < size
    decreases |free|
  {
    if size > 0 {
      var init, last := free[..|free| - 1], free[|free| - 1];
      if size >= last.size {
        PiecesNeeded(init, size - last.size);
        if size > last.size {
          assert Top(free, |Pieces(free, size)| - 1) == last.size + Top(init, |Pieces(init, size - last.size)| - 1);
        }
      }
    }
  }

  lemma {:induction false} TopPositive(free: seq<Free>, n: nat)
    requires Sized(free) && n <= |free|
    ensures Top(free, n) >= 0
    decreases n
  {
    if n > 0 {
      TopPositive(free[..|free| - 1], n - 1);
    }
  }

  lemma {:induction false} TopGrows(free: seq<Free>, m: nat, n: nat)
    requires Sized(free) && m <= n <= |free|
    ensures Top(free, m) <= Top(free, n)
    decreases m
  {
    if n > 0 {
      assert free[|free| - 1] in free;
    }
    if m == 0 {
      TopPositive(free, n);
    } else {
      TopGrows(free[..|free| - 1], m - 1, n - 1);
    }
  }

  /** Fewer positions than pieces hold less than the request. */
  lemma FewestPieces(free: seq<Free>, size: nat, chosen: seq<Free>)
    requires Sized(free) && Ascending(free, FreeBefore) && Enough(free, size)
    requires Chosen(free, chosen) && |chosen| < |Pieces(free, size)|
    ensures Total(chosen) < size
  {
    TopIsMost(free, chosen);
    PiecesNeeded(free, size);
    TopGrows(free, |chosen|, |Pieces(free, size)| - 1);
  }

  // ----- Updates of free space -----

  /** A size_t as an int. */
  function AsInt(n: nat): int {
    var m := n % 0x1_0000_0000;
    if m < 0x8000_0000 then m else m - 0x1_0000_0000
  }

  /** It is the same number modulo 2^32, as a signed one. */
  lemma AsIntMeaning(n: nat)
    ensures -0x8000_0000 <= AsInt(n) < 0x8000_0000 && (n - AsInt(n)) % 0x1_0000_0000 == 0
  {
  }

  /** The positions are those that chunk2Free_ says. */
  ghost predicate Synced(free: seq<Free>, sizes: map<Chunk, int>) {
    (forall x :: x in free ==> x.chunk in sizes && sizes[x.chunk] == x.size) &&
    forall c :: c in sizes ==> Free(sizes[c], c) in free
  }

  function Updated(free: seq<Free>, sizes: map<Chunk, int>, c: Chunk, size: int): seq<Free> {
    Insert(Erase(free, Free(if c in sizes then sizes[c] else 0, c)), Free(size, c), FreeBefore)
  }

  lemma UpdateKeepsSynced(free: seq<Free>, sizes: map<Chunk, int>, c: Chunk, size: int)
    requires Ascending(free, FreeBefore) && Synced(free, sizes)
    ensures Ascending(Updated(free, sizes, c, size), FreeBefore) && OncePerChunk(Updated(free, sizes, c, size))
    ensures Synced(Updated(free, sizes, c, size), sizes[c := size])
  {
    hide FreeBefore, Ascending, Insert, Erase;
    var stale := Free(if c in sizes then sizes[c] else 0, c);
    EraseFree(free, stale);
    InsertFree(Erase(free, stale), Free(size, c));
  }

  /** An update leaves one position per chunk exactly if every position of the chunk has the size
      that the map remembers or the size that is reported. */
  lemma UpdatedOnce(free: seq<Free>, sizes: map<Chunk, int>, c: Chunk, size: int)
    requires Ascending(free, FreeBefore) && OncePerChunk(free)
    ensures OncePerChunk(Updated(free, sizes, c, size)) <==>
            forall x :: x in free && x.chunk == c ==> x.size == (if c in sizes then sizes[c] else 0) || x.size == size
  {
    hide FreeBefore, Ascending, Insert, Erase;
    var was, r := if c in sizes then sizes[c] else 0, Updated(free, sizes, c, size);
    EraseFree(free, Free(was, c));
    assert forall y :: y in r <==> y == Free(size, c) || (y in free && y != Free(was, c));
    if OncePerChunk(r) {
      forall x | x in free && x.chunk == c && x.size != was ensures x.size == size {
        assert x in r && Free(size, c) in r;
      }
    }
  }

  /** An allocation does not tell the map. The next update of a chunk that it cut leaves one
      position exactly if the reported size is what the allocation left; the next update of any
      other chunk always does. */
  lemma UpdateAfterAllocation(free: seq<Free>, sizes: map<Chunk, int>, request: nat, c: Chunk, size: int)
    requires Sized(free) && Ascending(free, FreeBefore) && Synced(free, sizes)
    ensures var left := Remaining(free, request);
            OncePerChunk(Updated(left, sizes, c, size)) <==>
            forall x :: x in left && x.chunk == c && x !in free ==> x.size == size
  {
    hide FreeBefore, Ascending, Insert, Erase, Remaining;
    var left := Remaining(free, request);
    RemainingSound(free, request);
    UpdatedOnce(left, sizes, c, size);
    forall x | x in left && x.chunk == c ensures x in free <==> c in sizes && x.size == sizes[c] {
    }
    forall x | x in left && x.chunk == c ensures c in sizes {
      var y :| y in free && y.chunk == x.chunk && x.size <= y.size;
    }
  }

  /** Ten bytes free, four taken, seven reported: two positions of one chunk. */
  lemma TwoPositions(c: Chunk)
    ensures var free, sizes := [Free(10, c)], map[c := 10];
            var left := Remaining(free, 4);
            Synced(free, sizes) && left == [Free(6, c)] && !OncePerChunk(Updated(left, sizes, c, 7))
  {
    var free, sizes := [Free(10, c)], map[c := 10];
    assert free[..0] == [];
    UpdateAfterAllocation(free, sizes, 4, c, 7);
    assert Free(6, c) in Remaining(free, 4);
  }

  // ----- The object -----

  lemma {:induction false} PartitionTextExtend(ps: seq<Piece>, p: Piece)
    ensures PartitionText(ps + [p]) == PartitionText(ps) + (PieceText(p) + [SEMICOLON])
  {
    hide PieceText;
    if ps == [] {
      assert ps + [p] == [p] && PartitionText([p][1..]) == [];
      assert PartitionText([p]) == PieceText(p) + [SEMICOLON];
    } else {
      PartitionTextExtend(ps[1..], p);
      assert (ps + [p])[1..] == ps[1..] + [p];
      var a, b, c := PieceText(ps[0]) + [SEMICOLON], PartitionText(ps[1..]), PieceText(p) + [SEMICOLON];
      assert a + (b + c) == (a + b) + c;
    }
  }

  method SerializeValue(data: seq<Piece>) returns (t: Text)
    ensures t == PartitionText(data)
  {
    hide ToText;
    t := [];
    for i := 0 to |data|
      invariant t == PartitionText(data[..i])
    {
      var chunk, bytes := data[i].chunk, data[i].bytes;
      var token := chunk.host + [COMMA] + ToText(chunk.port) + [COLON] + ToText(bytes);
      PartitionTextExtend(data[..i], data[i]);
      assert data[..i + 1] == data[..i] + [data[i]] && token == PieceText(data[i]);
      hide PieceText, PartitionText;
      t := t + (token + [SEMICOLON]);
    }
    assert data[..|data|] == data;
  }

  method DeserializeValue(t: Text) returns (result: seq<Piece>)
    ensures result == ParsePartition(t)
  {
    hide ParsePartition, ParsePiece, IndexOf;
    ParseStep([]);
    result := [];
    var rest := t;
    while rest != []
      invariant result + ParsePartition(rest) == ParsePartition(t)
      decreases |rest|
    {
      var i := IndexOf(rest, SEMICOLON);
      var p := ParsePiece(rest[..i]);
      var next := if i < |rest| then rest[i + 1..] else [];
      ghost var found := if p.Some? then [p.value] else [];
      ParseStep(rest);
      assert result + (found + ParsePartition(next)) == (result + found) + ParsePartition(next);
      if p.Some? {
        result := result + [p.value];
      }
      rest := next;
    }
  }

  /** What one turn of the loop does to the rest of the allocation. */
  lemma GreedyStep(free: seq<Free>, size: nat)
    requires Sized(free) && size > 0 && |free| > 0
    ensures var init, last := free[..|free| - 1], free[|free| - 1];
            if size >= last.size then
              Sized(init) && Pieces(free, size) == [Piece(last.chunk, last.size)] + Pieces(init, size - last.size) &&
              Remaining(free, size) == Remaining(init, size - last.size) && Enough(free, size) == Enough(init, size - last.size)
            else
              var left := Insert(init, Free(last.size - size, last.chunk), FreeBefore);
              Sized(left) && Pieces(free, size) == [Piece(last.chunk, size)] && Pieces(left, 0) == [] &&
              Remaining(free, size) == left == Remaining(left, 0) && Enough(free, size) && Enough(left, 0)
  {
    var last := free[|free| - 1];
    assert last in free;
    if size < last.size {
      InsertSized(free[..|free| - 1], Free(last.size - size, last.chunk));
    }
  }

  class Balancer {
    const storage: KV.KVStorage
    var free: seq<Free>
    var sizes: map<Chunk, int>

    ghost predicate Valid()
      reads this, storage, storage.page.file
    {
      storage.Valid() && Ascending(free, FreeBefore)
    }

    constructor (storage: KV.KVStorage)
      requires storage.Valid()
      ensures Valid() && this.storage == storage && free == [] && sizes == map[]
    {
      this.storage := storage;
      free, sizes := [], map[];
    }

    /** A report of free bytes, narrowed to int; reports below 2^31 keep the sizes right. */
    method OnUpdate(chunk: Chunk, freeBytes: nat)
      requires Valid()
      modifies this
      ensures Valid()
      ensures free == Updated(old(free), old(sizes), chunk, AsInt(freeBytes))
      ensures sizes == old(sizes)[chunk := AsInt(freeBytes)]
      ensures Sized(old(free)) && freeBytes < 0x8000_0000 ==> Sized(free)
    {
      var size := AsInt(freeBytes);
      var prevSize := if chunk in sizes then sizes[chunk] else 0;
      EraseFree(free, Free(prevSize, chunk));
      free := Erase(free, Free(prevSize, chunk));
      sizes := sizes[chunk := size];
      InsertFree(free, Free(size, chunk));
      free := Insert(free, Free(size, chunk), FreeBefore);
    }

    /** The loop over the greatest positions; without enough of them it takes them all and throws. */
    method Allocate(tableSize: nat) returns (ok: bool, chunks: seq<Piece>)
      requires Valid() && Sized(free)
      modifies this`free
      ensures Valid() && Sized(free) && ok == Enough(old(free), tableSize)
      ensures chunks == Pieces(old(free), tableSize) && free == Remaining(old(free), tableSize)
    {
      chunks := [];
      var size := tableSize;
      while size > 0
        invariant Ascending(free, FreeBefore) && Sized(free)
        invariant chunks + Pieces(free, size) == Pieces(old(free), tableSize)
        invariant Remaining(free, size) == Remaining(old(free), tableSize)
        invariant Enough(free, size) == Enough(old(free), tableSize)
        decreases if size == 0 then 0 else |free| + 1
      {
        if |free| == 0 {
          return false, chunks;
        }
        size, chunks := TakeLast(size, chunks);
      }
      return true, chunks;
    }

    /** One turn of the loop. */
    method TakeLast(size: nat, chunks: seq<Piece>) returns (left: nat, taken: seq<Piece>)
      requires Ascending(free, FreeBefore) && Sized(free) && size > 0 && |free| > 0
      modifies this`free
      ensures Ascending(free, FreeBefore) && Sized(free)
      ensures taken + Pieces(free, left) == chunks + Pieces(old(free), size)
      ensures Remaining(free, left) == Remaining(old(free), size) && Enough(free, left) == Enough(old(free), size)
      ensures left == 0 || |free| < |old(free)|
    {
      var last := free[|free| - 1];
      var init := free[..|free| - 1];
      InitFree(free);
      GreedyStep(free, size);
      hide FreeBefore, Ascending, Sized, Insert, Pieces, Remaining, Enough;
      if size >= last.size {
        left := size - last.size;
        free := init;
        taken := chunks + [Piece(last.chunk, last.size)];
        assert taken + Pieces(init, left) == chunks + ([Piece(last.chunk, last.size)] + Pieces(init, left));
      } else {
        var smaller := Free(last.size - size, last.chunk);
        InsertFree(init, smaller);
        free := Insert(init, smaller, FreeBefore);
        taken := chunks + [Piece(last.chunk, size)];
        left := 0;
      }
    }

    /** Records the pieces of the allocation under the table's name; false where the program throws
        for want of free bytes, with every position gone. */
    method InsertTable(table: Text, tableSize: nat) returns (ok: bool)
      requires Valid() && Sized(free)
      requires Enough(free, tableSize) ==> Recordable(table, PartitionText(Pieces(free, tableSize)))
      modifies this`free, storage, storage.page.file
      ensures Valid() && Sized(free) && ok == (Total(old(free)) >= tableSize) && free == Remaining(old(free), tableSize)
      ensures ok ==> storage.State() == KV.AfterSet(old(storage.State()), table, PartitionText(Pieces(old(free), tableSize)))
      ensures !ok ==> free == [] && storage.State() == old(storage.State())
    {
      hide Pieces, Remaining, Enough, KV.AfterSet, KV.AfterErase, KV.Space;
      EnoughIsTotal(free, tableSize);
      var chunks;
      ok, chunks := Allocate(tableSize);
      if ok {
        var value := SerializeValue(chunks);
        storage.Set(table, value);
      }
    }

    /** The storage has room for one more pair. */
    ghost predicate Recordable(table: Text, value: Text)
      requires storage.Valid()
      reads this, storage, storage.page.file
    {
      var s := storage.State();
      KV.Space((if table in storage.index then KV.AfterErase(s, table) else s).rows, storage.page.size, table, value)
    }

    /** The pieces recorded for a table, None where the program throws. */
    method GetPartition(table: Text) returns (r: Option<seq<Piece>>)
      requires Valid()
      ensures r == if table in storage.values then Some(ParsePartition(storage.values[table])) else None
    {
      if table !in storage.values {
        return None;
      }
      var pieces := DeserializeValue(storage.values[table]);
      return Some(pieces);
    }
  }

  lemma InitFree(free: seq<Free>)
    requires Ascending(free, FreeBefore) && Sized(free) && |free| > 0
    ensures Ascending(free[..|free| - 1], FreeBefore) && Sized(free[..|free| - 1]) && 0 <= free[|free| - 1].size < 0x8000_0000
  {
    FreeBeforeTotal();
    InitMembers(free, FreeBefore);
    assert free[|free| - 1] in free;
  }

  lemma InsertSized(free: seq<Free>, x: Free)
    requires Sized(free) && 0 <= x.size < 0x8000_0000
    ensures Sized(Insert(free, x, FreeBefore))
  {
  }

  /** A table's partition, as recorded, reads back to pieces that sum to its size and were free. */
  lemma RecordedPartition(s: KV.Store, free: seq<Free>, table: Text, size: nat)
    requires KV.Usable(s) && Ascending(free, FreeBefore) && Sized(free) && OncePerChunk(free) && Enough(free, size)
    requires forall x :: x in free ==> COMMA !in x.chunk.host && SEMICOLON !in x.chunk.host
    ensures var pieces := ParsePartition(KV.AfterSet(s, table, PartitionText(Pieces(free, size))).values[table]);
            Bytes(pieces) == size &&
            forall c :: BytesOn(pieces, c) == FreeOf(free, c) - FreeOf(Remaining(free, size), c)
  {
    var pieces := Pieces(free, size);
    forall i | 0 <= i < |pieces| ensures CleanHost(pieces[i]) {
      PiecesOfFree(free, size, pieces[i]);
    }
    CleanReadsBack(pieces);
    PiecesSum(free, size);
    forall c ensures BytesOn(pieces, c) == FreeOf(free, c) - FreeOf(Remaining(free, size), c) {
      Conserved(free, size, c);
    }
    hide Pieces, PartitionText, ParsePartition, KV.EraseRows;
    assert KV.AfterSet(s, table, PartitionText(pieces)).values[table] == PartitionText(pieces);
  }

  lemma {:induction false} PiecesOfFree(free: seq<Free>, size: nat, p: Piece)
    requires Sized(free) && p in Pieces(free, size)
    ensures exists x :: x in free && x.chunk == p.chunk
    decreases |free|
  {
    var init, last := free[..|free| - 1], free[|free| - 1];
    assert last in free;
    if p.chunk != last.chunk {
      PiecesOfFree(init, size - last.size, p);
      var x :| x in init && x.chunk == p.chunk;
      assert x in free;
    }
  }
}
