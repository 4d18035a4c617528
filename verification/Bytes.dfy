/** Integers as little-endian bytes, as the program stores them through typed pointers. */
module Bytes {
  import opened Rows

  type Bytes = seq<byte>

  /** Bytes in a page of a database file. */
  const PAGE_SIZE: nat := 4096

  /** 256 to the power w. */
  function Limit(w: nat): (r: nat)
    ensures r >= 1
  {
    if w == 0 then 1 else 256 * Limit(w - 1)
  }

  function ToBytes(n: nat, w: nat): (bs: Bytes)
    ensures |bs| == w
  {
    if w == 0 then [] else [n % 256] + ToBytes(n / 256, w - 1)
  }

  function FromBytes(bs: Bytes): nat {
    if bs == [] then 0 else bs[0] + 256 * FromBytes(bs[1..])
  }

  lemma {:induction false} FromToBytes(n: nat, w: nat)
    requires n < Limit(w)
    ensures FromBytes(ToBytes(n, w)) == n
  {
    if w > 0 {
      FromToBytes(n / 256, w - 1);
      assert ToBytes(n, w)[1..] == ToBytes(n / 256, w - 1);
    }
  }

  lemma {:induction false} FromBytesBound(bs: Bytes)
    ensures FromBytes(bs) < Limit(|bs|)
  {
    if bs != [] {
      FromBytesBound(bs[1..]);
    }
  }

  lemma {:induction false} ToFromBytes(bs: Bytes)
    ensures ToBytes(FromBytes(bs), |bs|) == bs
  {
    if bs != [] {
      ToFromBytes(bs[1..]);
      assert FromBytes(bs) / 256 == FromBytes(bs[1..]) && FromBytes(bs) % 256 == bs[0];
      assert bs == [bs[0]] + bs[1..];
    }
  }

  lemma Limits()
    ensures Limit(4) == 0x1_0000_0000 && Limit(8) == TWO_64
  {
    assert Limit(1) == 256 && Limit(2) == 256 * 256;
    assert Limit(4) == 0x1_0000_0000;
    assert Limit(5) == 256 * Limit(4) && Limit(6) == 256 * Limit(5);
    assert Limit(7) == 256 * Limit(6) && Limit(8) == 256 * Limit(7);
  }

  // ----- Two's complement -----

  function Unsigned64(i: int64): uint64 {
    if i < 0 then i + TWO_64 else i
  }

  function Signed64(u: uint64): int64 {
    if u >= TWO_63 then u - TWO_64 else u
  }

  function Unsigned32(i: int32): (u: nat)
    ensures u < 0x1_0000_0000
  {
    if i < 0 then i + 0x1_0000_0000 else i
  }

  function Signed32(u: nat): int32
    requires u < 0x1_0000_0000
  {
    if u >= 0x8000_0000 then u - 0x1_0000_0000 else u
  }

  function EncodeInt32(i: int32): (bs: Bytes)
    ensures |bs| == 4
  {
    ToBytes(Unsigned32(i), 4)
  }

  function DecodeInt32(bs: Bytes): int32
    requires |bs| == 4
  {
    FromBytesBound(bs); Limits();
    Signed32(FromBytes(bs))
  }

  lemma Int32RoundTrip(i: int32)
    ensures DecodeInt32(EncodeInt32(i)) == i
  {
    Limits();
    FromToBytes(Unsigned32(i), 4);
  }

  function DecodeUInt64(bs: Bytes): uint64
    requires |bs| == 8
  {
    FromBytesBound(bs); Limits();
    FromBytes(bs)
  }

  lemma UInt64RoundTrip(u: uint64)
    ensures DecodeUInt64(ToBytes(u, 8)) == u
  {
    Limits();
    FromToBytes(u, 8);
  }

  // ----- The bytes -----

  /** The least significant byte comes first. */
  lemma LittleEndian(a: byte, b: byte, c: byte, d: byte)
    ensures ToBytes(a + 0x100 * b + 0x1_0000 * c + 0x100_0000 * d, 4) == [a, b, c, d]
  {
    var n := a + 0x100 * b + 0x1_0000 * c + 0x100_0000 * d;
    assert n / 256 == b + 0x100 * c + 0x1_0000 * d;
    ThreeBytes(b, c, d);
  }

  lemma ThreeBytes(b: byte, c: byte, d: byte)
    ensures ToBytes(b + 0x100 * c + 0x1_0000 * d, 3) == [b, c, d]
  {
    var n := b + 0x100 * c + 0x1_0000 * d;
    assert n / 256 == c + 0x100 * d && (c + 0x100 * d) / 256 == d;
    assert ToBytes(d, 1) == [d] + ToBytes(d / 256, 0) == [d];
  }

  lemma {:induction false} ToBytesSplit(n: nat, high: nat, v: nat, w: nat)
    requires n < Limit(v)
    ensures ToBytes(n + Limit(v) * high, v + w) == ToBytes(n, v) + ToBytes(high, w)
  {
    if v > 0 {
      var more := Limit(v - 1) * high;
      assert Limit(v) * high == 256 * more;
      assert (n + 256 * more) / 256 == n / 256 + more && (n + 256 * more) % 256 == n % 256;
      ToBytesSplit(n / 256, high, v - 1, w);
    } else {
      assert Limit(0) * high == high;
    }
  }

  /** A signed number is stored in two's complement: the number with its bytes, less 2^32 if the
      highest bit is set. */
  lemma TwosComplement(a: byte, b: byte, c: byte, d: byte, i: int32)
    requires i == a + 0x100 * b + 0x1_0000 * c + 0x100_0000 * d - if d >= 0x80 then 0x1_0000_0000 else 0
    ensures EncodeInt32(i) == [a, b, c, d]
  {
    LittleEndian(a, b, c, d);
  }

  /** So is one of 64 bits, whose lower half comes first. */
  lemma TwosComplement64(low: nat, high: nat, i: int64)
    requires low < 0x1_0000_0000 && high < 0x1_0000_0000
    requires i == low + 0x1_0000_0000 * high - if high >= 0x8000_0000 then TWO_64 else 0
    ensures ToBytes(Unsigned64(i), 8) == ToBytes(low, 4) + ToBytes(high, 4)
  {
    Limits();
    ToBytesSplit(low, high, 4, 4);
  }

  // ----- Writing into a buffer -----

  /** What buf holds after bs has been written at position at. */
  function Overwrite(buf: Bytes, at: nat, bs: Bytes): (r: Bytes)
    requires at + |bs| <= |buf|
    ensures |r| == |buf|
    ensures forall i :: 0 <= i < |buf| ==> r[i] == if at <= i < at + |bs| then bs[i - at] else buf[i]
  {
    seq(|buf|, i requires 0 <= i < |buf| => if at <= i < at + |bs| then bs[i - at] else buf[i])
  }

  lemma OverwriteConcat(buf: Bytes, at: nat, a: Bytes, b: Bytes)
    requires at + |a| + |b| <= |buf|
    ensures Overwrite(Overwrite(buf, at, a), at + |a|, b) == Overwrite(buf, at, a + b)
  {
  }

  /** A slice that a write does not touch stays the same. */
  lemma OverwriteElsewhere(buf: Bytes, at: nat, bs: Bytes, lo: nat, hi: nat)
    requires at + |bs| <= |buf| && lo <= hi <= |buf| && (hi <= at || at + |bs| <= lo)
    ensures Overwrite(buf, at, bs)[lo..hi] == buf[lo..hi]
  {
  }

  lemma OverwriteInside(buf: Bytes, lo: nat, hi: nat, at: nat, bs: Bytes)
    requires lo + at + |bs| <= hi <= |buf|
    ensures Overwrite(buf, lo + at, bs)[lo..hi] == Overwrite(buf[lo..hi], at, bs)
  {
  }

  lemma OverwriteSlice(buf: Bytes, at: nat, bs: Bytes)
    requires at + |bs| <= |buf|
    ensures Overwrite(buf, at, bs)[at..at + |bs|] == bs
  {
  }

  /** The store of an integer of w bytes through a pointer. */
  method Store(buf: array<byte>, at: nat, n: nat, w: nat)
    requires at + w <= buf.Length
    modifies buf
    ensures buf[..] == Overwrite(old(buf[..]), at, ToBytes(n, w))
  {
    ghost var bs := ToBytes(n, w);
    var i, rest := 0, n;
    while i < w
      invariant 0 <= i <= w
      invariant ToBytes(rest, w - i) == bs[i..]
      invariant forall j :: 0 <= j < i ==> buf[at + j] == bs[j]
      invariant forall j :: 0 <= j < buf.Length && !(at <= j < at + i) ==> buf[j] == old(buf[j])
    {
      assert bs[i..][0] == bs[i] && bs[i..][1..] == bs[i + 1..];
      buf[at + i] := rest % 256;
      rest, i := rest / 256, i + 1;
    }
    assert buf[..] == Overwrite(old(buf[..]), at, bs);
  }

  /** The load of an integer of w bytes through a pointer. */
  method Load(buf: array<byte>, at: nat, w: nat) returns (n: nat)
    requires at + w <= buf.Length
    ensures n == FromBytes(buf[at..at + w])
  {
    n := 0;
    var i := w;
    while i > 0
      invariant 0 <= i <= w
      invariant n == FromBytes(buf[at + i..at + w])
    {
      i := i - 1;
      assert buf[at + i..at + w][1..] == buf[at + i + 1..at + w];
      n := buf[at + i] + 256 * n;
    }
  }
}
