/** The second-chance replacement of the buffer pool (lib/sql/cache.h): one bit a slot and a hand
    that clears the bits it passes. */
module ClockCache {
  import opened Seqs

  type Clock = seq<int>

  ghost predicate Bits(clock: Clock) {
    clock != [] && forall t :: 0 <= t < |clock| ==> clock[t] == 0 || clock[t] == 1
  }

  function Ones(clock: Clock): (n: nat) {
    if clock == [] then 0 else (if clock[0] == 1 then 1 else 0) + Ones(clock[1..])
  }

  lemma {:induction false} OnesCleared(clock: Clock, t: nat)
    requires t < |clock| && clock[t] == 1
    ensures Ones(clock[t := 0]) == Ones(clock) - 1
  {
    if t > 0 {
      OnesCleared(clock[1..], t - 1);
      assert clock[t := 0][1..] == clock[1..][t - 1 := 0];
    } else {
      assert clock[t := 0][1..] == clock[1..];
    }
  }

  function Next(n: nat, t: nat): (u: nat)
    requires t < n
    ensures u < n
  {
    if t + 1 == n then 0 else t + 1
  }

  lemma NextIsMod(n: nat, t: nat)
    requires t < n
    ensures (t + 1) % n == Next(n, t)
  {
    if t + 1 == n {
      assert n % n == 0;
    }
  }

  /** The slot that put takes, the bits after it and the hand after it. */
  datatype Taken = Taken(slot: nat, clock: Clock, hand: nat)

  function Take(clock: Clock, hand: nat): (r: Taken)
    requires Bits(clock) && hand < |clock|
    ensures r.slot < |clock| && |r.clock| == |clock| && Bits(r.clock) && r.hand == Next(|clock|, r.slot)
    ensures r.clock[r.slot] == 1
    decreases Ones(clock)
  {
    if clock[hand] == 1 then
      OnesCleared(clock, hand);
      Take(clock[hand := 0], Next(|clock|, hand))
    else Taken(hand, clock[hand := 1], Next(|clock|, hand))
  }

  // ----- Which slot is taken -----

  /** How far slot t is from the hand in the direction it moves. */
  function Distance(n: nat, hand: nat, t: nat): (d: nat)
    requires hand < n && t < n
    ensures d < n
  {
    if hand <= t then t - hand else n - hand + t
  }

  /** put takes the first clear slot from the hand on, clears the bits it passes and sets the one
      it takes. */
  lemma {:induction false} TakesFirstClear(clock: Clock, hand: nat)
    requires Bits(clock) && hand < |clock| && exists t: nat :: t < |clock| && clock[t] == 0
    ensures var n, r := |clock|, Take(clock, hand);
            clock[r.slot] == 0 &&
            forall t: nat :: t < n && t != r.slot ==>
              if Distance(n, hand, t) < Distance(n, hand, r.slot) then clock[t] == 1 && r.clock[t] == 0
              else r.clock[t] == clock[t]
    decreases Ones(clock)
  {
    var n := |clock|;
    if clock[hand] == 1 {
      OnesCleared(clock, hand);
      var clock1, hand1 := clock[hand := 0], Next(n, hand);
      assert clock1[hand] == 0;
      TakesFirstClear(clock1, hand1);
      var t: nat :| t < n && clock[t] == 0;
      Further(n, hand, t);
      assert clock1[t] == 0;
      forall u: nat | u < n ensures u != hand ==> Distance(n, hand1, u) == Distance(n, hand, u) - 1 {
        Further(n, hand, u);
      }
    }
  }

  lemma Further(n: nat, hand: nat, t: nat)
    requires hand < n && t < n
    ensures Distance(n, Next(n, hand), t) == if t == hand then n - 1 else Distance(n, hand, t) - 1
  {
  }

  /** If all are set it takes the hand's own slot and clears all others. */
  lemma TakesOwn(clock: Clock, hand: nat)
    requires Bits(clock) && hand < |clock| && forall t: nat :: t < |clock| ==> clock[t] == 1
    ensures var r := Take(clock, hand);
            r.slot == hand && forall t: nat :: t < |clock| ==> r.clock[t] == if t == hand then 1 else 0
  {
    var n, clock1, hand1 := |clock|, clock[hand := 0], Next(|clock|, hand);
    OnesCleared(clock, hand);
    assert clock1[hand] == 0;
    TakesFirstClear(clock1, hand1);
    forall u: nat | u < n ensures u != hand ==> Distance(n, hand1, u) < Distance(n, hand1, hand) {
      Further(n, hand, u);
      Further(n, hand, hand);
    }
  }

  /** Which slot is taken next: the first clear one from the hand on, the hand's own if all bits
      are set. */
  ghost predicate IsNext(clock: Clock, hand: nat, t: nat)
    requires Bits(clock) && hand < |clock| && t < |clock|
  {
    if clock[t] == 1 then hand == t && forall u: nat :: u < |clock| ==> clock[u] == 1
    else forall u: nat :: u < |clock| && Distance(|clock|, hand, u) < Distance(|clock|, hand, t) ==> clock[u] == 1
  }

  lemma TakesNext(clock: Clock, hand: nat, t: nat)
    requires Bits(clock) && hand < |clock| && t < |clock|
    ensures Take(clock, hand).slot == t <==> IsNext(clock, hand, t)
  {
    hide Take;
    if exists u: nat :: u < |clock| && clock[u] == 0 {
      TakesFirstClear(clock, hand);
    } else {
      TakesOwn(clock, hand);
    }
  }

  /** A slot whose bit is set is taken exactly if all bits are set and the hand is at it. */
  lemma SetSlotTaken(clock: Clock, hand: nat, t: nat)
    requires Bits(clock) && hand < |clock| && t < |clock| && clock[t] == 1
    ensures Take(clock, hand).slot == t <==> hand == t && forall u: nat :: u < |clock| ==> clock[u] == 1
  {
    TakesNext(clock, hand, t);
  }

  // ----- Fairness -----

  /** The slots that m consecutive puts take. */
  function Run(clock: Clock, hand: nat, m: nat): (slots: seq<nat>)
    requires Bits(clock) && hand < |clock|
    ensures |slots| == m && forall i :: 0 <= i < m ==> slots[i] < |clock|
    decreases m
  {
    if m == 0 then []
    else
      var r := Take(clock, hand);
      [r.slot] + Run(r.clock, r.hand, m - 1)
  }

  lemma RunStep(clock: Clock, hand: nat, m: nat)
    requires Bits(clock) && hand < |clock| && m > 0
    ensures var next := Next(|clock|, hand);
            Run(clock, hand, m) == if clock[hand] == 1 then Run(clock[hand := 0], next, m)
                                   else [hand] + Run(clock[hand := 1], next, m - 1)
  {
    if clock[hand] == 1 {
      OnesCleared(clock, hand);
    }
  }

  /** How often a hand that started at start has come by slot t in its first d steps, d <= 2n. */
  function Visits(n: nat, start: nat, d: nat, t: nat): nat
    requires start < n && t < n
  {
    if d <= Distance(n, start, t) then 0 else if d <= Distance(n, start, t) + n then 1 else 2
  }

  /** After d steps of the hand, each of which flips the bit it comes by, the slots in taken are
      those whose bit has gone from clear to set. */
  ghost predicate Flipped(was: Clock, start: nat, d: nat, clock: Clock, taken: seq<nat>)
    requires start < |was| == |clock|
  {
    var n := |was|;
    (forall t :: 0 <= t < n ==> clock[t] == if Visits(n, start, d, t) == 1 then 1 - was[t] else was[t]) &&
    (forall t: nat :: t in taken <==> t < n && Visits(n, start, d, t) >= if was[t] == 0 then 1 else 2) &&
    Distinct(taken)
  }

  lemma FlipStep(was: Clock, start: nat, d: nat, clock: Clock, taken: seq<nat>, hand: nat)
    requires Bits(was) && start < |was| == |clock| && Flipped(was, start, d, clock, taken)
    requires d < 2 * |was| && hand < |was| && Distance(|was|, start, hand) == if d < |was| then d else d - |was|
    ensures var taken1 := if clock[hand] == 0 then taken + [hand] else taken;
            Flipped(was, start, d + 1, clock[hand := 1 - clock[hand]], taken1)
    ensures d + 1 < 2 * |was| ==>
              Distance(|was|, start, Next(|was|, hand)) == if d + 1 < |was| then d + 1 else d + 1 - |was|
  {
    var n := |was|;
    var clock1, taken1 := clock[hand := 1 - clock[hand]], if clock[hand] == 0 then taken + [hand] else taken;
    assert forall t :: 0 <= t < n && t != hand ==> Distance(n, start, t) != Distance(n, start, hand);
    assert forall t :: 0 <= t < n && t != hand ==> Visits(n, start, d + 1, t) == Visits(n, start, d, t);
    assert Visits(n, start, d + 1, hand) == Visits(n, start, d, hand) + 1;
    assert forall t: nat :: t in taken1 <==> t in taken || (clock[hand] == 0 && t == hand);
  }

  lemma {:induction false} CoveringSize(s: seq<nat>, n: nat)
    requires forall t: nat :: t < n ==> t in s
    ensures |s| >= n
    decreases n
  {
    if n > 0 {
      var last: nat := n - 1;
      assert last in s;
      var i :| 0 <= i < |s| && s[i] == last;
      var rest := RemoveAt(s, i);
      forall t: nat | t < n - 1 ensures t in rest {
        assert t in s;
        var j :| 0 <= j < |s| && s[j] == t;
        assert rest[if j < i then j else j - 1] == t;
      }
      CoveringSize(rest, n - 1);
    }
  }

  lemma {:induction false} DistinctSize(s: seq<nat>, n: nat)
    requires Distinct(s) && forall i :: 0 <= i < |s| ==> s[i] < n
    ensures |s| <= n
    decreases n
  {
    if s != [] {
      assert s[0] < n;
      if exists i :: 0 <= i < |s| && s[i] == n - 1 {
        var i :| 0 <= i < |s| && s[i] == n - 1;
        RemoveAtDistinct(s, i);
        DistinctSize(RemoveAt(s, i), n - 1);
      } else {
        DistinctSize(s, n - 1);
      }
    }
  }

  lemma FullCircle(was: Clock, start: nat, clock: Clock, taken: seq<nat>)
    requires Bits(was) && start < |was| == |clock| && Flipped(was, start, 2 * |was|, clock, taken)
    ensures |taken| >= |was|
  {
    CoveringSize(taken, |was|);
  }

  lemma FlippedDistinct(was: Clock, start: nat, d: nat, clock: Clock, taken: seq<nat>)
    requires start < |was| == |clock| && Flipped(was, start, d, clock, taken)
    ensures Distinct(taken)
  {
  }

  lemma {:induction false} FairFrom(was: Clock, start: nat, d: nat, clock: Clock, taken: seq<nat>, hand: nat, m: nat)
    requires Bits(was) && start < |was| == |clock| && Bits(clock) && Flipped(was, start, d, clock, taken)
    requires d <= 2 * |was| && hand < |was| && |taken| + m <= |was|
    requires d < 2 * |was| ==> Distance(|was|, start, hand) == if d < |was| then d else d - |was|
    ensures Distinct(taken + Run(clock, hand, m))
    decreases 2 * |was| - d
  {
    hide Flipped, Distance, Distinct, Run;
    var n := |was|;
    if m == 0 {
      FlippedDistinct(was, start, d, clock, taken);
      assert Run(clock, hand, m) == [];
      assert taken + [] == taken;
    } else if d == 2 * n {
      FullCircle(was, start, clock, taken);
    } else {
      FlipStep(was, start, d, clock, taken, hand);
      RunStep(clock, hand, m);
      var next := Next(n, hand);
      if clock[hand] == 0 {
        FairFrom(was, start, d + 1, clock[hand := 1], taken + [hand], next, m - 1);
        assert taken + [hand] + Run(clock[hand := 1], next, m - 1) == taken + Run(clock, hand, m);
      } else {
        FairFrom(was, start, d + 1, clock[hand := 0], taken, next, m);
      }
    }
  }

  lemma DistinctCovers(s: seq<nat>, n: nat, t: nat)
    requires Distinct(s) && |s| == n && (forall i :: 0 <= i < n ==> s[i] < n) && t < n
    ensures t in s
  {
    if t !in s {
      DistinctSize(s + [t], n);
    }
  }

  /** As many consecutive puts as there are slots take every slot once, whatever the bits. */
  lemma Fair(clock: Clock, hand: nat)
    requires Bits(clock) && hand < |clock|
    ensures Distinct(Run(clock, hand, |clock|))
    ensures forall t: nat :: t < |clock| ==> t in Run(clock, hand, |clock|)
  {
    FairFrom(clock, hand, 0, clock, [], hand, |clock|);
    hide Run;
    var slots := Run(clock, hand, |clock|);
    assert [] + slots == slots;
    forall t: nat | t < |clock| ensures t in slots {
      DistinctCovers(slots, |clock|, t);
    }
  }

  // ----- The object -----

  class ClockCache<K(==)> {
    var clock: seq<int>
    var keys: seq<K>
    var hand: nat

    ghost predicate Valid()
      reads this
    {
      Bits(clock) && |keys| == |clock| && hand < |clock|
    }

    /** capacity slots that all hold the default key. */
    constructor (capacity: nat, default: K)
      requires capacity >= 1
      ensures Valid() && hand == 0
      ensures |clock| == capacity && forall t :: 0 <= t < capacity ==> clock[t] == 0 && keys[t] == default
    {
      clock := seq(capacity, _ => 0);
      keys := seq(capacity, _ => default);
      hand := 0;
    }

    method Find(key: K) returns (found: bool, slot: nat)
      requires Valid()
      ensures found <==> key in keys
      ensures found ==> slot < |keys| && keys[slot] == key && key !in keys[..slot]
    {
      slot := 0;
      while slot < |keys|
        invariant 0 <= slot <= |keys| && key !in keys[..slot]
      {
        if keys[slot] == key {
          return true, slot;
        }
        slot := slot + 1;
      }
      return false, 0;
    }

    method Put(key: K) returns (slot: nat)
      requires Valid()
      modifies this
      ensures Valid()
      ensures Taken(slot, clock, hand) == Take(old(clock), old(hand)) && keys == old(keys)[slot := key]
    {
      while clock[hand] == 1
        invariant Valid() && keys == old(keys) && |clock| == |old(clock)|
        invariant Take(clock, hand) == Take(old(clock), old(hand))
        decreases Ones(clock)
      {
        OnesCleared(clock, hand);
        NextIsMod(|clock|, hand);
        clock := clock[hand := 0];
        hand := (hand + 1) % |clock|;
      }
      NextIsMod(|clock|, hand);
      clock := clock[hand := 1];
      keys := keys[hand := key];
      slot := hand;
      hand := (hand + 1) % |clock|;
    }

    method Mark(key: K, bit: int)
      requires Valid() && (bit == 0 || bit == 1)
      modifies this`clock
      ensures Valid() && |clock| == |old(clock)|
      ensures forall t :: 0 <= t < |clock| ==> clock[t] == if keys[t] == key then bit else old(clock)[t]
    {
      var i := 0;
      while i < |keys|
        invariant 0 <= i <= |keys| && Valid() && |clock| == |old(clock)|
        invariant forall t :: 0 <= t < |clock| ==> clock[t] == if t < i && keys[t] == key then bit else old(clock)[t]
      {
        if keys[i] == key {
          clock := clock[i := bit];
        }
        i := i + 1;
      }
    }

    method Lock(key: K)
      requires Valid()
      modifies this`clock
      ensures Valid() && |clock| == |old(clock)|
      ensures forall t :: 0 <= t < |clock| ==> clock[t] == if keys[t] == key then 1 else old(clock)[t]
    {
      Mark(key, 1);
    }

    method Unlock(key: K)
      requires Valid()
      modifies this`clock
      ensures Valid() && |clock| == |old(clock)|
      ensures forall t :: 0 <= t < |clock| ==> clock[t] == if keys[t] == key then 0 else old(clock)[t]
    {
      Mark(key, 0);
    }
  }
}
