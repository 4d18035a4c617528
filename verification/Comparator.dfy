/** The row comparator (lib/sql/comparator.cpp) and the order it defines. */
module Comparator {
  import opened Rows

  // ----- The order on values -----

  function Sign(x: int): int {
    if x < 0 then -1 else if x > 0 then 1 else 0
  }

  /** std::string's operator<: bytes compared as unsigned characters, a proper prefix first. */
  predicate TextLess(a: Text, b: Text) {
    b != [] && (a == [] || a[0] < b[0] || (a[0] == b[0] && TextLess(a[1..], b[1..])))
  }

  function Rank(k: Kind): int {
    match k
    case NullKind => 0
    case BoolKind => 1
    case UIntKind => 2
    case IntKind => 3
    case StrKind => 4
  }

  function CompareText(a: Text, b: Text): int {
    if TextLess(a, b) then -1 else if TextLess(b, a) then 1 else 0
  }

  /** Three-way comparison of two values. Values of different alternatives, which the
      program never compares (it asserts), are ordered by alternative, so that the
      order is total. */
  function CompareValues(a: Value, b: Value): int {
    match (a, b)
    case (Bool(x), Bool(y)) => if !x && y then -1 else if x && !y then 1 else 0
    case (UInt(x), UInt(y)) => Sign(x - y)
    case (Int(x), Int(y)) => Sign(x - y)
    case (Str(x), Str(y)) => CompareText(x, y)
    case _ => Sign(Rank(a.Kind()) - Rank(b.Kind()))
  }

  function Coefficient(desc: seq<bool>, i: nat): int {
    if i < |desc| && desc[i] then -1 else 1
  }

  /** Lexicographic comparison of the columns from i on; a missing column comes first. */
  function LexFrom(a: Row, b: Row, desc: seq<bool>, i: nat): int
    decreases |a| - i
  {
    if i >= |a| || i >= |b| then Sign(|a| - |b|)
    else
      var c := Coefficient(desc, i) * CompareValues(a[i], b[i]);
      if c != 0 then c else LexFrom(a, b, desc, i + 1)
  }

  function Lex(a: Row, b: Row, desc: seq<bool>): int {
    LexFrom(a, b, desc, 0)
  }

  /** The ascending order of keys, compareRows(a, b) == -1. */
  predicate Less(a: Row, b: Row) {
    Lex(a, b, []) == -1
  }

  // ----- The program's comparison -----

  /** compareInstances<T>: 2 says that the values do not hold T. */
  function CompareInstances(k: Kind, a: Value, b: Value): (r: int)
    requires a.Kind() == k ==> b.Kind() == k
    ensures r in {-1, 0, 1, 2} && (r == 2 <==> a.Kind() != k)
  {
    CompareValuesTotal(a, b);
    if a.Kind() == k then CompareValues(a, b) else 2
  }

  method CompareRows(lhs: Row, rhs: Row, desc: seq<bool>) returns (r: int)
    requires SameShape(lhs, rhs)
    requires desc == [] || |lhs| <= |desc|
    ensures r == Lex(lhs, rhs, desc)
  {
    var i := 0;
    while i < |lhs| && i < |rhs|
      invariant 0 <= i <= |lhs|
      invariant Lex(lhs, rhs, desc) == LexFrom(lhs, rhs, desc, i)
    {
      var isReversed := if desc == [] then false else desc[i];
      var mulCoef := if isReversed then -1 else 1;
      if lhs[i] == Null {
        i := i + 1;
        continue;
      }
      if CompareInstances(BoolKind, lhs[i], rhs[i]) % 2 != 0 {
        return mulCoef * CompareInstances(BoolKind, lhs[i], rhs[i]);
      }
      if CompareInstances(IntKind, lhs[i], rhs[i]) % 2 != 0 {
        return mulCoef * CompareInstances(IntKind, lhs[i], rhs[i]);
      }
      if CompareInstances(UIntKind, lhs[i], rhs[i]) % 2 != 0 {
        return mulCoef * CompareInstances(UIntKind, lhs[i], rhs[i]);
      }
      if CompareInstances(StrKind, lhs[i], rhs[i]) % 2 != 0 {
        return mulCoef * CompareInstances(StrKind, lhs[i], rhs[i]);
      }
      i := i + 1;
    }
    return 0;
  }

  // ----- It is a strict total order -----

  lemma {:induction false} TextLessTotal(a: Text, b: Text)
    ensures TextLess(a, b) ==> !TextLess(b, a)
    ensures !TextLess(a, b) && !TextLess(b, a) <==> a == b
  {
    if a != [] && b != [] && a[0] == b[0] {
      TextLessTotal(a[1..], b[1..]);
      assert a == [a[0]] + a[1..] && b == [b[0]] + b[1..];
    }
  }

  lemma {:induction false} TextLessTransitive(a: Text, b: Text, c: Text)
    requires TextLess(a, b) && TextLess(b, c)
    ensures TextLess(a, c)
  {
    if a != [] && a[0] == b[0] == c[0] {
      TextLessTransitive(a[1..], b[1..], c[1..]);
    }
  }

  lemma CompareValuesTotal(a: Value, b: Value)
    ensures CompareValues(a, b) in {-1, 0, 1}
    ensures CompareValues(b, a) == -CompareValues(a, b)
    ensures CompareValues(a, b) == 0 <==> a == b
  {
    if a.Str? && b.Str? {
      TextLessTotal(a.s, b.s);
    }
  }

  lemma CompareValuesTransitive(a: Value, b: Value, c: Value)
    requires CompareValues(a, b) == -1 && CompareValues(b, c) == -1
    ensures CompareValues(a, c) == -1
  {
    if a.Str? && b.Str? && c.Str? {
      TextLessTransitive(a.s, b.s, c.s);
    }
  }

  lemma {:induction false} LexFromTotal(a: Row, b: Row, desc: seq<bool>, i: nat)
    requires i <= |a| && i <= |b|
    ensures LexFrom(a, b, desc, i) in {-1, 0, 1}
    ensures LexFrom(b, a, desc, i) == -LexFrom(a, b, desc, i)
    ensures LexFrom(a, b, desc, i) == 0 <==> a[i..] == b[i..]
    decreases |a| - i
  {
    if i < |a| && i < |b| {
      CompareValuesTotal(a[i], b[i]);
      LexFromTotal(a, b, desc, i + 1);
      assert a[i..] == [a[i]] + a[i + 1..] && b[i..] == [b[i]] + b[i + 1..];
      if a[i] == b[i] {
        assert a[i..] == b[i..] <==> a[i + 1..] == b[i + 1..];
      } else {
        assert a[i..][0] != b[i..][0];
      }
    } else {
      assert a[i..] == b[i..] <==> |a| == |b|;
    }
  }

  lemma {:induction false} LexFromTransitive(a: Row, b: Row, c: Row, desc: seq<bool>, i: nat)
    requires i <= |a| && i <= |b| && i <= |c|
    requires LexFrom(a, b, desc, i) == -1 && LexFrom(b, c, desc, i) == -1
    ensures LexFrom(a, c, desc, i) == -1
    decreases |a| - i
  {
    if i < |a| && i < |b| && i < |c| {
      CompareValuesTotal(a[i], b[i]);
      CompareValuesTotal(b[i], c[i]);
      CompareValuesTotal(a[i], c[i]);
      if a[i] == b[i] && b[i] == c[i] {
        LexFromTransitive(a, b, c, desc, i + 1);
      } else if a[i] != b[i] && b[i] != c[i] {
        if Coefficient(desc, i) == 1 {
          CompareValuesTransitive(a[i], b[i], c[i]);
        } else {
          CompareValuesTransitive(c[i], b[i], a[i]);
        }
      }
    }
  }

  /** For every vector of directions the comparator is a strict total order: results are
      -1, 0 and 1, swapping the rows negates, 0 is equality, -1 is transitive. */
  lemma LexIsOrder(a: Row, b: Row, c: Row, desc: seq<bool>)
    ensures Lex(a, b, desc) in {-1, 0, 1}
    ensures Lex(b, a, desc) == -Lex(a, b, desc)
    ensures Lex(a, b, desc) == 0 <==> a == b
    ensures Lex(a, b, desc) == -1 && Lex(b, c, desc) == -1 ==> Lex(a, c, desc) == -1
  {
    LexFromTotal(a, b, desc, 0);
    assert a[0..] == a && b[0..] == b;
    if Lex(a, b, desc) == -1 && Lex(b, c, desc) == -1 {
      LexFromTransitive(a, b, c, desc, 0);
    }
  }

  // ----- What the order is -----

  /** Two texts agree up to character i, where the first one ends or has the smaller character. */
  ghost predicate TextBefore(a: Text, b: Text, i: nat) {
    i <= |a| && i < |b| && a[..i] == b[..i] && (i == |a| || a[i] < b[i])
  }

  lemma {:induction false} TextLessMeaning(a: Text, b: Text)
    ensures TextLess(a, b) <==> exists i: nat :: TextBefore(a, b, i)
  {
    if b == [] {
    } else if a == [] || a[0] != b[0] {
      assert forall i: nat :: TextBefore(a, b, i) && i > 0 ==> a[..i][0] == b[..i][0];
      assert TextBefore(a, b, 0) <==> TextLess(a, b);
    } else {
      TextLessMeaning(a[1..], b[1..]);
      forall i: nat ensures TextBefore(a, b, i + 1) <==> TextBefore(a[1..], b[1..], i) {
        if i < |a| && i < |b| {
          assert a[..i + 1] == [a[0]] + a[1..][..i] && b[..i + 1] == [b[0]] + b[1..][..i];
          assert a[..i + 1] == b[..i + 1] ==> a[1..][..i] == a[..i + 1][1..] == b[..i + 1][1..] == b[1..][..i];
        }
      }
      if TextLess(a, b) {
        var i: nat :| TextBefore(a[1..], b[1..], i);
        assert TextBefore(a, b, i + 1);
      }
      if i: nat :| TextBefore(a, b, i) {
        assert TextBefore(a[1..], b[1..], i - 1);
      }
    }
  }

  /** The order of two values of one type: false before true, numbers by size, texts by their first
      difference. Values of different types are ordered by type. */
  ghost predicate ValueBefore(a: Value, b: Value) {
    match (a, b)
    case (Bool(x), Bool(y)) => !x && y
    case (UInt(x), UInt(y)) => x < y
    case (Int(x), Int(y)) => x < y
    case (Str(x), Str(y)) => exists i: nat :: TextBefore(x, y, i)
    case _ => Rank(a.Kind()) < Rank(b.Kind())
  }

  lemma CompareValuesMeaning(a: Value, b: Value)
    ensures CompareValues(a, b) == -1 <==> ValueBefore(a, b)
  {
    if a.Str? && b.Str? {
      TextLessMeaning(a.s, b.s);
    }
  }

  lemma SingleLess(a: Value, b: Value)
    ensures Less([a], [b]) <==> ValueBefore(a, b)
  {
    CompareValuesMeaning(a, b);
    CompareValuesTotal(a, b);
    assert LexFrom([a], [b], [], 1) == 0;
  }

  /** Keys of one number, or of one truth value, ascend as those do. */
  lemma NumbersAscend(x: int64, y: int64, u: uint64, w: uint64, p: bool, q: bool)
    ensures Less([Int(x)], [Int(y)]) <==> x < y
    ensures Less([UInt(u)], [UInt(w)]) <==> u < w
    ensures Less([Bool(p)], [Bool(q)]) <==> !p && q
  {
    SingleLess(Int(x), Int(y));
    SingleLess(UInt(u), UInt(w));
    SingleLess(Bool(p), Bool(q));
  }

  /** Keys of one string ascend by the first character that differs, and a proper prefix comes first. */
  lemma TextsAscend(a: Text, b: Text)
    ensures Less([Str(a)], [Str(b)]) <==>
            exists i: nat :: i <= |a| && i < |b| && a[..i] == b[..i] && (i == |a| || a[i] < b[i])
  {
    SingleLess(Str(a), Str(b));
    assert forall i: nat :: TextBefore(a, b, i) <==>
             i <= |a| && i < |b| && a[..i] == b[..i] && (i == |a| || a[i] < b[i]);
  }

  /** Reference definition: row a comes before row b when they agree up to some column i
      and differ there in the direction the i-th flag asks for. */
  ghost predicate Before(a: Row, b: Row, desc: seq<bool>, i: nat)
    requires |a| == |b|
  {
    i < |a| && a[..i] == b[..i] &&
    (if i < |desc| && desc[i] then ValueBefore(b[i], a[i]) else ValueBefore(a[i], b[i]))
  }

  lemma {:induction false} LexFromMeaning(a: Row, b: Row, desc: seq<bool>, i: nat)
    requires |a| == |b| && i <= |a| && a[..i] == b[..i]
    ensures LexFrom(a, b, desc, i) == -1 <==> exists j: nat :: i <= j && Before(a, b, desc, j)
    decreases |a| - i
  {
    if i < |a| {
      CompareValuesTotal(a[i], b[i]);
      CompareValuesMeaning(a[i], b[i]);
      CompareValuesMeaning(b[i], a[i]);
      hide CompareValues, ValueBefore;
      if a[i] == b[i] {
        assert a[..i + 1] == a[..i] + [a[i]] && b[..i + 1] == b[..i] + [b[i]];
        LexFromMeaning(a, b, desc, i + 1);
        assert !Before(a, b, desc, i);
      } else {
        forall j: nat | i < j < |a| ensures !Before(a, b, desc, j) {
          assert a[..j][i] != b[..j][i];
        }
        assert LexFrom(a, b, desc, i) == -1 <==> Before(a, b, desc, i);
      }
    }
  }

  /** The comparator is lexicographic with the given directions. */
  lemma LexMeaning(a: Row, b: Row, desc: seq<bool>)
    requires |a| == |b|
    ensures Lex(a, b, desc) == -1 <==> exists i: nat :: Before(a, b, desc, i)
  {
    LexFromMeaning(a, b, desc, 0);
  }

  // ----- The key order, as the index proofs use it -----

  lemma LessTransitive(a: Row, b: Row, c: Row)
    requires Less(a, b) && Less(b, c)
    ensures Less(a, c)
  {
    LexIsOrder(a, b, c, []);
  }

  lemma LessTotal(a: Row, b: Row)
    ensures Less(a, b) ==> !Less(b, a) && a != b
    ensures !Less(a, b) && !Less(b, a) ==> a == b
    ensures Lex(a, b, []) == (if Less(a, b) then -1 else if a == b then 0 else 1)
  {
    LexIsOrder(a, b, a, []);
  }
}
