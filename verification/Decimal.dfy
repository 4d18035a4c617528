/** Integers as decimal text, as streams write and read them. */
module Decimal {
  import opened Rows
  import opened Texts

  const ZERO: byte := 48
  const MINUS: byte := 45
  const PLUS: byte := 43

  predicate IsDigit(c: byte) {
    ZERO <= c < ZERO + 10
  }

  function Digits(n: nat): (t: Text)
    ensures |t| >= 1 && forall i :: 0 <= i < |t| ==> IsDigit(t[i])
  {
    if n < 10 then [ZERO + n] else Digits(n / 10) + [ZERO + n % 10]
  }

  function ToText(i: int): (t: Text)
    ensures |t| >= 1
  {
    if i < 0 then [MINUS] + Digits(-i) else Digits(i)
  }

  function DigitValue(c: byte): nat
    requires IsDigit(c)
  {
    c - ZERO
  }

  /** The value of a string of digits. */
  function NumberOf(t: Text): nat
    requires forall i :: 0 <= i < |t| ==> IsDigit(t[i])
  {
    if |t| == 0 then 0 else 10 * NumberOf(t[..|t| - 1]) + DigitValue(t[|t| - 1])
  }

  lemma {:induction false} NumberOfDigits(n: nat)
    ensures NumberOf(Digits(n)) == n
  {
    if n >= 10 {
      NumberOfDigits(n / 10);
      assert Digits(n)[..|Digits(n)| - 1] == Digits(n / 10);
    }
  }

  /** How many digits a text begins with. */
  function DigitCount(t: Text): (n: nat)
    ensures n <= |t| && forall i :: 0 <= i < n ==> IsDigit(t[i])
    ensures n < |t| ==> !IsDigit(t[n])
  {
    if t == [] || !IsDigit(t[0]) then 0 else 1 + DigitCount(t[1..])
  }

  lemma {:induction false} DigitCountIs(t: Text, n: nat)
    requires n <= |t| && (forall i :: 0 <= i < n ==> IsDigit(t[i])) && (n < |t| ==> !IsDigit(t[n]))
    ensures DigitCount(t) == n
  {
    if n > 0 {
      DigitCountIs(t[1..], n - 1);
    }
  }

  function ReadDigits(t: Text): Option<(nat, Text)> {
    var n := DigitCount(t);
    if n == 0 then None else Some((NumberOf(t[..n]), t[n..]))
  }

  function InRange(r: Option<(nat, Text)>, negative: bool, lo: int, hi: int): Option<(int, Text)> {
    if r.None? then None
    else
      var i: int := if negative then 0 - r.value.0 else r.value.0;
      if lo <= i <= hi then Some((i, r.value.1)) else None
  }

  /** Reading a number with an optional sign: the number and the text behind it; None if there is
      no number or it is out of range. */
  function ReadNumber(t: Text, lo: int, hi: int): (r: Option<(int, Text)>) {
    var u := SkipSpace(t);
    if u != [] && (u[0] == MINUS || u[0] == PLUS) then InRange(ReadDigits(u[1..]), u[0] == MINUS, lo, hi)
    else InRange(ReadDigits(u), false, lo, hi)
  }

  /** The last digit of a number comes last, as the character of its value. */
  lemma DigitsAppend(n: nat, d: nat)
    requires d < 10
    ensures Digits(d) == Letters(["0123456789"[d]]) && [PLUS, MINUS] == Letters("+-")
    ensures n > 0 ==> Digits(10 * n + d) == Digits(n) + Digits(d)
  {
    assert Letters(["0123456789"[d]]) == [ZERO + d] && Letters("+-") == [43, 45];
  }

  lemma DigitsRead(digits: Text, rest: Text)
    requires (forall i :: 0 <= i < |digits| ==> IsDigit(digits[i])) && (rest != [] ==> !IsDigit(rest[0]))
    ensures ReadDigits(digits + rest) == if digits == [] then None else Some((NumberOf(digits), rest))
  {
    DigitCountIs(digits + rest, |digits|);
    assert (digits + rest)[..|digits|] == digits && (digits + rest)[|digits|..] == rest;
  }

  /** What is read: blanks are skipped, then comes an optional sign, and then digits, up to the first
      other character; none if there is no digit, or the number is out of range. */
  lemma NumberForms(blanks: Text, sign: Text, digits: Text, rest: Text, lo: int, hi: int)
    requires forall i :: 0 <= i < |blanks| ==> IsSpace(blanks[i])
    requires sign == [] || sign == [PLUS] || sign == [MINUS]
    requires (forall i :: 0 <= i < |digits| ==> IsDigit(digits[i])) && (rest != [] ==> !IsDigit(rest[0]))
    requires digits == [] && sign == [] && rest != [] ==> !IsSpace(rest[0]) && rest[0] != PLUS && rest[0] != MINUS
    ensures var i: int := if sign == [MINUS] then 0 - NumberOf(digits) as int else NumberOf(digits);
            ReadNumber(blanks + (sign + (digits + rest)), lo, hi)
            == if digits != [] && lo <= i <= hi then Some((i, rest)) else None
  {
    hide ReadNumber, ReadDigits, NumberOf;
    var t := digits + rest;
    DigitsRead(digits, rest);
    assert digits != [] ==> t[0] == digits[0];
    assert digits == [] ==> t == rest;
    BlanksSkipped(blanks, sign + t);
    if sign == [] {
      assert sign + t == t;
      PlainNumber(blanks + (sign + t), t, lo, hi);
    } else {
      assert (sign + t)[0] == sign[0] && (sign + t)[1..] == t;
      SignedNumber(blanks + (sign + t), sign + t, lo, hi);
    }
  }

  lemma PlainNumber(t: Text, u: Text, lo: int, hi: int)
    requires SkipSpace(t) == u && (u != [] ==> u[0] != MINUS && u[0] != PLUS)
    ensures ReadNumber(t, lo, hi) == InRange(ReadDigits(u), false, lo, hi)
  {
  }

  lemma SignedNumber(t: Text, u: Text, lo: int, hi: int)
    requires SkipSpace(t) == u && u != [] && (u[0] == MINUS || u[0] == PLUS)
    ensures ReadNumber(t, lo, hi) == InRange(ReadDigits(u[1..]), u[0] == MINUS, lo, hi)
  {
  }

  lemma {:induction false} BlanksSkipped(blanks: Text, u: Text)
    requires (forall i :: 0 <= i < |blanks| ==> IsSpace(blanks[i])) && (u != [] ==> !IsSpace(u[0]))
    ensures SkipSpace(blanks + u) == u
  {
    if blanks != [] {
      BlanksSkipped(blanks[1..], u);
      assert (blanks + u)[1..] == blanks[1..] + u;
    } else {
      assert blanks + u == u;
    }
  }

  lemma DigitsReadBack(n: nat, rest: Text)
    requires rest != [] ==> !IsDigit(rest[0])
    ensures ReadDigits(Digits(n) + rest) == Some((n, rest))
  {
    DigitCountIs(Digits(n) + rest, |Digits(n)|);
    NumberOfDigits(n);
    assert (Digits(n) + rest)[..|Digits(n)|] == Digits(n);
  }

  /** A written number reads back, up to the first character behind it that is not a digit. */
  lemma NumberReadsBack(i: int, rest: Text, lo: int, hi: int)
    requires lo <= i <= hi && (rest != [] ==> !IsDigit(rest[0]))
    ensures ReadNumber(ToText(i) + rest, lo, hi) == Some((i, rest))
  {
    hide ReadDigits, Digits;
    if i < 0 {
      DigitsReadBack(-i, rest);
      assert (ToText(i) + rest)[1..] == Digits(-i) + rest;
    } else {
      DigitsReadBack(i, rest);
      assert IsDigit(Digits(i)[0]);
    }
  }
}
