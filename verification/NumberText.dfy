/** Lists of numbers as text (lib/serialize.cpp). */
module NumberText {
  import opened Rows
  import opened Texts
  import opened Decimal

  const BLANK: byte := 32

  /** std::stoul: a minus sign negates modulo 2^64; None where it throws. */
  function ReadUnsigned(t: Text): (r: Option<(uint64, Text)>) {
    var n := ReadNumber(t, 1 - TWO_64, TWO_64 - 1);
    if n.None? then None else Some((if n.value.0 < 0 then n.value.0 + TWO_64 else n.value.0, n.value.1))
  }

  /** A number with a minus sign is read modulo 2^64; none is read from 2^64 on. */
  lemma UnsignedForms(digits: Text, rest: Text)
    requires digits != [] && (forall i :: 0 <= i < |digits| ==> IsDigit(digits[i])) && (rest != [] ==> !IsDigit(rest[0]))
    ensures var n := NumberOf(digits);
            ReadUnsigned(digits + rest) == (if n < TWO_64 then Some((n, rest)) else None) &&
            ReadUnsigned([MINUS] + (digits + rest)) ==
              if n >= TWO_64 then None else Some((if n == 0 then 0 else TWO_64 - n, rest))
  {
    hide ReadNumber, NumberOf;
    NumberForms([], [], digits, rest, 1 - TWO_64, TWO_64 - 1);
    NumberForms([], [MINUS], digits, rest, 1 - TWO_64, TWO_64 - 1);
    assert [] + ([] + (digits + rest)) == digits + rest && [] + ([MINUS] + (digits + rest)) == [MINUS] + (digits + rest);
  }

  function Serialized(numbers: seq<uint64>): Text {
    if numbers == [] then [] else ToText(numbers[0]) + [BLANK] + Serialized(numbers[1..])
  }

  /** The numbers between blanks, None where one cannot be read. */
  function Deserialized(t: Text): Option<seq<uint64>>
    decreases |t|
  {
    if t == [] then Some([])
    else
      var n, i := ReadUnsigned(t), IndexOf(t, BLANK);
      if n.None? then None
      else
        var rest := Deserialized(if i < |t| then t[i + 1..] else []);
        if rest.None? then None else Some([n.value.0] + rest.value)
  }

  /** Three numbers as text: a blank behind each. */
  lemma NumbersLayout()
    ensures Serialized([7, 0, 61]) == Letters("7 0 61 ")
  {
    assert Digits(61) == Digits(6) + [49];
    assert [7, 0, 61][1..] == [0, 61] && [0, 61][1..] == [61];
    assert Serialized([61]) == [54, 49, 32];
  }

  lemma NumberStep(n: uint64, rest: Text)
    ensures var t := ToText(n) + [BLANK] + rest;
            ReadUnsigned(t) == Some((n, [BLANK] + rest)) && IndexOf(t, BLANK) == |ToText(n)| && t[|ToText(n)| + 1..] == rest
  {
    var t := ToText(n) + [BLANK] + rest;
    hide ReadNumber, Digits;
    assert t == ToText(n) + ([BLANK] + rest);
    NumberReadsBack(n, [BLANK] + rest, 1 - TWO_64, TWO_64 - 1);
    assert t[..|ToText(n)|] == ToText(n);
    IndexOfIs(t, BLANK, |ToText(n)|);
  }

  /** Every list of numbers reads back. */
  lemma {:induction false} NumbersReadBack(numbers: seq<uint64>)
    ensures Deserialized(Serialized(numbers)) == Some(numbers)
  {
    if numbers != [] {
      hide ReadUnsigned, IndexOf, ToText;
      NumbersReadBack(numbers[1..]);
      NumberStep(numbers[0], Serialized(numbers[1..]));
      assert [numbers[0]] + numbers[1..] == numbers;
    }
  }

  lemma {:induction false} SerializedExtend(numbers: seq<uint64>, n: uint64)
    ensures Serialized(numbers + [n]) == Serialized(numbers) + (ToText(n) + [BLANK])
  {
    hide ToText;
    if numbers == [] {
      assert numbers + [n] == [n] && [n][1..] == [];
    } else {
      SerializedExtend(numbers[1..], n);
      assert (numbers + [n])[1..] == numbers[1..] + [n];
      var a, b, c := ToText(numbers[0]) + [BLANK], Serialized(numbers[1..]), ToText(n) + [BLANK];
      assert a + (b + c) == (a + b) + c;
    }
  }

  method Serialize(decoded: seq<uint64>) returns (t: Text)
    ensures t == Serialized(decoded)
  {
    hide ToText;
    t := [];
    for i := 0 to |decoded|
      invariant t == Serialized(decoded[..i])
    {
      SerializedExtend(decoded[..i], decoded[i]);
      assert decoded[..i + 1] == decoded[..i] + [decoded[i]];
      t := t + (ToText(decoded[i]) + [BLANK]);
    }
    assert decoded[..|decoded|] == decoded;
  }

  /** How what has been read and what is left give the whole list. */
  function Joined(result: seq<uint64>, rest: Option<seq<uint64>>): Option<seq<uint64>> {
    if rest.None? then None else Some(result + rest.value)
  }

  method Deserialize(encoded: Text) returns (r: Option<seq<uint64>>)
    ensures r == Deserialized(encoded)
  {
    hide ReadUnsigned, IndexOf;
    var result: seq<uint64> := [];
    var pos := 0;
    assert encoded[0..] == encoded;
    assert forall s: seq<uint64> :: [] + s == s;
    while pos < |encoded|
      invariant 0 <= pos <= |encoded|
      invariant Joined(result, Deserialized(encoded[pos..])) == Deserialized(encoded)
    {
      var next := IndexOf(encoded[pos..], BLANK);
      var n := ReadUnsigned(encoded[pos..]);
      if n.None? {
        return None;
      }
      ghost var rest := Deserialized(if next < |encoded| - pos then encoded[pos..][next + 1..] else []);
      if next < |encoded| - pos {
        assert encoded[pos..][next + 1..] == encoded[pos + next + 1..];
        pos := pos + next + 1;
      } else {
        pos := |encoded|;
      }
      assert rest.Some? ==> result + ([n.value.0] + rest.value) == (result + [n.value.0]) + rest.value;
      result := result + [n.value.0];
    }
    assert encoded[pos..] == [] && result + [] == result;
    return Some(result);
  }
}
