/** Searching and splitting of texts, as strings and streams do it. */
module Texts {
  import opened Rows

  function Letters(s: string): Text {
    seq(|s|, i requires 0 <= i < |s| => s[i] as int % 256)
  }

  /** Where a character first occurs, the length of the text if it does not. */
  function IndexOf(t: Text, c: byte): (i: nat)
    ensures i <= |t| && c !in t[..i] && (i < |t| ==> t[i] == c)
  {
    if t == [] || t[0] == c then 0 else 1 + IndexOf(t[1..], c)
  }

  lemma {:induction false} IndexOfIs(t: Text, c: byte, i: nat)
    requires i < |t| && t[i] == c && c !in t[..i]
    ensures IndexOf(t, c) == i
  {
    if i > 0 {
      assert t[0] == t[..i][0];
      assert t[1..][..i - 1] == t[..i][1..];
      IndexOfIs(t[1..], c, i - 1);
    }
  }

  lemma IndexOfNone(t: Text, c: byte)
    requires c !in t
    ensures IndexOf(t, c) == |t|
  {
  }

  /** What a stream skips before it reads a value. */
  predicate IsSpace(c: byte) {
    c == 32 || 9 <= c <= 13
  }

  function SkipSpace(t: Text): (r: Text)
    ensures |r| <= |t|
  {
    if t != [] && IsSpace(t[0]) then SkipSpace(t[1..]) else t
  }
}
