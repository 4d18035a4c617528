/** Schemas as text (lib/sql/schema.cpp), the form in which chunks and clients exchange them. */
module SchemaText {
  import opened Rows
  import opened Schemas
  import opened Texts
  import opened Decimal
  import opened NumberText

  const COMMA: byte := 44
  const LEFT: byte := 40
  const RIGHT: byte := 41

  function TypeText(typ: Type): Text {
    match typ
    case Boolean => Letters("boolean")
    case UInt64 => Letters("uint64")
    case Int64 => Letters("int64")
    case Varchar => Letters("varchar")
    case String => Letters("string")
    case Vector => []
  }

  function LengthText(length: uint32): Text {
    if length == 0 then [] else [LEFT] + Digits(length) + [RIGHT]
  }

  function ColumnText(c: Column): Text {
    c.name + [BLANK] + TypeText(c.typ) + LengthText(c.length)
  }

  function ToText(s: Schema): Text {
    if |s| == 0 then [] else if |s| == 1 then ColumnText(s[0]) else ColumnText(s[0]) + [COMMA, BLANK] + ToText(s[1..])
  }

  // ----- Reading -----

  /** How many characters come before the first space. */
  function WordEnd(t: Text): (n: nat)
    ensures n <= |t| && (forall i :: 0 <= i < n ==> !IsSpace(t[i])) && (n < |t| ==> IsSpace(t[n]))
  {
    if t == [] || IsSpace(t[0]) then 0 else 1 + WordEnd(t[1..])
  }

  /** The next word of a stream and what is left behind it. */
  function ReadWord(t: Text): (Text, Text) {
    var u := SkipSpace(t);
    (u[..WordEnd(u)], u[WordEnd(u)..])
  }

  /** The length in parentheses behind a type name, 0 without parentheses; None where it is no number. */
  function ReadLength(word: Text): Option<uint32> {
    var i := IndexOf(word, LEFT);
    if i == |word| then Some(0)
    else
      var n := ReadUnsigned(if |word| >= i + 2 then word[i + 1..|word| - 1] else word[i + 1..]);
      if n.None? then None else Some(n.value.0 % 0x1_0000_0000)
  }

  function ReadType(name: Text): Option<Type> {
    if name == TypeText(Boolean) then Some(Boolean)
    else if name == TypeText(UInt64) then Some(UInt64)
    else if name == TypeText(Int64) then Some(Int64)
    else if name == TypeText(Varchar) then Some(Varchar)
    else if name == TypeText(String) then Some(String)
    else None
  }

  /** A column from its text, None where the program throws. */
  function ParseColumn(token: Text): Option<Column> {
    var (name, rest) := ReadWord(token);
    var word := ReadWord(rest).0;
    var length, typ := ReadLength(word), ReadType(word[..IndexOf(word, LEFT)]);
    if length.None? || typ.None? then None else Some(Column(name, typ.value, length.value))
  }

  function FromText(t: Text): Option<Schema>
    decreases |t|
  {
    if t == [] then Some([])
    else
      var i := IndexOf(t, COMMA);
      var column, rest := ParseColumn(t[..i]), FromText(if i < |t| then t[i + 1..] else []);
      if column.None? || rest.None? then None else Some([column.value] + rest.value)
  }

  // ----- Round trip -----

  /** A non-empty name without spaces and commas, and a type that has a name. */
  predicate Nameable(c: Column) {
    c.name != [] && (forall i :: 0 <= i < |c.name| ==> !IsSpace(c.name[i]) && c.name[i] != COMMA) && c.typ != Vector
  }

  /** Characters of a type and its length. */
  predicate Plain(t: Text) {
    forall i :: 0 <= i < |t| ==> !IsSpace(t[i]) && t[i] != COMMA
  }

  /** A column as text: the name, a blank, the type, and a length other than 0 in parentheses. */
  lemma ColumnLayout(c: Column)
    ensures ColumnText(c) ==
            c.name + Letters(" ") + TypeText(c.typ) + if c.length == 0 then [] else Letters("(") + Digits(c.length) + Letters(")")
  {
    hide TypeText, Digits;
    assert Letters(" ") == [BLANK] && Letters("(") == [LEFT] && Letters(")") == [RIGHT];
  }

  /** Columns are separated by a comma and a blank. */
  lemma SchemaLayout(s: Schema, c: Column)
    requires s != []
    ensures ToText([c]) == ColumnText(c) && ToText([c] + s) == ColumnText(c) + Letters(", ") + ToText(s)
  {
    hide ColumnText;
    assert Letters(", ") == [COMMA, BLANK] && ([c] + s)[1..] == s;
  }

  lemma TypeTexts()
    ensures TypeText(Boolean) == Letters("boolean") && TypeText(UInt64) == Letters("uint64")
    ensures TypeText(Int64) == Letters("int64") && TypeText(Varchar) == Letters("varchar") && TypeText(String) == Letters("string")
  {
  }

  lemma TypeLetters(typ: Type)
    ensures TypeText(typ) ==
            match typ
            case Boolean => [98, 111, 111, 108, 101, 97, 110]
            case UInt64 => [117, 105, 110, 116, 54, 52]
            case Int64 => [105, 110, 116, 54, 52]
            case Varchar => [118, 97, 114, 99, 104, 97, 114]
            case String => [115, 116, 114, 105, 110, 103]
            case Vector => []
  {
  }

  /** Type names are letters and digits, and each begins with another letter. */
  lemma TypePlain(typ: Type)
    ensures Plain(TypeText(typ)) && LEFT !in TypeText(typ)
  {
    hide TypeText;
    TypeLetters(typ);
  }

  lemma TypesDiffer(a: Type, b: Type)
    requires a != b
    ensures TypeText(a) != TypeText(b)
  {
    hide TypeText;
    TypeLetters(a);
    TypeLetters(b);
    if a != Vector && b != Vector {
      assert TypeText(a)[0] != TypeText(b)[0];
    }
  }

  /** A word names a type exactly if it is the text of that type. */
  lemma TypeNamed(name: Text, typ: Type)
    ensures ReadType(name) == Some(typ) <==> typ != Vector && name == TypeText(typ)
  {
    hide TypeText;
    forall a: Type, b: Type | a != b ensures TypeText(a) != TypeText(b) {
      TypesDiffer(a, b);
    }
  }

  /** A word without a parenthesis has length 0; behind one, all but the last character is read as a
      number, modulo 2^32, and there is none if that is no number. */
  lemma LengthForms(word: Text, digits: Text, last: byte)
    requires LEFT !in word
    ensures ReadLength(word) == Some(0)
    ensures var n := ReadUnsigned(digits);
            ReadLength(word + [LEFT] + digits + [last]) == if n.None? then None else Some(n.value.0 % 0x1_0000_0000)
  {
    var t := word + [LEFT] + digits + [last];
    assert t[..|word|] == word && t[|word|] == LEFT && t[|word| + 1..|t| - 1] == digits;
    IndexOfIs(t, LEFT, |word|);
    IndexOfNone(word, LEFT);
    hide ReadUnsigned, IndexOf;
  }

  lemma TypeReadsBack(typ: Type)
    requires typ != Vector
    ensures ReadType(TypeText(typ)) == Some(typ) && Plain(TypeText(typ)) && LEFT !in TypeText(typ) && TypeText(typ) != []
  {
    hide TypeText, Plain;
    TypePlain(typ);
    TypeLetters(typ);
    forall t: Type | t != typ ensures TypeText(typ) != TypeText(t) {
      TypesDiffer(typ, t);
    }
  }

  lemma NothingReadsAsType()
    ensures ReadType([]) == None
  {
    hide TypeText;
    TypeLetters(Boolean);
    TypeLetters(UInt64);
    TypeLetters(Int64);
    TypeLetters(Varchar);
    TypeLetters(String);
  }

  lemma NoLength(typ: Text)
    requires LEFT !in typ
    ensures ReadLength(typ) == Some(0) && typ[..IndexOf(typ, LEFT)] == typ
  {
    assert IndexOf(typ, LEFT) == |typ|;
  }

  lemma SomeLength(typ: Text, length: uint32)
    requires LEFT !in typ
    ensures var word := typ + ([LEFT] + Digits(length) + [RIGHT]);
            ReadLength(word) == Some(length) && word[..IndexOf(word, LEFT)] == typ
  {
    hide ReadNumber, Digits;
    var word := typ + ([LEFT] + Digits(length) + [RIGHT]);
    assert word[..|typ|] == typ && word[|typ|] == LEFT;
    IndexOfIs(word, LEFT, |typ|);
    assert word[|typ| + 1..|word| - 1] == Digits(length);
    assert Decimal.ToText(length) + [] == Digits(length);
    NumberReadsBack(length, [], 1 - TWO_64, TWO_64 - 1);
  }

  lemma LengthReadsBack(typ: Text, length: uint32)
    requires LEFT !in typ
    ensures var word := typ + LengthText(length);
            ReadLength(word) == Some(length) && word[..IndexOf(word, LEFT)] == typ
  {
    if length == 0 {
      NoLength(typ);
      assert typ + [] == typ;
    } else {
      SomeLength(typ, length);
    }
  }

  lemma {:induction false} WordEndIs(word: Text, rest: Text)
    requires (forall i :: 0 <= i < |word| ==> !IsSpace(word[i])) && (rest != [] ==> IsSpace(rest[0]))
    ensures WordEnd(word + rest) == |word|
  {
    if word == [] {
      assert word + rest == rest;
    } else {
      assert (word + rest)[1..] == word[1..] + rest;
      WordEndIs(word[1..], rest);
    }
  }

  /** A word, behind a space or not, reads back. */
  lemma WordReadsBack(word: Text, rest: Text)
    requires word != [] && (forall i :: 0 <= i < |word| ==> !IsSpace(word[i])) && (rest != [] ==> IsSpace(rest[0]))
    ensures ReadWord(word + rest) == (word, rest) && ReadWord([BLANK] + (word + rest)) == (word, rest)
  {
    var t := word + rest;
    WordEndIs(word, rest);
    assert t[..|word|] == word && t[|word|..] == rest;
    assert SkipSpace(t) == t;
    assert ([BLANK] + t)[1..] == t && SkipSpace([BLANK] + t) == t;
  }

  lemma ColumnReadsBack(c: Column)
    requires Nameable(c)
    ensures ParseColumn(ColumnText(c)) == Some(c) && ParseColumn([BLANK] + ColumnText(c)) == Some(c)
  {
    hide ReadWord, ReadLength, ReadType, TypeText, LengthText, IndexOf;
    var word := TypeText(c.typ) + LengthText(c.length);
    TypeReadsBack(c.typ);
    LengthPlain(c.length);
    LengthReadsBack(TypeText(c.typ), c.length);
    assert ColumnText(c) == c.name + ([BLANK] + word);
    WordReadsBack(c.name, [BLANK] + word);
    WordReadsBack(word, []);
    assert word + [] == word;
  }

  lemma LengthPlain(length: uint32)
    ensures Plain(LengthText(length))
  {
  }

  lemma ColumnPlain(c: Column)
    requires Nameable(c)
    ensures COMMA !in ColumnText(c)
  {
    TypeReadsBack(c.typ);
    LengthPlain(c.length);
    hide TypeText, LengthText;
  }

  lemma TokenRead(x: Text, rest: Text)
    requires COMMA !in x
    ensures x != [] ==> FromText(x) == (if ParseColumn(x).None? then None else Some([ParseColumn(x).value]))
    ensures FromText(x + [COMMA] + rest) ==
            if ParseColumn(x).None? || FromText(rest).None? then None else Some([ParseColumn(x).value] + FromText(rest).value)
  {
    hide ParseColumn;
    var t := x + [COMMA] + rest;
    assert t[..|x|] == x && t[|x| + 1..] == rest;
    IndexOfIs(t, COMMA, |x|);
    assert x[..|x|] == x && FromText([]) == Some([]);
    assert ParseColumn(x).Some? ==> [ParseColumn(x).value] + [] == [ParseColumn(x).value];
  }

  lemma ToTextSplit(s: Schema, lead: Text)
    requires |s| > 1
    ensures lead + ToText(s) == lead + ColumnText(s[0]) + [COMMA] + ([BLANK] + ToText(s[1..]))
  {
    hide ColumnText;
    var x, rest := ColumnText(s[0]), ToText(s[1..]);
    assert ToText(s) == x + [COMMA, BLANK] + rest;
    assert [COMMA, BLANK] == [COMMA] + [BLANK];
    assert lead + (x + ([COMMA] + [BLANK]) + rest) == lead + x + [COMMA] + ([BLANK] + rest);
  }

  lemma {:induction false} NameableReadsBack(s: Schema, lead: Text)
    requires s != [] && (forall i :: 0 <= i < |s| ==> Nameable(s[i])) && (lead == [] || lead == [BLANK])
    ensures FromText(lead + ToText(s)) == Some(s)
    decreases |s|
  {
    hide ParseColumn, ColumnText, Nameable, FromText;
    var x := lead + ColumnText(s[0]);
    assert lead == [] ==> x == ColumnText(s[0]);
    ColumnReadsBack(s[0]);
    ColumnPlain(s[0]);
    NotEmpty(s[0]);
    if |s| > 1 {
      NameableReadsBack(s[1..], [BLANK]);
      TokenRead(x, [BLANK] + ToText(s[1..]));
      ToTextSplit(s, lead);
      assert [s[0]] + s[1..] == s;
    } else {
      TokenRead(x, []);
      assert [s[0]] == s;
    }
  }

  lemma NotEmpty(c: Column)
    ensures ColumnText(c) != []
  {
  }

  /** Without a first word there is no second. */
  lemma NoNameFails(token: Text)
    requires ReadWord(token).0 == []
    ensures ParseColumn(token) == None
  {
    SkipSpaceSuffix(token);
    assert SkipSpace(token) == [];
    NothingReadsAsType();
    assert ReadWord([]).0 == [];
    hide ReadType;
  }

  lemma ParsedNameable(token: Text)
    requires COMMA !in token && ParseColumn(token).Some?
    ensures Nameable(ParseColumn(token).value)
  {
    var u, name := SkipSpace(token), ReadWord(token).0;
    SkipSpaceSuffix(token);
    if name == [] {
      NoNameFails(token);
    }
    forall i | 0 <= i < |name| ensures !IsSpace(name[i]) && name[i] != COMMA {
      assert name[i] == u[i];
    }
  }

  lemma {:induction false} SkipSpaceSuffix(t: Text)
    ensures SkipSpace(t) != [] ==> !IsSpace(SkipSpace(t)[0])
    ensures forall c :: c in SkipSpace(t) ==> c in t
  {
    if t != [] && IsSpace(t[0]) {
      SkipSpaceSuffix(t[1..]);
    }
  }

  lemma {:induction false} AllParsedNameable(t: Text)
    requires FromText(t).Some?
    ensures forall i :: 0 <= i < |FromText(t).value| ==> Nameable(FromText(t).value[i])
    decreases |t|
  {
    hide ParseColumn, Nameable;
    if t != [] {
      var i := IndexOf(t, COMMA);
      ParsedNameable(t[..i]);
      AllParsedNameable(if i < |t| then t[i + 1..] else []);
    }
  }

  /** A schema's text reads back exactly if every column can be named in it. */
  lemma SchemaRoundTrip(s: Schema)
    ensures FromText(ToText(s)) == Some(s) <==> forall i :: 0 <= i < |s| ==> Nameable(s[i])
  {
    if s != [] && forall i :: 0 <= i < |s| ==> Nameable(s[i]) {
      NameableReadsBack(s, []);
      assert [] + ToText(s) == ToText(s);
    }
    if FromText(ToText(s)).Some? {
      AllParsedNameable(ToText(s));
    }
  }

  // ----- The loops -----

  lemma {:induction false} ToTextExtend(s: Schema, c: Column)
    requires s != []
    ensures ToText(s + [c]) == ToText(s) + ([COMMA, BLANK] + ColumnText(c))
    decreases |s|
  {
    hide ColumnText;
    assert (s + [c])[1..] == s[1..] + [c];
    if |s| == 1 {
      assert (s + [c])[1..] == [c];
      assert ToText([c]) == ColumnText(c);
    } else {
      ToTextExtend(s[1..], c);
      var a, b, e := ColumnText(s[0]) + [COMMA, BLANK], ToText(s[1..]), [COMMA, BLANK] + ColumnText(c);
      assert a + (b + e) == (a + b) + e;
    }
  }

  lemma PrintStep(s: Schema, i: nat)
    requires i < |s|
    ensures ToText(s[..i + 1]) == (if i == 0 then [] else ToText(s[..i]) + [COMMA, BLANK]) + ColumnText(s[i])
  {
    hide ColumnText;
    assert s[..i + 1] == s[..i] + [s[i]];
    if i == 0 {
      assert s[..1] == [s[0]];
    } else {
      ToTextExtend(s[..i], s[i]);
      var a, b := ToText(s[..i]), ColumnText(s[i]);
      assert a + ([COMMA, BLANK] + b) == (a + [COMMA, BLANK]) + b;
    }
  }

  method Print(schema: Schema) returns (result: Text)
    ensures result == ToText(schema)
  {
    hide ColumnText;
    result := [];
    for i := 0 to |schema|
      invariant result == if i == 0 then [] else ToText(schema[..i]) + [COMMA, BLANK]
    {
      PrintStep(schema, i);
      hide ToText;
      result := result + ColumnText(schema[i]);
      result := result + [COMMA, BLANK];
    }
    assert schema[..|schema|] == schema;
    if result != [] {
      result := result[..|result| - 2];
    }
  }

  method Deserialize(serialized: Text) returns (r: Option<Schema>)
    ensures r == FromText(serialized)
  {
    hide ParseColumn, IndexOf;
    var schema: Schema := [];
    var rest := serialized;
    assert forall s: Schema :: [] + s == s;
    while rest != []
      invariant Prefixed(schema, FromText(rest)) == FromText(serialized)
      decreases |rest|
    {
      var i := IndexOf(rest, COMMA);
      var column := ParseColumn(rest[..i]);
      if column.None? {
        return None;
      }
      var next := if i < |rest| then rest[i + 1..] else [];
      ghost var more := FromText(next);
      assert more.Some? ==> schema + ([column.value] + more.value) == (schema + [column.value]) + more.value;
      schema := schema + [column.value];
      rest := next;
    }
    assert schema + [] == schema;
    return Some(schema);
  }

  function Prefixed(schema: Schema, rest: Option<Schema>): Option<Schema> {
    if rest.None? then None else Some(schema + rest.value)
  }
}
