/** JSON values as the document object model holds them, and the text they are written as. */
module JsonValue {
  import opened Arith
  import opened Bytes
  import opened Numerals
  import opened Itoa

  // ---------------------------------------------------------------- numbers

  /** An integer as a value holds it: 64 bits, and a flag for each integer type that the
      value can be read as. */
  datatype Number = Number(u64: nat, isInt: bool, isUint: bool, isInt64: bool, isUint64: bool)

  const TWO31: int := 0x8000_0000
  const TWO32: int := 0x1_0000_0000
  const TWO63: int := 0x8000_0000_0000_0000
  const TWO64: int := 0x1_0000_0000_0000_0000

  function OfInt(i: int): Number
    requires -TWO31 <= i < TWO31
  {
    Number(i % TWO64, true, i >= 0, true, i >= 0)
  }

  function OfUint(u: int): Number
    requires 0 <= u < TWO32
  {
    Number(u, u < TWO31, true, true, true)
  }

  function OfInt64(i64: int): Number
    requires -TWO63 <= i64 < TWO63
  {
    if i64 >= 0 then Number(i64, i64 < TWO31, i64 < TWO32, true, true)
    else Number(i64 % TWO64, i64 >= -TWO31, false, true, false)
  }

  function OfUint64(u64: int): Number
    requires 0 <= u64 < TWO64
  {
    Number(u64, u64 < TWO31, u64 < TWO32, u64 < TWO63, true)
  }

  /** The integer that a number holds. */
  function IntegerValue(n: Number): int {
    if n.isUint64 then n.u64 else n.u64 - TWO64
  }

  predicate InRange(v: int) {
    -TWO63 <= v < TWO64
  }

  /** The number for an integer: each flag says whether the type's range has the integer. */
  function Canonical(v: int): Number
    requires InRange(v)
  {
    Number(v % TWO64, -TWO31 <= v < TWO31, 0 <= v < TWO32, v < TWO63, v >= 0)
  }

  /** All constructors give the same number for the same integer, whatever type it came in. */
  lemma ConstructorsAgree(v: int)
    ensures -TWO31 <= v < TWO31 ==> OfInt(v) == Canonical(v)
    ensures 0 <= v < TWO32 ==> OfUint(v) == Canonical(v)
    ensures -TWO63 <= v < TWO63 ==> OfInt64(v) == Canonical(v)
    ensures 0 <= v < TWO64 ==> OfUint64(v) == Canonical(v)
    ensures InRange(v) ==> IntegerValue(Canonical(v)) == v
  {
    Residue(v);
  }

  lemma Residue(v: int)
    ensures 0 <= v < TWO64 ==> v % TWO64 == v
    ensures -TWO64 < v < 0 ==> v % TWO64 == v + TWO64
  {
    if 0 <= v < TWO64 { Divides(v, TWO64, 0, v); }
    if -TWO64 < v < 0 { Divides(v, TWO64, -1, v + TWO64); }
  }

  /** The comparison of numbers looks at the 64 bits only. It is right unless the integers
      differ by 2^64: a negative one is taken for a large positive one. */
  lemma NumbersEqual(v: int, w: int)
    requires InRange(v) && InRange(w)
    ensures Canonical(v).u64 == Canonical(w).u64 <==> v == w || v - w == TWO64 || w - v == TWO64
  {
    Residue(v);
    Residue(w);
  }

  lemma MinusOneEqualsMaximum()
    ensures Canonical(-1).u64 == Canonical(TWO64 - 1).u64 && -1 != TWO64 - 1
  {
    NumbersEqual(-1, TWO64 - 1);
  }

  // ---------------------------------------------------------------- values

  datatype Member = Member(name: Text, value: Json)

  datatype Json =
    | JNull
    | JBool(b: bool)
    | JNumber(n: Number)
    | JDouble(text: Text)
    | JString(t: Text)
    | JArray(elements: seq<Json>)
    | JObject(members: seq<Member>)

  /** The number was made from an integer. */
  ghost predicate Stored(n: Number) {
    exists i :: InRange(i) && n == Canonical(i)
  }

  /** Every number was made from an integer; there are no doubles. */
  ghost predicate Legal(v: Json) {
    match v
    case JNumber(n) => Stored(n)
    case JDouble(_) => false
    case JArray(es) => forall i :: 0 <= i < |es| ==> Legal(es[i])
    case JObject(ms) => forall i :: 0 <= i < |ms| ==> Legal(ms[i].value)
    case _ => true
  }

  // ---------------------------------------------------------------- the text of a value

  /** The upper-case hexadecimal digits. */
  function HexUpper(d: nat): Byte
    requires d < 16
  {
    if d < 10 then '0' as int + d else 'A' as int + (d - 10)
  }

  /** The letter that follows the backslash when a byte is escaped; 0 if it is written as it
      is. */
  function EscapeLetter(c: Byte): Byte {
    if c == '"' as int || c == '\\' as int then c
    else if c == 8 then 'b' as int
    else if c == 9 then 't' as int
    else if c == 10 then 'n' as int
    else if c == 12 then 'f' as int
    else if c == 13 then 'r' as int
    else if c < 0x20 then 'u' as int
    else 0
  }

  function EscapedByte(c: Byte): Text {
    var e := EscapeLetter(c);
    if e == 0 then [c]
    else if e == 'u' as int then ['\\' as int, e, '0' as int, '0' as int, HexUpper(c / 16), HexUpper(c % 16)]
    else ['\\' as int, e]
  }

  /** The rest of a string from its `i`th byte on, with the closing quote. */
  function EscapedFrom(t: Text, i: nat): Text
    requires i <= |t|
    decreases |t| - i
  {
    if i == |t| then ['"' as int] else EscapedByte(t[i]) + EscapedFrom(t, i + 1)
  }

  function Quoted(t: Text): Text {
    ['"' as int] + EscapedFrom(t, 0)
  }

  const COMMA: Text := [',' as int]
  const COLON: Text := [':' as int]

  function Comma(i: nat): Text {
    if i > 0 then COMMA else []
  }

  function Serialize(v: Json): Text
    decreases v, 0
  {
    match v
    case JNull => Ascii("null")
    case JBool(b) => if b then Ascii("true") else Ascii("false")
    case JNumber(n) => IntegerText(IntegerValue(n))
    case JDouble(text) => text
    case JString(t) => Quoted(t)
    case JArray(es) => ['[' as int] + ElementsFrom(es, 0)
    case JObject(ms) => ['{' as int] + MembersFrom(ms, 0)
  }

  /** The elements from the `i`th on, with the closing bracket. */
  function ElementsFrom(es: seq<Json>, i: nat): Text
    requires i <= |es|
    decreases es, 1, |es| - i
  {
    if i == |es| then [']' as int] else Comma(i) + Serialize(es[i]) + ElementsFrom(es, i + 1)
  }

  function MembersFrom(ms: seq<Member>, i: nat): Text
    requires i <= |ms|
    decreases ms, 1, |ms| - i
  {
    if i == |ms| then ['}' as int]
    else Comma(i) + Quoted(ms[i].name) + COLON + Serialize(ms[i].value) + MembersFrom(ms, i + 1)
  }

  // ---------------------------------------------------------------- nothing superfluous is written

  predicate IsVisible(t: Text) {
    forall i :: 0 <= i < |t| ==> t[i] > 0x20
  }

  /** No string in the value holds a space; control characters may occur. */
  ghost predicate NoSpaces(v: Json) {
    match v
    case JDouble(text) => IsVisible(text)
    case JString(t) => 0x20 !in t
    case JArray(es) => forall i :: 0 <= i < |es| ==> NoSpaces(es[i])
    case JObject(ms) => forall i :: 0 <= i < |ms| ==> 0x20 !in ms[i].name && NoSpaces(ms[i].value)
    case _ => true
  }

  lemma VisibleBoth(a: Text, b: Text)
    ensures IsVisible(a + b) <==> IsVisible(a) && IsVisible(b)
  {
    assert forall i :: 0 <= i < |a| ==> (a + b)[i] == a[i];
    assert forall i :: 0 <= i < |b| ==> (a + b)[|a| + i] == b[i];
  }

  lemma {:induction false} EscapedVisible(t: Text, i: nat)
    requires i <= |t| && 0x20 !in t
    ensures IsVisible(EscapedFrom(t, i))
    decreases |t| - i
  {
    hide IsVisible, EscapedByte;
    QuoteVisible();
    if i < |t| {
      assert t[i] in t;
      ByteVisible(t[i]);
      EscapedVisible(t, i + 1);
      VisibleBoth(EscapedByte(t[i]), EscapedFrom(t, i + 1));
    }
  }

  lemma QuoteVisible()
    ensures IsVisible(['"' as int])
  {
  }

  lemma ByteVisible(c: Byte)
    requires c != 0x20
    ensures IsVisible(EscapedByte(c))
  {
  }

  lemma QuotedVisible(t: Text)
    requires 0x20 !in t
    ensures IsVisible(Quoted(t))
  {
    EscapedVisible(t, 0);
    VisibleBoth(['"' as int], EscapedFrom(t, 0));
  }

  /** Between its strings and in them, the text of a value holds no byte below 0x21 but the
      spaces of the strings: no blanks are added, and every control character is escaped. */
  lemma {:induction false} WritesVisible(v: Json)
    requires NoSpaces(v)
    ensures IsVisible(Serialize(v))
    decreases v, 0
  {
    hide IsVisible, Quoted;
    match v
    case JNull => WordsVisible();
    case JBool(b) => WordsVisible();
    case JNumber(n) => IntegerVisible(IntegerValue(n));
    case JDouble(text) =>
    case JString(t) => QuotedVisible(t);
    case JArray(es) =>
      ElementsVisible(es, 0);
      MarksVisible();
      VisibleBoth(['[' as int], ElementsFrom(es, 0));
    case JObject(ms) =>
      MembersVisible(ms, 0);
      MarksVisible();
      VisibleBoth(['{' as int], MembersFrom(ms, 0));
  }

  lemma WordsVisible()
    ensures IsVisible(Ascii("null")) && IsVisible(Ascii("true")) && IsVisible(Ascii("false"))
  {
  }

  lemma MarksVisible()
    ensures IsVisible(['[' as int]) && IsVisible(['{' as int]) && IsVisible([']' as int]) && IsVisible(['}' as int])
    ensures IsVisible(COLON) && forall i: nat :: IsVisible(Comma(i))
  {
  }

  lemma IntegerVisible(v: int)
    ensures IsVisible(IntegerText(v))
  {
    var n: nat := if v < 0 then -v else v;
    DecimalOfText(n);
    assert forall i :: 0 <= i < |DecimalText(n)| ==> IsDigit(DecimalText(n)[i]);
  }

  lemma {:induction false} ElementsVisible(es: seq<Json>, i: nat)
    requires i <= |es| && forall k :: 0 <= k < |es| ==> NoSpaces(es[k])
    ensures IsVisible(ElementsFrom(es, i))
    decreases es, 1, |es| - i
  {
    hide IsVisible, NoSpaces, Serialize, Comma;
    MarksVisible();
    if i < |es| {
      WritesVisible(es[i]);
      ElementsVisible(es, i + 1);
      VisibleBoth(Comma(i), Serialize(es[i]));
      VisibleBoth(Comma(i) + Serialize(es[i]), ElementsFrom(es, i + 1));
    }
  }

  lemma {:induction false} MembersVisible(ms: seq<Member>, i: nat)
    requires i <= |ms| && forall k :: 0 <= k < |ms| ==> 0x20 !in ms[k].name && NoSpaces(ms[k].value)
    ensures IsVisible(MembersFrom(ms, i))
    decreases ms, 1, |ms| - i
  {
    hide IsVisible, NoSpaces, Serialize, Comma, Quoted;
    MarksVisible();
    if i < |ms| {
      WritesVisible(ms[i].value);
      QuotedVisible(ms[i].name);
      MembersVisible(ms, i + 1);
      VisibleBoth(Comma(i), Quoted(ms[i].name));
      VisibleBoth(Comma(i) + Quoted(ms[i].name), COLON);
      VisibleBoth(Comma(i) + Quoted(ms[i].name) + COLON, Serialize(ms[i].value));
      VisibleBoth(Comma(i) + Quoted(ms[i].name) + COLON + Serialize(ms[i].value), MembersFrom(ms, i + 1));
    }
  }

  /** A string without control characters, quotes and backslashes is written as it is. */
  lemma {:induction false} EscapedAsIs(t: Text, i: nat)
    requires i <= |t| && forall k :: 0 <= k < |t| ==> t[k] >= 0x20 && t[k] != '"' as int && t[k] != '\\' as int
    ensures EscapedFrom(t, i) == t[i..] + ['"' as int]
    decreases |t| - i
  {
    hide EscapedByte;
    if i < |t| {
      ByteAsIs(t[i]);
      EscapedAsIs(t, i + 1);
      assert t[i..] == [t[i]] + t[i + 1..];
    }
  }

  lemma ByteAsIs(c: Byte)
    requires c >= 0x20 && c != '"' as int && c != '\\' as int
    ensures EscapedByte(c) == [c]
  {
  }

  lemma QuotedAsIs(t: Text)
    requires forall k :: 0 <= k < |t| ==> t[k] >= 0x20 && t[k] != '"' as int && t[k] != '\\' as int
    ensures Quoted(t) == ['"' as int] + t + ['"' as int]
  {
    EscapedAsIs(t, 0);
    assert t[0..] == t;
  }
}
