/** The lexical layer of the JSON reader: blanks and comments, strings and numbers, as
    functions of the text and a position. */
module JsonLexer {
  import opened Options
  import opened Bytes
  import opened Numerals
  import Utf8

  /** The parse flags that change what is accepted. */
  datatype Flags = Flags(trailingCommas: bool, comments: bool, stopWhenDone: bool)

  // ---------------------------------------------------------------- blanks

  predicate IsBlank(c: Byte) {
    c == ' ' as int || c == '\n' as int || c == '\r' as int || c == '\t' as int
  }

  function SkipBlanks(s: Text, i: nat): (j: nat)
    ensures i <= j && (i <= |s| ==> j <= |s|) && !IsBlank(Peek(s, j))
    decreases |s| - i
  {
    if i < |s| && IsBlank(s[i]) then SkipBlanks(s, i + 1) else i
  }

  /** The end of a block comment whose inside starts at `i`. */
  function BlockEnd(s: Text, i: nat): (r: Option<nat>)
    ensures r.Some? ==> i < r.value <= |s|
    decreases |s| - i
  {
    if i >= |s| || s[i] == 0 then None
    else if s[i] == '*' as int && Peek(s, i + 1) == '/' as int then Some(i + 2)
    else BlockEnd(s, i + 1)
  }

  function LineEnd(s: Text, i: nat): (j: nat)
    ensures i <= j && (i <= |s| ==> j <= |s|)
    decreases |s| - i
  {
    if i >= |s| || s[i] == 0 then i
    else if s[i] == '\n' as int then i + 1
    else LineEnd(s, i + 1)
  }

  /** The end of a comment that starts at `i`. */
  function CommentEnd(s: Text, i: nat): (r: Option<nat>)
    ensures r.Some? ==> i < r.value && (i < |s| ==> r.value <= |s|)
  {
    if Peek(s, i + 1) == '*' as int then BlockEnd(s, i + 2)
    else if Peek(s, i + 1) == '/' as int then Some(LineEnd(s, i + 2))
    else None
  }

  /** Blanks and, if allowed, comments. */
  function SkipAt(s: Text, i: nat, comments: bool): (r: Option<nat>)
    ensures r.Some? ==> i <= r.value && (i <= |s| ==> r.value <= |s|)
    decreases |s| - i
  {
    var j := SkipBlanks(s, i);
    if !comments || Peek(s, j) != '/' as int then Some(j)
    else match CommentEnd(s, j)
      case None => None
      case Some(k) => SkipAt(s, k, comments)
  }

  // ---------------------------------------------------------------- strings

  /** The byte that a one-letter escape stands for; 0 if there is none. */
  function Escape(e: Byte): Byte {
    if e == '"' as int || e == '/' as int || e == '\\' as int then e
    else if e == 'b' as int then 8
    else if e == 'f' as int then 12
    else if e == 'n' as int then 10
    else if e == 'r' as int then 13
    else if e == 't' as int then 9
    else 0
  }

  function HexDigit(c: Byte): (r: Option<nat>)
    ensures r.Some? ==> r.value < 16 && c != 0
  {
    if '0' as int <= c <= '9' as int then Some(c - '0' as int)
    else if 'A' as int <= c <= 'F' as int then Some(c - 'A' as int + 10)
    else if 'a' as int <= c <= 'f' as int then Some(c - 'a' as int + 10)
    else None
  }

  // What a hexadecimal digit is, by a table of each case.
  const LOWER: Text := Ascii("0123456789abcdef")
  const UPPER: Text := Ascii("0123456789ABCDEF")

  ghost predicate IsHex(c: Byte, d: nat) {
    d < 16 && (c == LOWER[d] || c == UPPER[d])
  }

  lemma HexDigitsAre(c: Byte, d: nat)
    ensures IsHex(c, d) <==> HexDigit(c) == Some(d)
  {
    assert LOWER == ['0' as int, '1' as int, '2' as int, '3' as int, '4' as int, '5' as int, '6' as int, '7' as int, '8' as int, '9' as int,
                     'a' as int, 'b' as int, 'c' as int, 'd' as int, 'e' as int, 'f' as int];
    assert UPPER == ['0' as int, '1' as int, '2' as int, '3' as int, '4' as int, '5' as int, '6' as int, '7' as int, '8' as int, '9' as int,
                     'A' as int, 'B' as int, 'C' as int, 'D' as int, 'E' as int, 'F' as int];
  }

  function HexFrom(s: Text, i: nat, digits: nat, acc: nat): (r: Option<nat>)
    ensures r.Some? && digits > 0 ==> i + digits <= |s|
    decreases digits
  {
    if digits == 0 then Some(acc)
    else match HexDigit(Peek(s, i))
      case None => None
      case Some(d) => HexFrom(s, i + 1, digits - 1, acc * 16 + d)
  }

  function Pow16(n: nat): nat {
    if n == 0 then 1 else 16 * Pow16(n - 1)
  }

  lemma Scale(x: nat, y: nat, p: nat)
    requires x <= 16 * y
    ensures x * p <= y * (16 * p)
  {
    assert x * p <= (16 * y) * p;
    assert (16 * y) * p == y * (16 * p);
  }

  lemma {:induction false} HexBound(s: Text, i: nat, digits: nat, acc: nat)
    ensures var r := HexFrom(s, i, digits, acc); r.Some? ==> r.value < (acc + 1) * Pow16(digits)
    decreases digits
  {
    if digits > 0 && HexDigit(Peek(s, i)).Some? {
      var acc', p := acc * 16 + HexDigit(Peek(s, i)).value, Pow16(digits - 1);
      HexBound(s, i + 1, digits - 1, acc');
      Scale(acc' + 1, acc + 1, p);
    }
  }

  /** The four hexadecimal digits at `i`. */
  lemma HexStep(s: Text, i: nat, digits: nat, acc: nat)
    requires digits > 0
    ensures HexFrom(s, i, digits, acc) ==
      match HexDigit(Peek(s, i))
      case None => None
      case Some(d) => HexFrom(s, i + 1, digits - 1, acc * 16 + d)
  {
  }

  lemma HexEnd(s: Text, i: nat, acc: nat)
    ensures HexFrom(s, i, 0, acc) == Some(acc)
  {
  }

  lemma Hex4Is(s: Text, i: nat)
    ensures Hex4(s, i) == HexFrom(s, i, 4, 0)
  {
    hide HexFrom;
  }

  function Hex4(s: Text, i: nat): (r: Option<nat>)
    ensures r.Some? ==> r.value <= 0xFFFF && i + 4 <= |s|
  {
    HexBound(s, i, 4, 0);
    assert Pow16(4) == 16 * Pow16(3) == 0x100 * Pow16(2) == 0x10000;
    HexFrom(s, i, 4, 0)
  }

  /** The code point of a `\u` escape whose digits start at `i`, and the position after it. */
  function UnicodeAt(s: Text, i: nat): (r: Option<(nat, nat)>)
    ensures r.Some? ==> r.value.0 <= 0x10FFFF && i < r.value.1 <= |s|
  {
    match Hex4(s, i)
    case None => None
    case Some(cp) =>
      if !(0xD800 <= cp <= 0xDBFF) then Some((cp, i + 4))
      else if Peek(s, i + 4) != '\\' as int || Peek(s, i + 5) != 'u' as int then None
      else match Hex4(s, i + 6)
        case None => None
        case Some(low) =>
          if 0xDC00 <= low <= 0xDFFF then Some(((cp - 0xD800) * 0x400 + (low - 0xDC00) + 0x10000, i + 10)) else None
  }

  function Prefixed(t: Text, r: Option<(Text, nat)>): Option<(Text, nat)> {
    match r
    case None => None
    case Some((u, j)) => Some((t + u, j))
  }

  /** The string whose inside starts at `i`, and the position after its closing quote. */
  function StringAt(s: Text, i: nat): (r: Option<(Text, nat)>)
    ensures r.Some? ==> i < r.value.1 <= |s|
    decreases |s| - i
  {
    var c := Peek(s, i);
    if c == '\\' as int then
      var e := Peek(s, i + 1);
      if Escape(e) != 0 then Prefixed([Escape(e)], StringAt(s, i + 2))
      else if e == 'u' as int then
        match UnicodeAt(s, i + 2)
        case None => None
        case Some((cp, j)) => Prefixed(Utf8.Encode(cp), StringAt(s, j))
      else None
    else if c == '"' as int then Some(([], i + 1))
    else if c < 0x20 then None
    else Prefixed([c], StringAt(s, i + 1))
  }

  // ---------------------------------------------------------------- numbers

  function DigitsEnd(s: Text, i: nat): (j: nat)
    ensures i <= j && (i <= |s| ==> j <= |s|) && !IsDigit(Peek(s, j))
    ensures forall k :: i <= k < j ==> k < |s| && IsDigit(s[k])
    decreases |s| - i
  {
    if IsDigit(Peek(s, i)) then DigitsEnd(s, i + 1) else i
  }

  /** The end of the integer part at `i`: a zero, or digits without a leading zero. */
  function IntegerEnd(s: Text, i: nat): (r: Option<nat>)
    ensures r.Some? ==> i < r.value <= |s| && AllDigits(s[i..r.value])
  {
    if Peek(s, i) == '0' as int then Some(i + 1)
    else if IsDigit(Peek(s, i)) then Some(DigitsEnd(s, i + 1))
    else None
  }

  /** The end of an optional fraction. */
  function FractionEnd(s: Text, i: nat): (r: Option<nat>)
    ensures r.Some? && i <= |s| ==> i <= r.value <= |s|
  {
    if Peek(s, i) != '.' as int then Some(i)
    else if IsDigit(Peek(s, i + 1)) then Some(DigitsEnd(s, i + 1))
    else None
  }

  /** The end of an optional exponent. */
  function ExponentEnd(s: Text, i: nat): (r: Option<nat>)
    ensures r.Some? && i <= |s| ==> i <= r.value <= |s|
  {
    if Peek(s, i) != 'e' as int && Peek(s, i) != 'E' as int then Some(i)
    else
      var j := if Peek(s, i + 1) == '+' as int || Peek(s, i + 1) == '-' as int then i + 2 else i + 1;
      if IsDigit(Peek(s, j)) then Some(DigitsEnd(s, j)) else None
  }

  /** What a scalar reports. A number that is no integer of at most 64 bits is reported by
      its text; its conversion to a double is outside the model. */
  datatype Scalar =
    | Null
    | Bool(b: bool)
    | Int(i: int)
    | Uint(u: int)
    | Int64(i64: int)
    | Uint64(u64: int)
    | Double(text: Text)
    | String(value: Text)

  /** The range of a negative or a non-negative integer. */
  predicate Fits64(minus: bool, v: nat) {
    if minus then v <= 0x8000_0000_0000_0000 else v <= 0xFFFF_FFFF_FFFF_FFFF
  }

  /** The integer report of magnitude `v`. */
  function IntegerOf(minus: bool, v: nat): Scalar
    requires Fits64(minus, v)
  {
    if minus then (if v <= 0x8000_0000 then Int(0 - v) else Int64(0 - v))
    else (if v <= 0xFFFF_FFFF then Uint(v) else Uint64(v))
  }

  /** The number at `i`. Whether a double is too big is decided by `tooBig`. */
  function NumberAt(s: Text, i: nat, tooBig: Text -> bool): (r: Option<(Scalar, nat)>)
    ensures r.Some? ==> i < r.value.1 <= |s|
  {
    var minus := Peek(s, i) == '-' as int;
    var start := if minus then i + 1 else i;
    match IntegerEnd(s, start)
    case None => None
    case Some(j) =>
      match FractionEnd(s, j)
      case None => None
      case Some(k) =>
        match ExponentEnd(s, k)
        case None => None
        case Some(end) =>
          var v := Decimal(s[start..j]);
          if end == j && Fits64(minus, v) then Some((IntegerOf(minus, v), end))
          else if tooBig(s[i..end]) then None
          else Some((Double(s[i..end]), end))
  }

  // ---------------------------------------------------------------- scalars

  const NULL: Text := Ascii("null")
  const TRUE: Text := Ascii("true")
  const FALSE: Text := Ascii("false")

  /** The value at `i`, if it is neither an object nor an array. */
  function ScalarAt(s: Text, i: nat, tooBig: Text -> bool): (r: Option<(Scalar, nat)>)
    ensures r.Some? ==> i < r.value.1 <= |s|
  {
    var c := Peek(s, i);
    if c == 'n' as int then (if HasAt(s, i, NULL) then Some((Null, i + 4)) else None)
    else if c == 't' as int then (if HasAt(s, i, TRUE) then Some((Bool(true), i + 4)) else None)
    else if c == 'f' as int then (if HasAt(s, i, FALSE) then Some((Bool(false), i + 5)) else None)
    else if c == '"' as int then
      match StringAt(s, i + 1)
      case None => None
      case Some((t, j)) => Some((String(t), j))
    else NumberAt(s, i, tooBig)
  }

  // ---------------------------------------------------------------- facts about them

  lemma PrefixedTwice(t: Text, u: Text, r: Option<(Text, nat)>)
    ensures Prefixed(t, Prefixed(u, r)) == Prefixed(t + u, r)
  {
    if r.Some? { assert (t + u) + r.value.0 == t + (u + r.value.0); }
  }

  lemma PrefixedNothing(r: Option<(Text, nat)>)
    ensures Prefixed([], r) == r
  {
    if r.Some? { assert [] + r.value.0 == r.value.0; }
  }

  lemma {:induction false} DigitsEndIs(s: Text, i: nat, j: nat)
    requires i <= j <= |s| && AllDigits(s[i..j]) && !IsDigit(Peek(s, j))
    ensures DigitsEnd(s, i) == j
    decreases j - i
  {
    if i < j {
      assert IsDigit(s[i..j][0]);
      assert s[i + 1..j] == s[i..j][1..];
      DigitsEndIs(s, i + 1, j);
    }
  }

  lemma DecimalPush(s: Text, i: nat, j: nat)
    requires i <= j < |s| && AllDigits(s[i..j]) && IsDigit(s[j])
    ensures AllDigits(s[i..j + 1]) && Decimal(s[i..j + 1]) == 10 * Decimal(s[i..j]) + (s[j] - '0' as int)
  {
    assert s[i..j + 1][..j - i] == s[i..j];
  }

  /** More digits never make a number smaller. */
  lemma {:induction false} DecimalGrows(s: Text, i: nat, j: nat, k: nat)
    requires i <= j <= k <= |s| && AllDigits(s[i..k])
    ensures AllDigits(s[i..j]) && Decimal(s[i..j]) <= Decimal(s[i..k])
    decreases k - j
  {
    assert forall x :: 0 <= x < j - i ==> s[i..j][x] == s[i..k][x];
    if j < k {
      assert s[i..k][j - i] == s[j];
      DecimalPush(s, i, j);
      DecimalGrows(s, i, j + 1, k);
    }
  }
}
