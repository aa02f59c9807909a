/** UTF-8: the table-driven decoder and validator, and the encoder. */
module Utf8 {
  import opened Bytes

  /** The code points that UTF-8 encodes. */
  predicate Scalar(cp: nat) {
    cp <= 0x10FFFF && !(0xD800 <= cp <= 0xDFFF)
  }

  /** The encoder takes every code point, surrogates included. */
  function Encode(cp: nat): (t: Text)
    requires cp <= 0x10FFFF
    ensures 1 <= |t| <= 4
  {
    if cp <= 0x7F then [cp]
    else if cp <= 0x7FF then [0xC0 + cp / 0x40, 0x80 + cp % 0x40]
    else if cp <= 0xFFFF then [0xE0 + cp / 0x1000, 0x80 + cp / 0x40 % 0x40, 0x80 + cp % 0x40]
    else [0xF0 + cp / 0x40000, 0x80 + cp / 0x1000 % 0x40, 0x80 + cp / 0x40 % 0x40, 0x80 + cp % 0x40]
  }

  type CodePoint = cp: nat | cp <= 0xD7FF || 0xE000 <= cp <= 0x10FFFF

  function EncodeAll(cps: seq<CodePoint>): Text {
    if cps == [] then [] else Encode(cps[0]) + EncodeAll(cps[1..])
  }

  // ---------------------------------------------------------------- section 4 of RFC 3629

  predicate IsTail(b: Byte) {
    0x80 <= b <= 0xBF
  }

  /** One character, by the grammar of section 4 of RFC 3629. */
  predicate Utf8Char(t: Text) {
    (|t| == 1 && t[0] <= 0x7F)
    || (|t| == 2 && 0xC2 <= t[0] <= 0xDF && IsTail(t[1]))
    || (|t| == 3 && IsTail(t[2])
        && ((t[0] == 0xE0 && 0xA0 <= t[1] <= 0xBF) || (0xE1 <= t[0] <= 0xEC && IsTail(t[1]))
            || (t[0] == 0xED && 0x80 <= t[1] <= 0x9F) || (0xEE <= t[0] <= 0xEF && IsTail(t[1]))))
    || (|t| == 4 && IsTail(t[2]) && IsTail(t[3])
        && ((t[0] == 0xF0 && 0x90 <= t[1] <= 0xBF) || (0xF1 <= t[0] <= 0xF3 && IsTail(t[1]))
            || (t[0] == 0xF4 && 0x80 <= t[1] <= 0x8F)))
  }

  /** A sequence of such characters. */
  ghost predicate Utf8Text(t: Text)
    decreases |t|
  {
    t == [] || exists k :: 0 < k <= |t| && Utf8Char(t[..k]) && Utf8Text(t[k..])
  }

  // ---------------------------------------------------------------- the decoder

  /** The table that classifies bytes. */
  function GetRange(c: Byte): bv8 {
    if c < 0x80 then 0
    else if c < 0x90 then 0x10
    else if c < 0xA0 then 0x40
    else if c < 0xC0 then 0x20
    else if c < 0xC2 then 8
    else if c < 0xE0 then 2
    else if c == 0xE0 then 10
    else if c == 0xED then 4
    else if c < 0xF0 then 3
    else if c == 0xF0 then 11
    else if c < 0xF4 then 6
    else if c == 0xF4 then 5
    else 8
  }

  /** The classes a continuation byte may have. */
  predicate InMask(c: Byte, mask: bv8) {
    GetRange(c) & mask != 0
  }

  lemma Masks(c: Byte)
    ensures InMask(c, 0x70) <==> IsTail(c)
    ensures InMask(c, 0x50) <==> 0x80 <= c <= 0x9F
    ensures InMask(c, 0x10) <==> 0x80 <= c <= 0x8F
    ensures InMask(c, 0x20) <==> 0xA0 <= c <= 0xBF
    ensures InMask(c, 0x60) <==> 0x90 <= c <= 0xBF
  {
  }

  lemma ZeroInNoMask()
    ensures forall mask: bv8 :: !InMask(0, mask)
  {
  }

  /** The bits of a lead byte that belong to the code point, by its class. */
  function LeadBits(c: Byte): nat {
    var ty := GetRange(c);
    if ty == 2 then c % 0x40
    else if ty == 3 then c % 0x20
    else if ty == 4 then c % 0x10
    else if ty == 5 then c % 8
    else if ty == 6 then c % 4
    else 0
  }

  /** Takes one continuation byte: the code point so far, and whether its class is allowed. */
  method TakeTail(input: ByteStream, cp: nat, mask: bv8) returns (cp': nat, ok: bool)
    requires input.Valid()
    modifies input
    ensures input.Valid() && input.pos == if old(input.pos) < |input.source| then old(input.pos) + 1 else old(input.pos)
    ensures cp' == cp * 0x40 + old(input.Peek()) % 0x40 && ok == InMask(old(input.Peek()), mask)
  {
    var c := input.Take();
    cp' := cp * 0x40 + c % 0x40;
    ok := InMask(c, mask);
  }

  /** Whether a character starts at position `p`. */
  ghost predicate StartsChar(s: Text, p: nat) {
    exists k :: p <= k <= |s| && Utf8Char(s[p..k])
  }

  /** The length of a character, from its first byte; 0 if none starts with it. */
  function LeadLength(c: Byte): nat {
    if c < 0x80 then 1
    else match GetRange(c)
      case 2 => 2
      case 3 => 3
      case 4 => 3
      case 10 => 3
      case 5 => 4
      case 6 => 4
      case 11 => 4
      case _ => 0
  }

  /** The classes allowed for the byte after a first byte. */
  function SecondMask(c: Byte): bv8 {
    match GetRange(c)
    case 4 => 0x50
    case 5 => 0x10
    case 10 => 0x20
    case 11 => 0x60
    case _ => 0x70
  }

  lemma LengthOf(t: Text)
    requires Utf8Char(t)
    ensures |t| == LeadLength(t[0])
  {
  }

  /** The digits of a number to base 64. */
  lemma Sextets(a: nat, b: nat, c: nat)
    requires b < 0x40 && c < 0x40
    ensures (a * 0x40 + b) / 0x40 == a && (a * 0x40 + b) % 0x40 == b
    ensures ((a * 0x40 + b) * 0x40 + c) / 0x1000 == a
    ensures ((a * 0x40 + b) * 0x40 + c) / 0x40 == a * 0x40 + b
  {
  }

  lemma ThreeValue(x: nat, y: nat, z: nat)
    requires y < 0x40 && z < 0x40
    requires 0x7FF < (x * 0x40 + y) * 0x40 + z <= 0xFFFF
    ensures Encode((x * 0x40 + y) * 0x40 + z) == [0xE0 + x, 0x80 + y, 0x80 + z]
  {
    Sextets(x, y, z);
    Sextets(x * 0x40 + y, z, 0);
  }

  lemma FourValue(x: nat, y: nat, z: nat, w: nat)
    requires y < 0x40 && z < 0x40 && w < 0x40
    requires 0xFFFF < ((x * 0x40 + y) * 0x40 + z) * 0x40 + w <= 0x10FFFF
    ensures Encode(((x * 0x40 + y) * 0x40 + z) * 0x40 + w) == [0xF0 + x, 0x80 + y, 0x80 + z, 0x80 + w]
  {
    Sextets(x, y, z);
    Sextets(x * 0x40 + y, z, w);
    Sextets((x * 0x40 + y) * 0x40 + z, w, 0);
    assert (((x * 0x40 + y) * 0x40 + z) * 0x40 + w) / 0x40000 == x;
  }

  /** A code point from its digits to base 64. */
  lemma Recompose(cp: nat)
    ensures cp == cp / 0x40 * 0x40 + cp % 0x40
    ensures cp / 0x40 == cp / 0x1000 * 0x40 + cp / 0x40 % 0x40
    ensures cp / 0x1000 == cp / 0x40000 * 0x40 + cp / 0x1000 % 0x40
  {
  }

  /** The decoder's test on a two-byte character, and the code point it assembles. */
  lemma TwoBytes(b0: Byte, b1: Byte)
    requires LeadLength(b0) == 2
    ensures Utf8Char([b0, b1]) <==> InMask(b1, SecondMask(b0))
    ensures Utf8Char([b0, b1]) ==> var cp := LeadBits(b0) * 0x40 + b1 % 0x40; Scalar(cp) && Encode(cp) == [b0, b1]
  {
  }

  lemma ThreeShape(b0: Byte, b1: Byte, b2: Byte)
    requires LeadLength(b0) == 3
    ensures Utf8Char([b0, b1, b2]) <==> InMask(b1, SecondMask(b0)) && InMask(b2, 0x70)
  {
    Masks(b1);
    Masks(b2);
  }

  lemma ThreeLead(b0: Byte, b1: Byte, b2: Byte)
    requires Utf8Char([b0, b1, b2])
    ensures LeadBits(b0) == b0 - 0xE0 && b1 % 0x40 == b1 - 0x80 && b2 % 0x40 == b2 - 0x80
    ensures 0xE0 <= b0 <= 0xEF && (b0 == 0xE0 ==> b1 >= 0xA0) && (b0 == 0xED ==> b1 <= 0x9F)
  {
  }

  lemma ThreeBytes(b0: Byte, b1: Byte, b2: Byte)
    requires LeadLength(b0) == 3
    ensures Utf8Char([b0, b1, b2]) <==> InMask(b1, SecondMask(b0)) && InMask(b2, 0x70)
    ensures Utf8Char([b0, b1, b2]) ==> var cp := (LeadBits(b0) * 0x40 + b1 % 0x40) * 0x40 + b2 % 0x40; Scalar(cp) && Encode(cp) == [b0, b1, b2]
  {
    hide LeadBits, InMask, GetRange, SecondMask, LeadLength, Utf8Char, Encode;
    ThreeShape(b0, b1, b2);
    if Utf8Char([b0, b1, b2]) {
      ThreeLead(b0, b1, b2);
      ThreeValue(b0 - 0xE0, b1 - 0x80, b2 - 0x80);
    }
  }

  lemma FourShape(b0: Byte, b1: Byte, b2: Byte, b3: Byte)
    requires LeadLength(b0) == 4
    ensures Utf8Char([b0, b1, b2, b3]) <==> InMask(b1, SecondMask(b0)) && InMask(b2, 0x70) && InMask(b3, 0x70)
  {
    Masks(b1);
    Masks(b2);
    Masks(b3);
  }

  lemma FourLead(b0: Byte, b1: Byte, b2: Byte, b3: Byte)
    requires Utf8Char([b0, b1, b2, b3])
    ensures LeadBits(b0) == b0 - 0xF0 && b1 % 0x40 == b1 - 0x80 && b2 % 0x40 == b2 - 0x80 && b3 % 0x40 == b3 - 0x80
    ensures b0 == 0xF0 ==> b1 >= 0x90
    ensures b0 == 0xF4 ==> b1 <= 0x8F
    ensures 0xF0 <= b0 <= 0xF4
  {
  }

  lemma FourBytes(b0: Byte, b1: Byte, b2: Byte, b3: Byte)
    requires LeadLength(b0) == 4
    ensures Utf8Char([b0, b1, b2, b3]) <==> InMask(b1, SecondMask(b0)) && InMask(b2, 0x70) && InMask(b3, 0x70)
    ensures Utf8Char([b0, b1, b2, b3]) ==>
      var cp := ((LeadBits(b0) * 0x40 + b1 % 0x40) * 0x40 + b2 % 0x40) * 0x40 + b3 % 0x40; Scalar(cp) && Encode(cp) == [b0, b1, b2, b3]
  {
    hide LeadBits, InMask, GetRange, SecondMask, LeadLength, Utf8Char, Encode;
    FourShape(b0, b1, b2, b3);
    if Utf8Char([b0, b1, b2, b3]) {
      FourLead(b0, b1, b2, b3);
      FourValue(b0 - 0xF0, b1 - 0x80, b2 - 0x80, b3 - 0x80);
    }
  }

  /** The test and the result of the decoder at a position where a byte is left. */
  lemma CharAt(s: Text, p: nat)
    requires p < |s|
    ensures var k := LeadLength(s[p]);
      StartsChar(s, p) <==> k > 0 && p + k <= |s| && Utf8Char(s[p..p + k])
    ensures StartsChar(s, p) ==> p + LeadLength(s[p]) <= |s|
  {
    if StartsChar(s, p) {
      var k :| p <= k <= |s| && Utf8Char(s[p..k]);
      LengthOf(s[p..k]);
    }
  }

  /** Takes two or three continuation bytes, the first of a restricted class. */
  method TakeTwo(input: ByteStream, cp: nat, mask: bv8) returns (cp': nat, ok: bool)
    requires input.Valid()
    modifies input
    ensures input.Valid() && old(input.pos) <= input.pos
    ensures ok <==> InMask(Peek(input.source, old(input.pos)), mask) && InMask(Peek(input.source, old(input.pos) + 1), 0x70)
    ensures ok ==> input.pos == old(input.pos) + 2
    ensures ok ==> cp' == (cp * 0x40 + Peek(input.source, old(input.pos)) % 0x40) * 0x40 + Peek(input.source, old(input.pos) + 1) % 0x40
  {
    assert !InMask(0, 0x70);
    var more;
    cp', ok := TakeTail(input, cp, mask);
    cp', more := TakeTail(input, cp', 0x70);
    ok := ok && more;
  }

  method TakeThree(input: ByteStream, cp: nat, mask: bv8) returns (cp': nat, ok: bool)
    requires input.Valid()
    modifies input
    ensures input.Valid() && old(input.pos) <= input.pos
    ensures ok <==> InMask(Peek(input.source, old(input.pos)), mask) && InMask(Peek(input.source, old(input.pos) + 1), 0x70)
                    && InMask(Peek(input.source, old(input.pos) + 2), 0x70)
    ensures ok ==> input.pos == old(input.pos) + 3
    ensures ok ==> cp' == ((cp * 0x40 + Peek(input.source, old(input.pos)) % 0x40) * 0x40
                           + Peek(input.source, old(input.pos) + 1) % 0x40) * 0x40 + Peek(input.source, old(input.pos) + 2) % 0x40
  {
    assert !InMask(0, 0x70);
    var more;
    cp', ok := TakeTwo(input, cp, mask);
    cp', more := TakeTail(input, cp', 0x70);
    ok := ok && more;
  }

  /** What the decoder's tests on the continuation bytes decide. */
  lemma CharTests(s: Text, p: nat)
    requires p < |s| && s[p] >= 0x80
    ensures
      var k, b1, b2, b3 := LeadLength(s[p]), Peek(s, p + 1), Peek(s, p + 2), Peek(s, p + 3);
      (StartsChar(s, p) <==> k > 1 && InMask(b1, SecondMask(s[p])) && (k >= 3 ==> InMask(b2, 0x70)) && (k == 4 ==> InMask(b3, 0x70)))
      && (StartsChar(s, p) ==> p + k <= |s| && Utf8Char(s[p..p + k]))
  {
    var k, b0, b1, b2, b3 := LeadLength(s[p]), s[p], Peek(s, p + 1), Peek(s, p + 2), Peek(s, p + 3);
    CharAt(s, p);
    assert !InMask(0, SecondMask(b0)) && !InMask(0, 0x70);
    hide Utf8Char, StartsChar, InMask, Encode, Scalar, LeadBits, SecondMask;
    if k == 2 {
      TwoBytes(b0, b1);
      assert p + k <= |s| ==> s[p..p + k] == [b0, b1];
    } else if k == 3 {
      ThreeBytes(b0, b1, b2);
      assert p + k <= |s| ==> s[p..p + k] == [b0, b1, b2];
    } else if k == 4 {
      FourBytes(b0, b1, b2, b3);
      assert p + k <= |s| ==> s[p..p + k] == [b0, b1, b2, b3];
    }
  }

  /** The code point the decoder assembles. */
  lemma CharValue(s: Text, p: nat, cp: nat)
    requires p < |s| && s[p] >= 0x80 && p + LeadLength(s[p]) <= |s| && Utf8Char(s[p..p + LeadLength(s[p])])
    requires
      var k, b1, b2, b3 := LeadLength(s[p]), Peek(s, p + 1), Peek(s, p + 2), Peek(s, p + 3);
      var cp1 := LeadBits(s[p]) * 0x40 + b1 % 0x40;
      cp == if k == 2 then cp1 else if k == 3 then cp1 * 0x40 + b2 % 0x40 else (cp1 * 0x40 + b2 % 0x40) * 0x40 + b3 % 0x40
    ensures Scalar(cp) && Encode(cp) == s[p..p + LeadLength(s[p])]
  {
    var k, b0, b1, b2, b3 := LeadLength(s[p]), s[p], Peek(s, p + 1), Peek(s, p + 2), Peek(s, p + 3);
    LengthOf(s[p..p + k]);
    hide Utf8Char, Encode, Scalar, LeadBits;
    if k == 2 {
      TwoBytes(b0, b1);
      assert s[p..p + k] == [b0, b1];
    } else if k == 3 {
      ThreeBytes(b0, b1, b2);
      assert s[p..p + k] == [b0, b1, b2];
    } else {
      FourBytes(b0, b1, b2, b3);
      assert s[p..p + k] == [b0, b1, b2, b3];
    }
  }

  lemma AsciiChar(s: Text, p: nat)
    requires p < |s| && s[p] < 0x80
    ensures StartsChar(s, p) && Utf8Char(s[p..p + 1]) && Scalar(s[p]) && Encode(s[p]) == s[p..p + 1]
  {
    assert s[p..p + 1] == [s[p]];
  }

  /** Decodes one character: it succeeds exactly on the sequences of section 4 of RFC 3629,
      and then what it took is the encoding of the code point it gives. */
  method Decode(input: ByteStream) returns (codepoint: nat, result: bool)
    requires input.Valid() && input.pos < |input.source|
    modifies input
    ensures input.Valid() && old(input.pos) < input.pos
    ensures result <==> StartsChar(input.source, old(input.pos))
    ensures result ==> Utf8Char(input.source[old(input.pos)..input.pos])
    ensures result ==> Scalar(codepoint) && Encode(codepoint) == input.source[old(input.pos)..input.pos]
  {
    hide Utf8Char, Encode, StartsChar, Scalar, InMask, LeadBits;
    ghost var s, p := input.source, input.pos;
    var c := input.Take();
    if c < 0x80 {
      AsciiChar(s, p);
      return c, true;
    }
    CharTests(s, p);
    codepoint := LeadBits(c);
    match GetRange(c) {
      case 2 => codepoint, result := TakeTail(input, codepoint, 0x70);
      case 3 => codepoint, result := TakeTwo(input, codepoint, 0x70);
      case 4 => codepoint, result := TakeTwo(input, codepoint, 0x50);
      case 5 => codepoint, result := TakeThree(input, codepoint, 0x10);
      case 6 => codepoint, result := TakeThree(input, codepoint, 0x70);
      case 10 => codepoint, result := TakeTwo(input, codepoint, 0x20);
      case 11 => codepoint, result := TakeThree(input, codepoint, 0x60);
      case _ => result := false;
    }
    if result { CharValue(s, p, codepoint); }
  }

  /** Takes and copies one continuation byte, and says whether its class is allowed. */
  method CopyTail(input: ByteStream, mask: bv8, out: Text) returns (out': Text, ok: bool)
    requires input.Valid()
    modifies input
    ensures input.Valid() && input.pos == if old(input.pos) < |input.source| then old(input.pos) + 1 else old(input.pos)
    ensures out' == out + [old(input.Peek())] && ok == InMask(old(input.Peek()), mask)
  {
    var c := input.Take();
    out' := out + [c];
    ok := InMask(c, mask);
  }

  /** Copies the continuation bytes after a lead byte whose second byte has a class of
      `mask`; `more` counts those after the second. */
  method CopyTails(input: ByteStream, mask: bv8, more: nat, out: Text) returns (out': Text, ok: bool)
    requires input.Valid() && more <= 2 && !InMask(0, mask)
    modifies input
    ensures input.Valid() && old(input.pos) <= input.pos
    ensures ok <==> InMask(Peek(input.source, old(input.pos)), mask)
                    && (more >= 1 ==> InMask(Peek(input.source, old(input.pos) + 1), 0x70))
                    && (more >= 2 ==> InMask(Peek(input.source, old(input.pos) + 2), 0x70))
    ensures ok ==> input.pos == old(input.pos) + 1 + more && out' == out + input.source[old(input.pos)..input.pos]
  {
    assert !InMask(0, 0x70);
    hide InMask;
    ghost var s, p := input.source, input.pos;
    out', ok := CopyTail(input, mask, out);
    assert p < |s| ==> s[p..p + 1] == [s[p]];
    if more >= 1 {
      var next;
      out', next := CopyTail(input, 0x70, out');
      ok := ok && next;
      assert p + 1 < |s| ==> s[p..p + 2] == s[p..p + 1] + [s[p + 1]];
    }
    if more == 2 {
      var next;
      out', next := CopyTail(input, 0x70, out');
      ok := ok && next;
      assert p + 2 < |s| ==> s[p..p + 3] == s[p..p + 2] + [s[p + 2]];
    }
  }

  /** Validates and copies one character: it agrees with `Decode` on every input. */
  method Validate(input: ByteStream, out: Text) returns (out': Text, result: bool)
    requires input.Valid() && input.pos < |input.source|
    modifies input
    ensures input.Valid() && old(input.pos) < input.pos
    ensures result <==> StartsChar(input.source, old(input.pos))
    ensures result ==> out' == out + input.source[old(input.pos)..input.pos] && Utf8Char(input.source[old(input.pos)..input.pos])
  {
    hide Utf8Char, StartsChar, InMask, Encode, Scalar;
    ZeroInNoMask();
    ghost var s, p := input.source, input.pos;
    var c := input.Take();
    out' := out + [c];
    if c < 0x80 {
      AsciiChar(s, p);
      return out', true;
    }
    CharTests(s, p);
    match GetRange(c) {
      case 2 => out', result := CopyTails(input, 0x70, 0, out');
      case 3 => out', result := CopyTails(input, 0x70, 1, out');
      case 4 => out', result := CopyTails(input, 0x50, 1, out');
      case 5 => out', result := CopyTails(input, 0x10, 2, out');
      case 6 => out', result := CopyTails(input, 0x70, 2, out');
      case 10 => out', result := CopyTails(input, 0x20, 1, out');
      case 11 => out', result := CopyTails(input, 0x60, 2, out');
      case _ => result := false;
    }
    if result { assert s[p..input.pos] == s[p..p + 1] + s[p + 1..input.pos]; }
  }

  // ---------------------------------------------------------------- encoding and decoding

  /** The encoder gives a well-formed character exactly for the code points that are not
      surrogates. */
  lemma EncodeIsChar(cp: nat)
    requires cp <= 0x10FFFF
    ensures Utf8Char(Encode(cp)) <==> Scalar(cp)
  {
    Recompose(cp);
  }

  lemma EncodeInjective(a: nat, b: nat)
    requires a <= 0x10FFFF && b <= 0x10FFFF && Encode(a) == Encode(b)
    ensures a == b
  {
    Recompose(a);
    Recompose(b);
    assert |Encode(a)| == |Encode(b)|;
    assert forall i :: 0 <= i < |Encode(a)| ==> Encode(a)[i] == Encode(b)[i];
  }

  /** Characters are self-delimiting: a text starts with at most one of them. */
  lemma CharPrefix(t: Text, u: Text, x: Text, y: Text)
    requires Utf8Char(t) && Utf8Char(u) && t + x == u + y
    ensures t == u && x == y
  {
    LengthOf(t);
    LengthOf(u);
    assert t[0] == (t + x)[0] == u[0];
    assert t == (t + x)[..|t|] && x == (t + x)[|t|..];
  }

  /** Whole sequences of code points can be read back in one way only. */
  lemma {:induction false} EncodeAllInjective(a: seq<CodePoint>, b: seq<CodePoint>)
    requires EncodeAll(a) == EncodeAll(b)
    ensures a == b
  {
    if a != [] && b != [] {
      EncodeIsChar(a[0]);
      EncodeIsChar(b[0]);
      CharPrefix(Encode(a[0]), Encode(b[0]), EncodeAll(a[1..]), EncodeAll(b[1..]));
      EncodeInjective(a[0], b[0]);
      EncodeAllInjective(a[1..], b[1..]);
    }
  }

  /** The texts of section 4 of RFC 3629 are exactly those the encoder writes. */
  lemma {:induction false} EncodeAllIsText(cps: seq<CodePoint>)
    ensures Utf8Text(EncodeAll(cps))
  {
    if cps != [] {
      var t, k := EncodeAll(cps), |Encode(cps[0])|;
      EncodeIsChar(cps[0]);
      EncodeAllIsText(cps[1..]);
      assert t[..k] == Encode(cps[0]) && t[k..] == EncodeAll(cps[1..]);
    }
  }

  lemma {:induction false} EncodeAllPush(cps: seq<CodePoint>, cp: CodePoint)
    ensures EncodeAll(cps + [cp]) == EncodeAll(cps) + Encode(cp)
  {
    if cps != [] {
      EncodeAllPush(cps[1..], cp);
      assert (cps + [cp])[1..] == cps[1..] + [cp];
    } else {
      assert EncodeAll([cp]) == Encode(cp) + EncodeAll([]);
    }
  }

  lemma ScalarIs(cp: nat)
    requires Scalar(cp)
    ensures cp <= 0xD7FF || 0xE000 <= cp <= 0x10FFFF
  {
  }

  lemma TextStarts(t: Text, p: nat)
    requires p < |t| && Utf8Text(t[p..])
    ensures StartsChar(t, p)
  {
    var k :| 0 < k <= |t[p..]| && Utf8Char(t[p..][..k]);
    assert t[p..p + k] == t[p..][..k];
  }

  lemma TextStep(t: Text, p: nat, q: nat)
    requires p < q <= |t| && Utf8Char(t[p..q])
    ensures Utf8Text(t[p..]) <==> Utf8Text(t[q..])
  {
    var u := t[p..];
    assert u[..q - p] == t[p..q] && u[q - p..] == t[q..];
    if Utf8Text(u) {
      var k :| 0 < k <= |u| && Utf8Char(u[..k]) && Utf8Text(u[k..]);
      CharPrefix(u[..k], u[..q - p], u[k..], u[q - p..]);
    }
  }

  /** Decoding a text character by character gives the code points it was encoded from. */
  method DecodeAll(t: Text) returns (cps: seq<CodePoint>, result: bool)
    ensures result <==> Utf8Text(t)
    ensures result ==> EncodeAll(cps) == t
  {
    hide Utf8Char, Scalar, Encode, StartsChar;
    var input := new ByteStream(t);
    cps, result := [], true;
    while input.pos < |t| && result
      invariant input.Valid() && input.source == t
      invariant result ==> EncodeAll(cps) == t[..input.pos] && (Utf8Text(t) <==> Utf8Text(t[input.pos..]))
      invariant !result ==> !Utf8Text(t)
      decreases |t| - input.pos, result
    {
      ghost var p := input.pos;
      var cp;
      cp, result := Decode(input);
      if result {
        TextStep(t, p, input.pos);
        ScalarIs(cp);
        EncodeAllPush(cps, cp);
        cps := cps + [cp];
        assert t[..p] + t[p..input.pos] == t[..input.pos];
      } else {
        if Utf8Text(t[p..]) { TextStarts(t, p); }
      }
    }
    assert t[..|t|] == t && t[|t|..] == [];
  }
}
