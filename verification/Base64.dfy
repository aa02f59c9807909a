/** The base64 codec of section 4 of RFC 4648. */
module Base64 {
  import opened Arith
  import opened Bytes

  const PAD: Byte := '=' as int

  // ---------------------------------------------------------------- the alphabet

  type Sextet = x: int | 0 <= x < 64

  /** The character at place `x` of the alphabet. */
  function CharOf(x: Sextet): Byte {
    if x < 26 then 'A' as int + x
    else if x < 52 then 'a' as int + (x - 26)
    else if x < 62 then '0' as int + (x - 52)
    else if x == 62 then '+' as int
    else '/' as int
  }

  predicate IsBase64(c: Byte) {
    || 'A' as int <= c <= 'Z' as int || 'a' as int <= c <= 'z' as int || '0' as int <= c <= '9' as int
    || c == '+' as int || c == '/' as int
  }

  /** The place of a character in the alphabet; the code's `find` gives 255, cut to a byte, for any other. */
  function PlaceOf(c: Byte): Byte {
    if 'A' as int <= c <= 'Z' as int then c - 'A' as int
    else if 'a' as int <= c <= 'z' as int then c - 'a' as int + 26
    else if '0' as int <= c <= '9' as int then c - '0' as int + 52
    else if c == '+' as int then 62
    else if c == '/' as int then 63
    else 255
  }

  /** The alphabet and its inverse. */
  lemma Places(x: Sextet, c: Byte)
    ensures PlaceOf(CharOf(x)) == x && IsBase64(CharOf(x)) && CharOf(x) != PAD
    ensures IsBase64(c) <==> PlaceOf(c) < 64
    ensures PlaceOf(c) < 64 ==> CharOf(PlaceOf(c)) == c
  {
  }

  // ---------------------------------------------------------------- three bytes and four characters

  function Place1(a: Byte, b: Byte): Sextet { (a % 4) * 16 + b / 16 }

  function Place2(b: Byte, c: Byte): Sextet { (b % 16) * 4 + c / 64 }

  function Byte0(p: Byte, q: Byte): Byte { (p * 4 + (q / 16) % 4) % 256 }

  function Byte1(q: Byte, r: Byte): Byte { ((q % 16) * 16 + (r / 4) % 16) % 256 }

  function Byte2(r: Byte, s: Byte): Byte { ((r % 4) * 64 + s) % 256 }

  /** The four places for three bytes, by masks and shifts. */
  function ToPlaces(a: Byte, b: Byte, c: Byte): (places: seq<Sextet>)
    ensures |places| == 4
  {
    [a / 4, Place1(a, b), Place2(b, c), c % 64]
  }

  /** The three bytes for four places, each cut to eight bits. */
  function FromPlaces(p: Byte, q: Byte, r: Byte, s: Byte): (bytes: seq<Byte>)
    ensures |bytes| == 3
  {
    [Byte0(p, q), Byte1(q, r), Byte2(r, s)]
  }

  /** Three bytes and their places denote the same number of 24 bits. */
  lemma SameNumber(a: Byte, b: Byte, c: Byte)
    ensures (a / 4) * 0x40000 + Place1(a, b) * 0x1000 + Place2(b, c) * 0x40 + c % 64 == a * 0x10000 + b * 0x100 + c
  {
  }

  /** Each byte comes back from its two places. */
  lemma BytesBack(a: Byte, b: Byte, c: Byte)
    ensures Byte0(a / 4, Place1(a, b)) == a
    ensures Byte1(Place1(a, b), Place2(b, c)) == b
    ensures Byte2(Place2(b, c), c % 64) == c
  {
    assert Place1(a, b) / 16 == a % 4 && Place1(a, b) % 16 == b / 16;
    assert Place2(b, c) / 4 == b % 16 && Place2(b, c) % 4 == c / 64;
  }

  function Chars(places: seq<Sextet>): (t: Text)
    ensures |t| == |places|
  {
    seq(|places|, i requires 0 <= i < |places| => CharOf(places[i]))
  }

  // ---------------------------------------------------------------- whole texts

  /** The padding for `n` bytes. */
  function Pads(n: nat): Text {
    if n % 3 == 1 then [PAD, PAD] else if n % 3 == 2 then [PAD] else []
  }

  /** The four characters for three bytes. */
  function Group(a: Byte, b: Byte, c: Byte): (t: Text)
    ensures |t| == 4
  {
    Chars(ToPlaces(a, b, c))
  }

  /** The encoded text without its padding. */
  function Body(bytes: Text): Text {
    if bytes == [] then []
    else if |bytes| == 1 then Group(bytes[0], 0, 0)[..2]
    else if |bytes| == 2 then Group(bytes[0], bytes[1], 0)[..3]
    else Group(bytes[0], bytes[1], bytes[2]) + Body(bytes[3..])
  }

  /** Groups of three bytes; one or two left over are padded. */
  function Encoded(bytes: Text): Text {
    Body(bytes) + Pads(|bytes|)
  }

  lemma {:induction false} BodyChars(bytes: Text)
    ensures forall i :: 0 <= i < |Body(bytes)| ==> IsBase64(Body(bytes)[i])
    ensures |Body(bytes)| == (4 * |bytes| + 2) / 3
    decreases |bytes|
  {
    hide Place1, Place2, IsBase64, Chars;
    if |bytes| == 1 {
      CharsAreBase64(ToPlaces(bytes[0], 0, 0));
    } else if |bytes| == 2 {
      CharsAreBase64(ToPlaces(bytes[0], bytes[1], 0));
    } else if |bytes| >= 3 {
      CharsAreBase64(ToPlaces(bytes[0], bytes[1], bytes[2]));
      BodyChars(bytes[3..]);
    }
  }

  /** Groups of four characters of the alphabet; two or three left over give one byte less. */
  function DecodedChars(t: Text): Text {
    if |t| <= 1 then []
    else if |t| == 2 then FromPlaces(PlaceOf(t[0]), PlaceOf(t[1]), 255, 255)[..1]
    else if |t| == 3 then FromPlaces(PlaceOf(t[0]), PlaceOf(t[1]), PlaceOf(t[2]), 255)[..2]
    else FromPlaces(PlaceOf(t[0]), PlaceOf(t[1]), PlaceOf(t[2]), PlaceOf(t[3])) + DecodedChars(t[4..])
  }

  /** The characters before the first one outside the alphabet. */
  function Leading(t: Text): Text {
    if t == [] || !IsBase64(t[0]) then [] else [t[0]] + Leading(t[1..])
  }

  function Decoded(t: Text): Text {
    DecodedChars(Leading(t))
  }

  lemma {:induction false} BodySplits(a: Text, b: Text)
    requires |a| % 3 == 0
    ensures Body(a + b) == Body(a) + Body(b)
    decreases |a|
  {
    hide Group;
    if a == [] {
      assert a + b == b;
    } else {
      BodySplits(a[3..], b);
      assert (a + b)[3..] == a[3..] + b;
    }
  }

  lemma {:induction false} DecodedSplits(a: Text, b: Text)
    requires |a| % 4 == 0
    ensures DecodedChars(a + b) == DecodedChars(a) + DecodedChars(b)
    decreases |a|
  {
    hide Byte0, Byte1, Byte2, PlaceOf;
    if a == [] {
      assert a + b == b;
    } else {
      assert forall i :: 0 <= i < 4 ==> (a + b)[i] == a[i];
      DecodedSplits(a[4..], b);
      assert (a + b)[4..] == a[4..] + b;
    }
  }

  lemma {:induction false} LeadingAll(a: Text, b: Text)
    requires (forall i :: 0 <= i < |a| ==> IsBase64(a[i])) && (b == [] || !IsBase64(b[0]))
    ensures Leading(a + b) == a
    decreases |a|
  {
    if a == [] {
      assert a + b == b;
    } else {
      LeadingAll(a[1..], b);
      assert (a + b)[1..] == a[1..] + b;
    }
  }

  lemma CharsAreBase64(places: seq<Sextet>)
    ensures forall i :: 0 <= i < |places| ==> IsBase64(Chars(places)[i]) && PlaceOf(Chars(places)[i]) == places[i]
  {
    forall i | 0 <= i < |places| ensures IsBase64(Chars(places)[i]) && PlaceOf(Chars(places)[i]) == places[i] {
      Places(places[i], 0);
    }
  }

  /** What follows the places of a byte does not reach it. */
  lemma {:induction false} TakesBack(bytes: Text)
    ensures DecodedChars(Body(bytes)) == bytes
    decreases |bytes|
  {
    hide Byte0, Byte1, Byte2, Place1, Place2, Chars, PlaceOf;
    if |bytes| == 1 {
      BytesBack(bytes[0], 0, 0);
      CharsAreBase64(ToPlaces(bytes[0], 0, 0));
      assert bytes == [bytes[0]];
    } else if |bytes| == 2 {
      BytesBack(bytes[0], bytes[1], 0);
      CharsAreBase64(ToPlaces(bytes[0], bytes[1], 0));
      var p := ToPlaces(bytes[0], bytes[1], 0);
      assert FromPlaces(p[0], p[1], p[2], 255)[..2] == [bytes[0], bytes[1]] == bytes;
    } else if |bytes| >= 3 {
      var group := Group(bytes[0], bytes[1], bytes[2]);
      BytesBack(bytes[0], bytes[1], bytes[2]);
      CharsAreBase64(ToPlaces(bytes[0], bytes[1], bytes[2]));
      TakesBack(bytes[3..]);
      assert (group + Body(bytes[3..]))[4..] == Body(bytes[3..]);
      assert bytes == [bytes[0], bytes[1], bytes[2]] + bytes[3..];
    }
  }

  /** Decoding inverts encoding, for every byte string. */
  lemma RoundTrip(bytes: Text)
    ensures Decoded(Encoded(bytes)) == bytes
  {
    hide DecodedChars;
    BodyChars(bytes);
    LeadingAll(Body(bytes), Pads(|bytes|));
    TakesBack(bytes);
  }

  /** The padding fills the text up to a multiple of four. */
  lemma PaddedLength(bytes: Text)
    ensures |Encoded(bytes)| == 4 * ((|bytes| + 2) / 3)
    ensures |Pads(|bytes|)| <= 2
  {
    BodyChars(bytes);
  }

  // ---------------------------------------------------------------- bit by bit

  /** Table 1 of RFC 4648. */
  const TABLE: Text := 
    Ascii("ABCDEFGHIJKLM") + Ascii("NOPQRSTUVWXYZ") + Ascii("abcdefghijklm") + Ascii("nopqrstuvwxyz") + Ascii("0123456789+/")

  lemma TableIs(x: Sextet)
    ensures |TABLE| == 64 && TABLE[x] == CharOf(x)
  {
    Rows();
    var a, b, c, d, e := Ascii("ABCDEFGHIJKLM"), Ascii("NOPQRSTUVWXYZ"), Ascii("abcdefghijklm"), Ascii("nopqrstuvwxyz"), Ascii("0123456789+/");
    hide Ascii;
    assert x < 13 ==> TABLE[x] == a[x];
    assert 13 <= x < 26 ==> TABLE[x] == b[x - 13];
    assert 26 <= x < 39 ==> TABLE[x] == c[x - 26];
    assert 39 <= x < 52 ==> TABLE[x] == d[x - 39];
    assert 52 <= x ==> TABLE[x] == e[x - 52];
  }

  lemma Rows()
    ensures var a, b, c, d, e := Ascii("ABCDEFGHIJKLM"), Ascii("NOPQRSTUVWXYZ"), Ascii("abcdefghijklm"), Ascii("nopqrstuvwxyz"), Ascii("0123456789+/");
      && |a| == |b| == |c| == |d| == 13 && |e| == 12
      && (forall i :: 0 <= i < 13 ==> a[i] == 'A' as int + i && b[i] == 'N' as int + i && c[i] == 'a' as int + i && d[i] == 'n' as int + i)
      && (forall i :: 0 <= i < 10 ==> e[i] == '0' as int + i) && e[10] == '+' as int && e[11] == '/' as int
  {
  }

  /** The bits of the bytes in a row, the highest of each byte first; zeros behind them. */
  function Bit(bytes: Text, i: nat): int {
    if i / 8 >= |bytes| then 0 else BitOf(bytes[i / 8], i % 8)
  }

  function BitOf(b: Byte, j: nat): int
    requires j < 8
  {
    var weight := if j == 0 then 128 else if j == 1 then 64 else if j == 2 then 32 else if j == 3 then 16
                  else if j == 4 then 8 else if j == 5 then 4 else if j == 6 then 2 else 1;
    (b / weight) % 2
  }

  /** The number of six bits from `i` on. */
  function SixBits(bytes: Text, i: nat): int {
    32 * Bit(bytes, i) + 16 * Bit(bytes, i + 1) + 8 * Bit(bytes, i + 2) + 4 * Bit(bytes, i + 3) + 2 * Bit(bytes, i + 4) + Bit(bytes, i + 5)
  }

  lemma ByteOfBits(b: Byte)
    ensures b / 4 == 32 * BitOf(b, 0) + 16 * BitOf(b, 1) + 8 * BitOf(b, 2) + 4 * BitOf(b, 3) + 2 * BitOf(b, 4) + BitOf(b, 5)
    ensures b % 4 == 2 * BitOf(b, 6) + BitOf(b, 7)
    ensures b / 16 == 8 * BitOf(b, 0) + 4 * BitOf(b, 1) + 2 * BitOf(b, 2) + BitOf(b, 3)
    ensures b % 16 == 8 * BitOf(b, 4) + 4 * BitOf(b, 5) + 2 * BitOf(b, 6) + BitOf(b, 7)
    ensures b / 64 == 2 * BitOf(b, 0) + BitOf(b, 1)
    ensures b % 64 == 32 * BitOf(b, 2) + 16 * BitOf(b, 3) + 8 * BitOf(b, 4) + 4 * BitOf(b, 5) + 2 * BitOf(b, 6) + BitOf(b, 7)
  {
    BitsAre(b);
    hide BitOf;
    var x := 8 * BitOf(b, 0) + 4 * BitOf(b, 1) + 2 * BitOf(b, 2) + BitOf(b, 3);
    var y := 8 * BitOf(b, 4) + 4 * BitOf(b, 5) + 2 * BitOf(b, 6) + BitOf(b, 7);
    assert b == 16 * x + y && 0 <= x < 16 && 0 <= y < 16;
    Divides(b, 16, x, y);
    Divides(b, 4, 4 * x + 2 * BitOf(b, 4) + BitOf(b, 5), 2 * BitOf(b, 6) + BitOf(b, 7));
    Divides(b, 64, 2 * BitOf(b, 0) + BitOf(b, 1), 32 * BitOf(b, 2) + 16 * BitOf(b, 3) + y);
  }

  /** A byte is the sum of its bits. */
  lemma BitsAre(b: Byte)
    ensures forall j: nat :: j < 8 ==> 0 <= BitOf(b, j) <= 1
    ensures b == 128 * BitOf(b, 0) + 64 * BitOf(b, 1) + 32 * BitOf(b, 2) + 16 * BitOf(b, 3) + 8 * BitOf(b, 4) + 4 * BitOf(b, 5) + 2 * BitOf(b, 6) + BitOf(b, 7)
  {
    HalvesAre(b);
    Half(b); Half(b / 2); Half(b / 4); Half(b / 8); Half(b / 16); Half(b / 32); Half(b / 64);
    assert b / 128 < 2;
    assert b / 128 == (b / 128) % 2;
  }

  lemma Half(n: nat)
    ensures n == 2 * (n / 2) + n % 2
  {
  }

  lemma HalvesAre(b: Byte)
    ensures b / 2 / 2 == b / 4 && b / 4 / 2 == b / 8 && b / 8 / 2 == b / 16 && b / 16 / 2 == b / 32 && b / 32 / 2 == b / 64 && b / 64 / 2 == b / 128
  {
  }

  /** The bytes of a group, and zeros for those that are not there. */
  function ByteAt(bytes: Text, i: nat): Byte {
    if i < |bytes| then bytes[i] else 0
  }

  lemma FirstGroup(bytes: Text)
    ensures ToPlaces(ByteAt(bytes, 0), ByteAt(bytes, 1), ByteAt(bytes, 2))
         == [SixBits(bytes, 0), SixBits(bytes, 6), SixBits(bytes, 12), SixBits(bytes, 18)]
  {
    hide SixBits, ByteAt, Place1, Place2;
    Six0(bytes);
    Six1(bytes);
    Six2(bytes);
    Six3(bytes);
  }

  lemma Six0(bytes: Text)
    ensures SixBits(bytes, 0) == ByteAt(bytes, 0) / 4
  {
    hide BitOf, Bit, ByteAt;
    BitsOfByte(bytes, 0);
    ByteOfBits(ByteAt(bytes, 0));
  }

  lemma Six1(bytes: Text)
    ensures SixBits(bytes, 6) == Place1(ByteAt(bytes, 0), ByteAt(bytes, 1))
  {
    hide BitOf, Bit, ByteAt;
    BitsOfByte(bytes, 0);
    BitsOfByte(bytes, 1);
    ByteOfBits(ByteAt(bytes, 0));
    ByteOfBits(ByteAt(bytes, 1));
  }

  lemma Six2(bytes: Text)
    ensures SixBits(bytes, 12) == Place2(ByteAt(bytes, 1), ByteAt(bytes, 2))
  {
    hide BitOf, Bit, ByteAt;
    BitsOfByte(bytes, 1);
    BitsOfByte(bytes, 2);
    ByteOfBits(ByteAt(bytes, 1));
    ByteOfBits(ByteAt(bytes, 2));
  }

  lemma Six3(bytes: Text)
    ensures SixBits(bytes, 18) == ByteAt(bytes, 2) % 64
  {
    hide BitOf, Bit, ByteAt;
    BitsOfByte(bytes, 2);
    ByteOfBits(ByteAt(bytes, 2));
  }

  /** The bits of one byte in the row. */
  lemma BitsOfByte(bytes: Text, m: nat)
    ensures var b, i := ByteAt(bytes, m), 8 * m;
      && Bit(bytes, i) == BitOf(b, 0) && Bit(bytes, i + 1) == BitOf(b, 1) && Bit(bytes, i + 2) == BitOf(b, 2) && Bit(bytes, i + 3) == BitOf(b, 3)
      && Bit(bytes, i + 4) == BitOf(b, 4) && Bit(bytes, i + 5) == BitOf(b, 5) && Bit(bytes, i + 6) == BitOf(b, 6) && Bit(bytes, i + 7) == BitOf(b, 7)
  {
    hide BitOf;
    OneBit(bytes, m, 0); OneBit(bytes, m, 1); OneBit(bytes, m, 2); OneBit(bytes, m, 3);
    OneBit(bytes, m, 4); OneBit(bytes, m, 5); OneBit(bytes, m, 6); OneBit(bytes, m, 7);
  }

  lemma OneBit(bytes: Text, m: nat, j: nat)
    requires j < 8
    ensures Bit(bytes, 8 * m + j) == BitOf(ByteAt(bytes, m), j)
  {
    Divides(8 * m + j, 8, m, j);
    ZeroBits(j);
  }

  lemma ZeroBits(j: nat)
    requires j < 8
    ensures BitOf(0, j) == 0
  {
  }

  lemma LaterBits(bytes: Text, i: nat)
    requires |bytes| >= 3
    ensures Bit(bytes, i + 24) == Bit(bytes[3..], i)
  {
    assert (i + 24) / 8 == i / 8 + 3 && (i + 24) % 8 == i % 8;
  }

  /** Each character stands for the next six bits, zeros behind the last byte. */
  lemma {:induction false} CharIs(bytes: Text, k: nat)
    requires k < |Body(bytes)|
    ensures 0 <= SixBits(bytes, 6 * k) < 64 && Body(bytes)[k] == TABLE[SixBits(bytes, 6 * k)]
    decreases |bytes|
  {
    hide Bit, CharOf, ToPlaces, SixBits;
    FirstGroup(bytes);
    var places := ToPlaces(ByteAt(bytes, 0), ByteAt(bytes, 1), ByteAt(bytes, 2));
    if k < 4 {
      assert Body(bytes)[k] == CharOf(places[k]);
      TableIs(places[k]);
    } else {
      LaterSix(bytes, k);
      CharIs(bytes[3..], k - 4);
    }
  }

  lemma LaterSix(bytes: Text, k: nat)
    requires |bytes| >= 3 && k >= 4
    ensures SixBits(bytes, 6 * k) == SixBits(bytes[3..], 6 * (k - 4))
  {
    hide Bit;
    var i := 6 * (k - 4);
    LaterBits(bytes, i); LaterBits(bytes, i + 1); LaterBits(bytes, i + 2); LaterBits(bytes, i + 3); LaterBits(bytes, i + 4); LaterBits(bytes, i + 5);
  }

  // ---------------------------------------------------------------- the codec

  method SplitBytes(three: array<Byte>, four: array<Sextet>)
    requires three.Length == 3 && four.Length == 4
    modifies four
    ensures four[..] == ToPlaces(three[0], three[1], three[2])
  {
    four[0] := three[0] / 4;
    four[1] := Place1(three[0], three[1]);
    four[2] := Place2(three[1], three[2]);
    four[3] := three[2] % 64;
  }

  method AppendChars(ret: Text, four: array<Sextet>, k: nat) returns (r: Text)
    requires four.Length == 4 && k <= 4
    ensures r == ret + Chars(four[..])[..k]
  {
    r := ret;
    for j := 0 to k
      invariant r == ret + Chars(four[..])[..j]
    {
      assert Chars(four[..])[..j + 1] == Chars(four[..])[..j] + [CharOf(four[j])];
      r := r + [CharOf(four[j])];
    }
  }

  method Encode(bytes: Text) returns (ret: Text)
    ensures ret == Encoded(bytes)
  {
    hide Body, Group, Pads;
    var three, four := new Byte[3], new Sextet[4];
    var i: nat, n: nat := 0, 0;
    ghost var g: nat := 0;
    ret := [];
    BodyNothing();
    while n < |bytes|
      invariant n <= |bytes| && n == 3 * g + i && i < 3 && three[..i] == bytes[n - i..n] && ret == Body(bytes[..n - i])
    {
      three[i] := bytes[n];
      OneMore(bytes, n, i, three[..i], three[..i + 1]);
      i, n := i + 1, n + 1;
      if i == 3 {
        SplitBytes(three, four);
        ret := AppendChars(ret, four, 4);
        g := g + 1;
        BodyGroup(bytes, n, three[..], g);
        GroupIs(three[0], three[1], three[2]);
        i := 0;
      }
    }
    if i > 0 {
      assert bytes[n - i..] == bytes[n - i..n];
      ret := EncodeTail(three, four, i, ret, bytes, n - i, g);
    } else {
      assert bytes[..n - i] == bytes;
      PadsOf(n, 0, g);
    }
  }

  lemma OneMore(bytes: Text, n: nat, i: nat, before: Text, after: Text)
    requires i <= n < |bytes| && before == bytes[n - i..n] && after == before + [bytes[n]]
    ensures after == bytes[n + 1 - (i + 1)..n + 1] && bytes[..n - i] == bytes[..n + 1 - (i + 1)]
  {
  }

  /** The bytes left over, `i` of them, and the padding. */
  method EncodeTail(three: array<Byte>, four: array<Sextet>, i: nat, done: Text, ghost bytes: Text, ghost n: nat, ghost g: nat) returns (ret: Text)
    requires three.Length == 3 && four.Length == 4 && 1 <= i <= 2 && n == 3 * g && |bytes| == n + i
    requires three[..i] == bytes[n..] && done == Body(bytes[..n])
    modifies three, four
    ensures ret == Encoded(bytes)
  {
    hide Body, Group, Pads;
    for j := i to 3
      invariant three[..i] == bytes[n..] && forall k :: i <= k < j ==> three[k] == 0
    {
      three[j] := 0;
    }
    SplitBytes(three, four);
    ret := AppendChars(done, four, i + 1);
    GroupIs(three[0], three[1], three[2]);
    BodyTail(bytes, n, three[..], g);
    PadsOf(n, i, g);
    ret := AppendPads(ret, i);
  }

  lemma PadsOf(n: nat, i: nat, g: nat)
    requires n == 3 * g && i < 3
    ensures Pads(n + i) == Pads(i) && (i == 0 ==> Pads(n) == [])
  {
    Divides(n + i, 3, g, i);
  }

  method AppendPads(done: Text, i: nat) returns (ret: Text)
    requires 1 <= i <= 2
    ensures ret == done + Pads(i)
  {
    ret := done;
    var k := i;
    while k < 3
      invariant i <= k <= 3 && ret == done + Pads(i)[..k - i]
    {
      assert Pads(i)[..k + 1 - i] == Pads(i)[..k - i] + [PAD];
      ret := ret + [PAD];
      k := k + 1;
    }
  }

  lemma GroupIs(a: Byte, b: Byte, c: Byte)
    ensures Group(a, b, c) == Chars(ToPlaces(a, b, c)) == Group(a, b, c)[..4]
  {
  }

  lemma BodyNothing()
    ensures Body([]) == []
  {
  }

  lemma BodyGroup(bytes: Text, n: nat, three: Text, g: nat)
    requires 3 <= n <= |bytes| && n == 3 * g && three == bytes[n - 3..n]
    ensures Body(bytes[..n]) == Body(bytes[..n - 3]) + Group(three[0], three[1], three[2])
  {
    hide Group;
    Divides(n - 3, 3, g - 1, 0);
    BodySplits(bytes[..n - 3], three);
    assert bytes[..n] == bytes[..n - 3] + three;
    assert three[3..] == [];
  }

  lemma BodyTail(bytes: Text, n: nat, three: Text, g: nat)
    requires n < |bytes| < n + 3 && n == 3 * g && |three| == 3 && three[..|bytes| - n] == bytes[n..]
    requires forall k :: |bytes| - n <= k < 3 ==> three[k] == 0
    ensures Body(bytes) == Body(bytes[..n]) + Group(three[0], three[1], three[2])[..|bytes| - n + 1]
  {
    hide Group, Body;
    var head, tail, k := bytes[..n], bytes[n..], |bytes| - n;
    assert bytes == head + tail && three[..k] == tail;
    Divides(n, 3, g, 0);
    BodySplits(head, tail);
    BodyRest(three, k);
  }

  lemma BodyRest(three: Text, k: nat)
    requires |three| == 3 && 1 <= k <= 2 && forall j :: k <= j < 3 ==> three[j] == 0
    ensures Body(three[..k]) == Group(three[0], three[1], three[2])[..k + 1]
  {
    hide Group;
  }

  method JoinPlaces(four: array<Byte>, three: array<Byte>)
    requires four.Length == 4 && three.Length == 3
    modifies three
    ensures three[..] == FromPlaces(four[0], four[1], four[2], four[3])
  {
    three[0] := Byte0(four[0], four[1]);
    three[1] := Byte1(four[1], four[2]);
    three[2] := Byte2(four[2], four[3]);
  }

  method FindPlaces(four: array<Byte>)
    requires four.Length == 4
    modifies four
    ensures forall j :: 0 <= j < 4 ==> four[j] == PlaceOf(old(four[j]))
  {
    for j := 0 to 4
      invariant forall k :: 0 <= k < j ==> four[k] == PlaceOf(old(four[k]))
      invariant forall k :: j <= k < 4 ==> four[k] == old(four[k])
    {
      four[j] := PlaceOf(four[j]);
    }
  }

  method DecodeFour(four: array<Byte>, three: array<Byte>)
    requires four.Length == 4 && three.Length == 3
    modifies four, three
    ensures three[..] == FourDecoded(old(four[..]))
  {
    hide PlaceOf, FromPlaces;
    FindPlaces(four);
    JoinPlaces(four, three);
  }

  function FourDecoded(group: Text): (r: Text)
    requires |group| == 4
    ensures |r| == 3
  {
    FromPlaces(PlaceOf(group[0]), PlaceOf(group[1]), PlaceOf(group[2]), PlaceOf(group[3]))
  }

  method Decode(t: Text) returns (ret: Text)
    ensures ret == Decoded(t)
  {
    hide DecodedChars, FourDecoded, IsBase64, Leading;
    var four, three := new Byte[4], new Byte[3];
    var i: nat, n: nat := 0, 0;
    ghost var g: nat := 0;
    ret := [];
    DecodedNothing(t);
    while n < |t| && t[n] != PAD && IsBase64(t[n])
      invariant n <= |t| && n == 4 * g + i && i < 4 && four[..i] == t[n - i..n] && ret == DecodedChars(t[..n - i])
      invariant Leading(t) == t[..n] + Leading(t[n..])
    {
      four[i] := t[n];
      OneMore(t, n, i, four[..i], four[..i + 1]);
      LeadingOne(t, n);
      i, n := i + 1, n + 1;
      if i == 4 {
        g := g + 1;
        DecodedGroup(t, n, four[..], g);
        DecodeFour(four, three);
        ret := ret + three[..];
        i := 0;
      }
    }
    LeadingEnds(t, n);
    if i > 0 {
      assert t[..n][n - i..] == t[n - i..n] && t[..n][..n - i] == t[..n - i];
      ret := DecodeTail(four, three, i, ret, t[..n], g);
    } else {
      assert t[..n - i] == t[..n];
    }
  }

  /** The characters left over, `i` of them. */
  method DecodeTail(four: array<Byte>, three: array<Byte>, i: nat, done: Text, ghost t: Text, ghost g: nat) returns (ret: Text)
    requires four.Length == 4 && three.Length == 3 && 1 <= i <= 3 && |t| == 4 * g + i
    requires four[..i] == t[|t| - i..] && done == DecodedChars(t[..|t| - i])
    modifies four, three
    ensures ret == DecodedChars(t)
  {
    hide DecodedChars, FourDecoded;
    for j := i to 4
      invariant four[..i] == t[|t| - i..] && forall k :: i <= k < j ==> four[k] == 0
    {
      four[j] := 0;
    }
    DecodedTail(t, |t| - i, four[..], g);
    DecodeFour(four, three);
    ret := done + three[..i - 1];
  }

  lemma DecodedNothing(t: Text)
    ensures DecodedChars([]) == [] && Leading(t) == t[..0] + Leading(t[0..])
  {
    assert t[0..] == t;
  }

  lemma LeadingOne(t: Text, n: nat)
    requires n < |t| && IsBase64(t[n])
    ensures t[..n] + Leading(t[n..]) == t[..n + 1] + Leading(t[n + 1..])
  {
    hide IsBase64;
    assert t[n..][1..] == t[n + 1..];
    assert t[..n + 1] == t[..n] + [t[n]];
  }

  lemma LeadingEnds(t: Text, n: nat)
    requires n <= |t| && (n == |t| || t[n] == PAD || !IsBase64(t[n]))
    ensures t[..n] + Leading(t[n..]) == t[..n]
  {
  }

  lemma DecodedGroup(t: Text, n: nat, group: Text, g: nat)
    requires 4 <= n <= |t| && n == 4 * g && group == t[n - 4..n]
    ensures DecodedChars(t[..n]) == DecodedChars(t[..n - 4]) + FourDecoded(group)
  {
    hide Byte0, Byte1, Byte2, PlaceOf;
    Divides(n - 4, 4, g - 1, 0);
    DecodedSplits(t[..n - 4], group);
    assert t[..n] == t[..n - 4] + group;
    assert group[4..] == [];
  }

  lemma DecodedTail(t: Text, n: nat, group: Text, g: nat)
    requires n < |t| < n + 4 && n == 4 * g && |group| == 4 && group[..|t| - n] == t[n..]
    requires forall k :: |t| - n <= k < 4 ==> group[k] == 0
    ensures DecodedChars(t) == DecodedChars(t[..n]) + FourDecoded(group)[..|t| - n - 1]
  {
    hide DecodedChars, FourDecoded;
    var head, tail, k := t[..n], t[n..], |t| - n;
    assert t == head + tail && group[..k] == tail && |head| == n;
    Divides(n, 4, g, 0);
    DecodedSplits(head, tail);
    DecodedRest(group, k);
  }

  lemma DecodedRest(group: Text, k: nat)
    requires |group| == 4 && 1 <= k <= 3 && forall j :: k <= j < 4 ==> group[j] == 0
    ensures DecodedChars(group[..k]) == FourDecoded(group)[..k - 1]
  {
    assert PlaceOf(0) == 255;
    hide FromPlaces, PlaceOf;
  }
}
