/** JSON pointers as text: the plain form and the URI fragment form, read and written. */
module PointerText {
  import opened Options
  import opened Arith
  import opened Bytes
  import opened Numerals
  import opened Itoa
  import Utf8
  import opened JsonLexer
  import opened JsonValue
  import opened PointerTree

  /** Bytes that a URI fragment may not hold as they are. */
  predicate NeedPercentEncode(c: Byte) {
    !(IsDigit(c) || 'A' as int <= c <= 'Z' as int || 'a' as int <= c <= 'z' as int
      || c == '-' as int || c == '.' as int || c == '_' as int || c == '~' as int)
  }

  // ---------------------------------------------------------------- reading

  /** A percent sign and two hexadecimal digits. */
  function Triplet(s: Text, i: nat): (r: Option<Byte>)
    ensures r.Some? ==> i + 3 <= |s|
  {
    if i + 3 > |s| || s[i] != '%' as int then None
    else match (HexDigit(s[i + 1]), HexDigit(s[i + 2]))
      case (Some(h), Some(l)) => Some(h * 16 + l)
      case _ => None
  }

  /** The bytes of the triplets from `i` on, `n` of them at most. */
  function Triplets(s: Text, i: nat, n: nat): (ds: Text)
    ensures |ds| <= n && i <= |s| ==> i + 3 * |ds| <= |s|
    ensures |ds| <= n
    decreases n
  {
    if n == 0 then []
    else match Triplet(s, i)
      case None => []
      case Some(b) => [b] + Triplets(s, i + 3, n - 1)
  }

  /** A character in percent encoding: its bytes, if they are a UTF-8 character. */
  function PercentChar(s: Text, i: nat): (r: Option<Text>)
    ensures r.Some? ==> |r.value| > 0 && (i <= |s| ==> i + 3 * |r.value| <= |s|)
  {
    var ds := Triplets(s, i, 4);
    if ds == [] then None
    else
      var k := Utf8.LeadLength(ds[0]);
      if 0 < k <= |ds| && Utf8.Utf8Char(ds[..k]) then Some(ds[..k]) else None
  }

  /** What follows a tilde: 0 stands for a tilde, 1 for a slash. */
  function Unescape(s: Text, i: nat): (r: Option<Byte>)
    ensures r.Some? ==> i < |s|
  {
    if i < |s| && s[i] == '0' as int then Some('~' as int)
    else if i < |s| && s[i] == '1' as int then Some('/' as int)
    else None
  }

  /** One step in a name: the bytes it adds, and the position after it. */
  function StepAt(s: Text, i: nat, uri: bool): (r: Option<(Text, nat)>)
    requires i < |s|
    ensures r.Some? ==> i < r.value.1 <= |s|
  {
    if uri && s[i] == '%' as int then
      match PercentChar(s, i)
      case None => None
      case Some(ds) => if |ds| == 1 then Plain(s, ds[0], i + 3) else Some((ds, i + 3 * |ds|))
    else if uri && NeedPercentEncode(s[i]) then None
    else Plain(s, s[i], i + 1)
  }

  /** A byte of a name, which is an escape if it is a tilde; the rest starts at `j`. */
  function Plain(s: Text, c: Byte, j: nat): (r: Option<(Text, nat)>)
    ensures r.Some? ==> j <= r.value.1 && (j <= |s| ==> r.value.1 <= |s|)
  {
    if c != '~' as int then Some(([c], j))
    else match Unescape(s, j)
      case None => None
      case Some(d) => Some(([d], j + 1))
  }

  /** The name from `i` to the next slash or the end. */
  function NameAt(s: Text, i: nat, uri: bool): (r: Option<(Text, nat)>)
    ensures r.Some? ==> i <= r.value.1 && (i <= |s| ==> r.value.1 <= |s|)
    decreases |s| - i
  {
    if i >= |s| || s[i] == '/' as int then Some(([], i))
    else match StepAt(s, i, uri)
      case None => None
      case Some((t, j)) => Prefixed(t, NameAt(s, j, uri))
  }

  function NamesAt(s: Text, i: nat, uri: bool): Option<seq<Text>>
    decreases |s| - i
  {
    if i >= |s| then Some([])
    else if s[i] != '/' as int then None
    else match NameAt(s, i + 1, uri)
      case None => None
      case Some((name, j)) =>
        match NamesAt(s, j, uri)
        case None => None
        case Some(names) => Some([name] + names)
  }

  predicate IsFragment(s: Text) {
    s != [] && s[0] == '#' as int
  }

  /** The names of a pointer in either form. */
  function PointerNames(s: Text): Option<seq<Text>> {
    if IsFragment(s) then NamesAt(s, 1, true) else NamesAt(s, 0, false)
  }

  // ---------------------------------------------------------------- writing

  function EscapeName(name: Text): Text {
    if name == [] then []
    else (if name[0] == '~' as int then ['~' as int, '0' as int]
          else if name[0] == '/' as int then ['~' as int, '1' as int]
          else [name[0]]) + EscapeName(name[1..])
  }

  function PlainPointer(names: seq<Text>): Text {
    if names == [] then [] else ['/' as int] + EscapeName(names[0]) + PlainPointer(names[1..])
  }

  function Percent(c: Byte): Text {
    ['%' as int, HexUpper(c / 16), HexUpper(c % 16)]
  }

  function PercentAll(t: Text): Text {
    if t == [] then [] else Percent(t[0]) + PercentAll(t[1..])
  }

  /** The number of bytes of the UTF-8 character that a name starts with; 0 if it does not
      start with one. */
  function CharLength(name: Text): (k: nat)
    requires name != []
    ensures k <= |name|
  {
    var k := Utf8.LeadLength(name[0]);
    if 0 < k <= |name| && Utf8.Utf8Char(name[..k]) then k else 0
  }

  /** The text of the first character of a name in a URI fragment, and its length in the name;
      nothing if it is not UTF-8. */
  function Piece(name: Text): (r: Option<(Text, nat)>)
    requires name != []
    ensures r.Some? ==> |r.value.0| > 0 && 0 < r.value.1 <= |name|
  {
    var c := name[0];
    if c == '~' as int then Some((['~' as int, '0' as int], 1))
    else if c == '/' as int then Some((['~' as int, '1' as int], 1))
    else if !NeedPercentEncode(c) then Some(([c], 1))
    else
      var k := CharLength(name);
      if k == 0 then None
      else
        assert name[..k] != [];
        Some((PercentAll(name[..k]), k))
  }

  /** A name in a URI fragment; only UTF-8 can be written. */
  function FragmentName(name: Text): Option<Text>
    decreases |name|
  {
    if name == [] then Some([])
    else match Piece(name)
      case None => None
      case Some((t, k)) => Before(t, FragmentName(name[k..]))
  }

  function Before(t: Text, r: Option<Text>): Option<Text> {
    match r
    case None => None
    case Some(u) => Some(t + u)
  }

  function FragmentNames(names: seq<Text>): Option<Text> {
    if names == [] then Some([])
    else match FragmentName(names[0])
      case None => None
      case Some(t) => Before(['/' as int] + t, FragmentNames(names[1..]))
  }

  function FragmentPointer(names: seq<Text>): Option<Text> {
    Before(['#' as int], FragmentNames(names))
  }

  // ---------------------------------------------------------------- round trips

  /** Where a name ends: at a slash or at the end of the text. */
  predicate NameEnds(s: Text, i: nat) {
    i == |s| || (i < |s| && s[i] == '/' as int)
  }

  lemma {:induction false} ReadEscaped(s: Text, i: nat, name: Text)
    requires HasAt(s, i, EscapeName(name)) && NameEnds(s, i + |EscapeName(name)|)
    ensures NameAt(s, i, false) == Some((name, i + |EscapeName(name)|))
    decreases |name|
  {
    if name != [] {
      var rest := EscapeName(name[1..]);
      var first := if name[0] == '~' as int then ['~' as int, '0' as int]
                   else if name[0] == '/' as int then ['~' as int, '1' as int]
                   else [name[0]];
      HasAtSplit(s, i, first, rest);
      if |first| == 2 { assert s[i..i + 2][1] == s[i + 1]; }
      assert StepAt(s, i, false) == Some(([name[0]], i + |first|));
      hide StepAt, Plain;
      ReadEscaped(s, i + |first|, name[1..]);
      assert name == [name[0]] + name[1..];
    }
  }

  lemma PlainSlash(s: Text, j: nat, names: seq<Text>)
    requires HasAt(s, j, PlainPointer(names)) && j + |PlainPointer(names)| == |s|
    ensures NameEnds(s, j)
  {
    hide EscapeName;
    if names != [] { assert s[j..j + |PlainPointer(names)|][0] == '/' as int; }
  }

  lemma {:induction false} ReadPlain(s: Text, i: nat, names: seq<Text>)
    requires HasAt(s, i, PlainPointer(names)) && i + |PlainPointer(names)| == |s|
    ensures NamesAt(s, i, false) == Some(names)
    decreases |names|
  {
    hide EscapeName, HasAt, NameAt;
    if names != [] {
      var t, rest := EscapeName(names[0]), PlainPointer(names[1..]);
      assert PlainPointer(names) == ['/' as int] + (t + rest);
      HasAtSplit(s, i, ['/' as int], t + rest);
      HasAtSplit(s, i + 1, t, rest);
      PlainSlash(s, i + 1 + |t|, names[1..]);
      ReadEscaped(s, i + 1, names[0]);
      ReadPlain(s, i + 1 + |t|, names[1..]);
      assert names == [names[0]] + names[1..];
    }
  }

  /** The plain form of any names, whatever bytes they hold, reads back as those names. */
  lemma PlainRoundTrip(names: seq<Text>)
    ensures PointerNames(PlainPointer(names)) == Some(names)
  {
    hide NamesAt, EscapeName;
    var s := PlainPointer(names);
    assert s[0..|s|] == s;
    PlainSlash(s, 0, names);
    ReadPlain(s, 0, names);
  }

  lemma ReadPercent(s: Text, i: nat, c: Byte)
    requires HasAt(s, i, Percent(c))
    ensures Triplet(s, i) == Some(c)
  {
    var w := s[i..i + 3];
    assert s[i] == w[0] && s[i + 1] == w[1] && s[i + 2] == w[2];
    HexReads(c / 16);
    HexReads(c % 16);
  }

  lemma HexReads(d: nat)
    requires d < 16
    ensures HexDigit(HexUpper(d)) == Some(d)
  {
  }

  lemma {:induction false} ReadTriplets(s: Text, i: nat, ds: Text, n: nat)
    requires HasAt(s, i, PercentAll(ds)) && |ds| <= n
    ensures |ds| <= |Triplets(s, i, n)| && Triplets(s, i, n)[..|ds|] == ds
    ensures |PercentAll(ds)| == 3 * |ds|
    decreases |ds|
  {
    if ds != [] {
      HasAtSplit(s, i, Percent(ds[0]), PercentAll(ds[1..]));
      ReadPercent(s, i, ds[0]);
      ReadTriplets(s, i + 3, ds[1..], n - 1);
      assert Triplets(s, i, n) == [ds[0]] + Triplets(s, i + 3, n - 1);
      assert ds == [ds[0]] + ds[1..];
    }
  }

  /** A UTF-8 character reads back from its triplets. */
  lemma ReadChar(s: Text, i: nat, ch: Text)
    requires Utf8.Utf8Char(ch) && HasAt(s, i, PercentAll(ch))
    ensures PercentChar(s, i) == Some(ch) && |PercentAll(ch)| == 3 * |ch|
  {
    Utf8.LengthOf(ch);
    ReadTriplets(s, i, ch, 4);
    var ds := Triplets(s, i, 4);
    assert ds[0] == ds[..|ch|][0] == ch[0];
  }

  /** What was written for the first character of a name reads back in one step. */
  lemma ReadPiece(s: Text, i: nat, name: Text, first: Text, k: nat)
    requires name != [] && Piece(name) == Some((first, k)) && HasAt(s, i, first)
    ensures i < |s| && s[i] != '/' as int && StepAt(s, i, true) == Some((name[..k], i + |first|))
  {
    var c := name[0];
    assert s[i..i + |first|][0] == s[i];
    if c == '~' as int || c == '/' as int {
      assert s[i..i + 2][1] == s[i + 1];
      assert name[..1] == [c];
    } else if NeedPercentEncode(c) {
      ReadChar(s, i, name[..k]);
      assert PercentAll(name[..k])[0] == '%' as int;
      if k == 1 { assert name[..1] == [c]; }
    } else {
      assert name[..1] == [c];
    }
  }

  lemma {:induction false} ReadFragmentName(s: Text, i: nat, name: Text)
    requires FragmentName(name).Some? && HasAt(s, i, FragmentName(name).value)
    requires NameEnds(s, i + |FragmentName(name).value|)
    ensures NameAt(s, i, true) == Some((name, i + |FragmentName(name).value|))
    decreases |name|
  {
    hide Piece, StepAt, HasAt, NameEnds;
    if name != [] {
      var first: Text, k: nat := Piece(name).value.0, Piece(name).value.1;
      var rest := FragmentName(name[k..]).value;
      HasAtSplit(s, i, first, rest);
      ReadPiece(s, i, name, first, k);
      ReadFragmentName(s, i + |first|, name[k..]);
      assert name == name[..k] + name[k..];
    } else {
      EndsHere(s, i);
    }
  }

  lemma EndsHere(s: Text, i: nat)
    requires NameEnds(s, i)
    ensures i >= |s| || s[i] == '/' as int
  {
  }

  lemma {:induction false} ReadFragmentNames(s: Text, i: nat, names: seq<Text>)
    requires FragmentNames(names).Some? && HasAt(s, i, FragmentNames(names).value) && i + |FragmentNames(names).value| == |s|
    ensures NamesAt(s, i, true) == Some(names)
    decreases |names|
  {
    hide FragmentName, HasAt, NameAt;
    if names != [] {
      var t, rest := FragmentName(names[0]).value, FragmentNames(names[1..]).value;
      assert FragmentNames(names).value == ['/' as int] + (t + rest);
      HasAtSplit(s, i, ['/' as int], t + rest);
      HasAtSplit(s, i + 1, t, rest);
      SlashFollows(s, i + 1 + |t|, rest, names[1..]);
      ReadFragmentName(s, i + 1, names[0]);
      ReadFragmentNames(s, i + 1 + |t|, names[1..]);
      assert names == [names[0]] + names[1..];
    }
  }

  /** The names that follow start with a slash. */
  lemma SlashFollows(s: Text, j: nat, rest: Text, names: seq<Text>)
    requires FragmentNames(names) == Some(rest) && HasAt(s, j, rest) && j + |rest| == |s|
    ensures NameEnds(s, j)
  {
    hide FragmentName;
    if names != [] { assert s[j..j + |rest|][0] == rest[0] == '/' as int; }
  }

  /** Whether a name can be written in a URI fragment: exactly if it is UTF-8. */
  lemma {:induction false} FragmentNameIsUtf8(name: Text)
    ensures FragmentName(name).Some? <==> Utf8.Utf8Text(name)
    decreases |name|
  {
    if name != [] {
      assert name[0..] == name;
      FirstChar(name);
      if Piece(name).Some? {
        var k: nat := Piece(name).value.1;
        assert name[0..k] == name[..k];
        Utf8.TextStep(name, 0, k);
        FragmentNameIsUtf8(name[k..]);
      } else if Utf8.Utf8Text(name) {
        Utf8.TextStarts(name, 0);
      }
    }
  }

  /** A name has a first piece exactly if it starts with a UTF-8 character, which is that
      piece. */
  lemma FirstChar(name: Text)
    requires name != []
    ensures Piece(name).Some? ==> Utf8.Utf8Char(name[..Piece(name).value.1])
    ensures Piece(name).None? ==> !Utf8.StartsChar(name, 0)
  {
    Utf8.CharAt(name, 0);
    var n := Utf8.LeadLength(name[0]);
    if 0 < n <= |name| { assert name[0..0 + n] == name[..n]; }
  }

  /** The URI fragment form of names reads back as those names; it exists exactly if all of
      them are UTF-8. */
  lemma FragmentRoundTrip(names: seq<Text>)
    ensures FragmentPointer(names).Some? ==> PointerNames(FragmentPointer(names).value) == Some(names)
    ensures FragmentPointer(names).Some? <==> forall k :: 0 <= k < |names| ==> Utf8.Utf8Text(names[k])
  {
    FragmentNamesUtf8(names);
    if FragmentPointer(names).Some? {
      var s, t := FragmentPointer(names).value, FragmentNames(names).value;
      assert s[1..1 + |t|] == t;
      ReadFragmentNames(s, 1, names);
    }
  }

  lemma {:induction false} FragmentNamesUtf8(names: seq<Text>)
    ensures FragmentNames(names).Some? <==> forall k :: 0 <= k < |names| ==> Utf8.Utf8Text(names[k])
    decreases |names|
  {
    if names != [] {
      FragmentNameIsUtf8(names[0]);
      FragmentNamesUtf8(names[1..]);
      assert forall k :: 1 <= k < |names| ==> names[k] == names[1..][k - 1];
      assert forall k :: 0 <= k < |names| - 1 ==> names[1..][k] == names[k + 1];
    }
  }

  // ---------------------------------------------------------------- indices

  /** The 32-bit number of a digit string, or nothing if a step comes out smaller than the
      number it started from. */
  function IndexFrom(name: Text, j: nat, n: nat): Option<nat>
    requires AllDigits(name) && j <= |name|
    decreases |name| - j
  {
    if j == |name| then Some(n)
    else
      var m := (n * 10 + (name[j] - '0' as int)) % 0x1_0000_0000;
      if m < n then None else IndexFrom(name, j + 1, m)
  }

  /** The index of a name: digits without a leading zero, as far as they fit. */
  function IndexOf(name: Text): nat {
    if name == [] || !AllDigits(name) || (|name| > 1 && name[0] == '0' as int) then INVALID_INDEX
    else match IndexFrom(name, 0, 0)
      case None => INVALID_INDEX
      case Some(n) => n
  }

  lemma {:induction false} IndexPrefix(name: Text, j: nat)
    requires AllDigits(name) && j <= |name| && Decimal(name) <= 0xFFFF_FFFF
    ensures AllDigits(name[..j]) && Decimal(name[..j]) <= Decimal(name)
    ensures IndexFrom(name, j, Decimal(name[..j])) == Some(Decimal(name))
    decreases |name| - j
  {
    hide Decimal, IndexFrom;
    assert name[0..|name|] == name && name[0..j] == name[..j];
    DecimalGrows(name, 0, j, |name|);
    if j == |name| {
      assert name[..j] == name;
      IndexEnd(name, Decimal(name));
    } else {
      DecimalPush(name, 0, j);
      assert name[0..j + 1] == name[..j + 1];
      IndexPrefix(name, j + 1);
      IndexStep(name, j, Decimal(name[..j]), Decimal(name[..j + 1]));
    }
  }

  /** A canonical numeral below 2^32 gets its number; 2^32 - 1 is the mark of no index. */
  lemma IndexOfNumeral(n: nat)
    requires n <= 0xFFFF_FFFF
    ensures IndexOf(DecimalText(n)) == n
  {
    var t := DecimalText(n);
    DecimalOfText(n);
    assert t[..0] == [];
    IndexPrefix(t, 0);
  }

  // ---------------------------------------------------------------- the overflow test

  const WRAP := 0x1_0000_0000

  /** A digit string without a leading zero. */
  predicate Canonical(name: Text) {
    name != [] && AllDigits(name) && (|name| > 1 ==> name[0] != '0' as int)
  }

  /** The number of the first `j` digits, cut to 32 bits. */
  function CutTo(name: Text, j: nat): nat
    requires AllDigits(name) && j <= |name|
  {
    Decimal(name[..j]) % WRAP
  }

  /** From digit `j` on, no cut number is smaller than the one before it. */
  ghost predicate NeverSmaller(name: Text, j: nat)
    requires AllDigits(name)
  {
    forall i :: j <= i < |name| ==> CutTo(name, i) <= CutTo(name, i + 1)
  }

  lemma CutStep(name: Text, j: nat)
    requires AllDigits(name) && j < |name|
    ensures CutTo(name, j + 1) == (CutTo(name, j) * 10 + (name[j] - '0' as int)) % WRAP
  {
    assert name[..j + 1][..j] == name[..j];
    TimesTen(Decimal(name[..j]), name[j] - '0' as int);
  }

  lemma TimesTen(v: nat, d: nat)
    ensures (10 * v + d) % WRAP == ((v % WRAP) * 10 + d) % WRAP
  {
    var q, r := v / WRAP, v % WRAP;
    var q2, r2 := (r * 10 + d) / WRAP, (r * 10 + d) % WRAP;
    Divides(10 * v + d, WRAP, 10 * q + q2, r2);
  }

  /** What the loop computes: the number cut to 32 bits if no step comes out smaller, else nothing. */
  lemma {:induction false} IndexIsCut(name: Text, j: nat)
    requires AllDigits(name) && j <= |name|
    ensures IndexFrom(name, j, CutTo(name, j)) == if NeverSmaller(name, j) then Some(CutTo(name, |name|)) else None
    decreases |name| - j
  {
    hide CutTo;
    if j < |name| {
      CutStep(name, j);
      IndexIsCut(name, j + 1);
      assert NeverSmaller(name, j) <==> CutTo(name, j) <= CutTo(name, j + 1) && NeverSmaller(name, j + 1);
    }
  }

  /** Exactly which index a name gets, whatever its length. */
  lemma IndexExactly(name: Text)
    ensures IndexOf(name) ==
      if Canonical(name) && NeverSmaller(name, 0) then Decimal(name) % WRAP else INVALID_INDEX
  {
    if Canonical(name) {
      IndexIsCut(name, 0);
      assert name[..0] == [] && name[..|name|] == name;
    }
  }

  /** A digit string gets its own number as index exactly when it is canonical and the number
      fits; the greatest number is also the mark of no index. */
  lemma IndexOfDigits(name: Text)
    requires AllDigits(name)
    ensures IndexOf(name) == Decimal(name) <==>
      Decimal(name) <= INVALID_INDEX && (Canonical(name) || Decimal(name) == INVALID_INDEX)
  {
    IndexExactly(name);
    if Canonical(name) && Decimal(name) <= INVALID_INDEX {
      assert name[..0] == [];
      IndexPrefix(name, 0);
    }
  }

  /** Ten digits: the test catches a number above 32 bits exactly when nine times the first nine
      digits, plus the last, stay below the part cut off. */
  lemma TenDigits(name: Text)
    requires Canonical(name) && |name| == 10
    ensures Decimal(name) == 10 * Decimal(name[..9]) + (name[9] - '0' as int)
    ensures IndexFrom(name, 0, 0).None? <==>
      9 * Decimal(name[..9]) + (name[9] - '0' as int) < Decimal(name) / WRAP * WRAP
    ensures IndexFrom(name, 0, 0).Some? ==> IndexOf(name) == Decimal(name) % WRAP
  {
    hide Decimal, IndexFrom;
    IndexIsCut(name, 0);
    FirstNine(name);
    assert name[..10] == name && name[..0] == [];
    DecimalNothing();
    assert NeverSmaller(name, 0) <==> CutTo(name, 9) <= CutTo(name, 10);
  }

  lemma DecimalNothing()
    ensures Decimal([]) == 0
  {
  }

  /** Nine digits do not leave 32 bits, and none of their steps comes out smaller. */
  lemma FirstNine(name: Text)
    requires AllDigits(name) && |name| == 10
    ensures forall i :: 0 <= i < 9 ==> CutTo(name, i) <= CutTo(name, i + 1)
    ensures CutTo(name, 9) == Decimal(name[..9])
    ensures Decimal(name) == 10 * Decimal(name[..9]) + (name[9] - '0' as int)
  {
    forall i | 0 <= i < 9 ensures CutTo(name, i) <= CutTo(name, i + 1) {
      FewDigits(name, i + 1);
      assert name[..i + 1][..i] == name[..i];
    }
    FewDigits(name, 9);
  }

  lemma FewDigits(name: Text, j: nat)
    requires AllDigits(name) && j <= |name| && j <= 9
    ensures CutTo(name, j) == Decimal(name[..j]) < 1000000000
  {
    PowersTo9();
    hide Pow10;
    DecimalBound(name[..j]);
    Pow10Grows(j, 9);
  }

  /** The text 6000000000. */
  const SIX_BILLION: Text := [54, 48, 48, 48, 48, 48, 48, 48, 48, 48]

  /** A number that the test misses: 6000000000 becomes 1705032704. */
  lemma OverflowMissed()
    ensures Decimal(SIX_BILLION) == 6000000000 && IndexOf(SIX_BILLION) == 1705032704
  {
    SixAndZeros(SIX_BILLION, 9);
    PowersTo9();
    hide Decimal, Pow10, IndexFrom, IndexOf;
    TenDigits(SIX_BILLION);
  }

  lemma PowersTo9()
    ensures Pow10(8) == 100000000 && Pow10(9) == 1000000000
  {
    assert Pow10(3) == 1000;
    assert Pow10(6) == 1000 * Pow10(3);
    assert Pow10(8) == 100 * Pow10(6);
  }

  lemma IndexStep(name: Text, j: nat, n: nat, m: nat)
    requires AllDigits(name) && j < |name| && m == (n * 10 + (name[j] - '0' as int)) % 0x1_0000_0000 && n <= m
    ensures IndexFrom(name, j, n) == IndexFrom(name, j + 1, m)
  {
  }

  lemma IndexEnd(name: Text, n: nat)
    requires AllDigits(name)
    ensures IndexFrom(name, |name|, n) == Some(n)
  {
  }

  lemma {:induction false} SixAndZeros(t: Text, k: nat)
    requires AllDigits(t) && 0 < k <= |t| && t[0] == '6' as int && forall j :: 0 < j < k ==> t[j] == '0' as int
    ensures Decimal(t[..k]) == 6 * Pow10(k - 1)
    decreases k
  {
    assert t[..k][..k - 1] == t[..k - 1];
    if k > 1 { SixAndZeros(t, k - 1); } else { assert t[..0] == []; }
  }
}
