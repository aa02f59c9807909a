/** The JSON pointer as the code reads and writes it, over one buffer for all names. */
module PointerParser {
  import opened Options
  import opened Bytes
  import opened Numerals
  import opened Itoa
  import Utf8
  import opened JsonLexer
  import opened JsonValue
  import opened PointerTree
  import opened PointerText

  /** A token: the place of its name in the buffer, and its index. */
  datatype Entry = Entry(start: nat, length: nat, index: nat)

  /** The buffer holds the names of the entries, each followed by a zero, in order. */
  ghost predicate Holds(written: Text, es: seq<Entry>, names: seq<Text>) {
    |es| == |names|
    && forall k :: 0 <= k < |es| ==> HoldsAt(written, es[k], names[k])
  }

  ghost predicate HoldsAt(written: Text, e: Entry, name: Text) {
    e.start + e.length < |written| && written[e.start..e.start + e.length] == name && written[e.start + e.length] == 0
    && e.index == IndexOf(name)
  }

  /** How many tokens a source has at most. */
  function Slashes(s: Text): nat {
    if s == [] then 0 else Slashes(s[..|s| - 1]) + if s[|s| - 1] == '/' as int then 1 else 0
  }

  lemma SlashesPrefix(s: Text, i: nat)
    requires i < |s|
    ensures Slashes(s[..i + 1]) == Slashes(s[..i]) + if s[i] == '/' as int then 1 else 0
  {
    assert s[..i + 1][..i] == s[..i];
  }

  lemma {:induction false} SlashesGrow(s: Text, i: nat, j: nat)
    requires i <= j <= |s|
    ensures Slashes(s[..i]) <= Slashes(s[..j])
    decreases j
  {
    if i < j {
      SlashesPrefix(s, j - 1);
      SlashesGrow(s, i, j - 1);
    }
  }

  lemma HoldsMore(written: Text, more: Text, es: seq<Entry>, names: seq<Text>)
    requires Holds(written, es, names)
    ensures Holds(written + more, es, names)
  {
    forall k | 0 <= k < |es| ensures HoldsAt(written + more, es[k], names[k]) {
      assert HoldsAt(written, es[k], names[k]);
      assert (written + more)[es[k].start..es[k].start + es[k].length] == written[es[k].start..es[k].start + es[k].length];
    }
  }

  class Pointer {
    const source: Text
    const nameBuffer: Buffer
    var tokens: seq<Entry>
    var tokenCount: nat
    var error: bool

    /** One allocation for as many tokens as the source has slashes and as many bytes as it is
        long. */
    constructor (source: Text)
      ensures this.source == source && tokens == [] && !error && tokenCount == Slashes(source)
      ensures fresh(nameBuffer) && fresh(nameBuffer.chars) && nameBuffer.Valid() && nameBuffer.Written() == []
      ensures nameBuffer.chars.Length == |source|
    {
      this.source := source;
      var count := 0;
      assert source[..0] == [];
      for i := 0 to |source|
        invariant count == Slashes(source[..i])
      {
        SlashesPrefix(source, i);
        if source[i] == '/' as int { count := count + 1; }
      }
      assert source[..|source|] == source;
      tokenCount := count;
      tokens, error := [], false;
      nameBuffer := new Buffer(|source|);
    }

    ghost predicate Valid()
      reads this, nameBuffer
    {
      nameBuffer.Valid() && nameBuffer.chars.Length == |source| && |tokens| <= tokenCount == Slashes(source)
    }

    /** The percent-encoded character at `i`, decoded from the triplets that follow. */
    method DecodePercent(i: nat) returns (ch: Text, ok: bool)
      requires i < |source|
      ensures match PercentChar(source, i) case None => !ok case Some(ds) => ok && ch == ds
    {
      ch := [];
      var ds := Triplets(source, i, 4);
      if ds == [] { return ch, false; }
      var input := new ByteStream(ds);
      assert input.source == ds && input.pos == 0;
      var out, valid := Utf8.Validate(input, []);
      PercentIs(source, i);
      if valid { PercentTaken(source, i, input.pos); }
      return out, valid;
    }

    /** Writes bytes into the name buffer. */
    method PutAll(t: Text)
      requires nameBuffer.Valid() && nameBuffer.p + |t| <= nameBuffer.chars.Length
      modifies nameBuffer, nameBuffer.chars
      ensures nameBuffer.Valid() && nameBuffer.Written() == old(nameBuffer.Written()) + t && nameBuffer.p == old(nameBuffer.p) + |t|
    {
      for k := 0 to |t|
        invariant nameBuffer.Valid() && nameBuffer.p == old(nameBuffer.p) + k
        invariant nameBuffer.Written() == old(nameBuffer.Written()) + t[..k]
      {
        nameBuffer.Put(t[k]);
        assert old(nameBuffer.Written()) + t[..k] + [t[k]] == old(nameBuffer.Written()) + t[..k + 1];
      }
      assert t[..|t|] == t;
    }

    /** One step in a name: a byte, an escape, or a percent-encoded character. */
    method ParseStep(i0: nat, uriFragment: bool) returns (i: nat, ok: bool, digit: bool, ghost t: Text)
      requires nameBuffer.Valid() && nameBuffer.chars.Length == |source| && nameBuffer.p < i0 < |source|
      modifies nameBuffer, nameBuffer.chars
      ensures nameBuffer.Valid()
      ensures ok <==> StepAt(source, i0, uriFragment).Some?
      ensures ok ==> StepAt(source, i0, uriFragment) == Some((t, i)) && nameBuffer.p < i
      ensures ok ==> nameBuffer.Written() == old(nameBuffer.Written()) + t && (digit <==> AllDigits(t))
    {
      hide PercentChar, NeedPercentEncode;
      i, ok, digit, t := i0, true, false, [];
      var c := source[i];
      if uriFragment {
        if c == '%' as int {
          var ch;
          ch, ok := DecodePercent(i);
          if !ok { return; }
          if |ch| == 1 {
            c := ch[0];
            i := i + 2;
          } else {
            PutAll(ch);
            i := i + 3 * |ch|;
            t := ch;
            MultibyteNoDigits(source, i0, ch);
            return;
          }
        } else if NeedPercentEncode(c) {
          ok := false;
          return;
        }
      }
      i := i + 1;
      if c == '~' as int {
        if i < |source| && source[i] == '0' as int {
          c := '~' as int;
        } else if i < |source| && source[i] == '1' as int {
          c := '/' as int;
        } else {
          ok := false;
          return;
        }
        i := i + 1;
      }
      digit := '0' as int <= c <= '9' as int;
      nameBuffer.Put(c);
      t := [c];
      assert t[0] == c;
    }

    /** The name from `i0` to the next slash or the end, with its index. */
    method ParseName(i0: nat, uriFragment: bool) returns (i: nat, ok: bool, e: Entry, ghost name: Text)
      requires nameBuffer.Valid() && nameBuffer.chars.Length == |source| && nameBuffer.p < i0 <= |source|
      modifies nameBuffer, nameBuffer.chars
      ensures nameBuffer.Valid()
      ensures ok <==> NameAt(source, i0, uriFragment).Some?
      ensures ok ==> NameAt(source, i0, uriFragment) == Some((name, i)) && nameBuffer.p <= i
      ensures ok ==> nameBuffer.Written() == old(nameBuffer.Written()) + name + [0] && HoldsAt(nameBuffer.Written(), e, name)
    {
      assert AllDigits([]);
      hide StepAt, AllDigits, IndexOf, Decimal;
      i, ok, name := i0, true, [];
      var start, isNumber := nameBuffer.p, true;
      e := Entry(start, 0, INVALID_INDEX);
      PrefixedNothing(NameAt(source, i, uriFragment));
      while i < |source| && source[i] != '/' as int
        invariant i0 <= i <= |source| && nameBuffer.Valid() && nameBuffer.p < i
        invariant nameBuffer.Written() == old(nameBuffer.Written()) + name && (isNumber <==> AllDigits(name))
        invariant NameAt(source, i0, uriFragment) == Prefixed(name, NameAt(source, i, uriFragment))
        decreases |source| - i
      {
        ghost var before, t := i, [];
        var digit;
        i, ok, digit, t := ParseStep(i, uriFragment);
        if !ok { return; }
        PrefixedTwice(name, t, NameAt(source, i, uriFragment));
        DigitsJoin(name, t);
        Regroup(old(nameBuffer.Written()), name, t);
        isNumber := isNumber && digit;
        name := name + t;
      }
      assert name + [] == name;
      var length := nameBuffer.p - start;
      nameBuffer.Put(0);
      NameInBuffer(old(nameBuffer.Written()), name);
      assert nameBuffer.chars[start..start + length] == nameBuffer.Written()[start..start + length];
      var index := ParseIndex(nameBuffer.chars[start..start + length], isNumber);
      e := Entry(start, length, index);
    }

    /** The index of a name that is known to consist of digits, or not to. */
    method ParseIndex(name: Text, allDigits: bool) returns (index: nat)
      requires allDigits <==> AllDigits(name)
      ensures index == IndexOf(name)
    {
      var isNumber := allDigits && |name| != 0;
      if isNumber && |name| > 1 && name[0] == '0' as int { isNumber := false; }
      var n: nat := 0;
      if isNumber {
        for j := 0 to |name|
          invariant IndexFrom(name, j, n) == IndexFrom(name, 0, 0)
        {
          var m := (n * 10 + (name[j] - '0' as int)) % 0x1_0000_0000;
          if m < n {
            isNumber := false;
            break;
          }
          n := m;
        }
      }
      index := if isNumber then n else INVALID_INDEX;
    }

    /** Reads a pointer in either form. The names and their zeros fit the buffer, the tokens
        their array. */
    method Parse(ghost names: seq<Text>)
      requires Valid() && tokens == [] && !error && nameBuffer.Written() == []
      requires PointerNames(source) == Some(names) || PointerNames(source).None?
      modifies this`tokens, this`error, nameBuffer, nameBuffer.chars
      ensures error <==> PointerNames(source).None?
      ensures !error ==> Valid() && Holds(nameBuffer.Written(), tokens, names)
    {
      hide NameAt, Holds, HoldsAt;
      var i := 0;
      var uriFragment := |source| > 0 && source[i] == '#' as int;
      if uriFragment { i := i + 1; }
      if i != |source| && source[i] != '/' as int {
        error := true;
        return;
      }
      ghost var seen: seq<Text> := [];
      ghost var begin := i;
      HoldsNothing(nameBuffer.Written());
      JoinedNothing(NamesAt(source, i, uriFragment));
      SlashesGrow(source, 0, i);
      while i < |source|
        invariant begin <= i <= |source| && NameEnds(source, i) && Valid() && !error && nameBuffer.p <= i
        invariant Holds(nameBuffer.Written(), tokens, seen) && |tokens| <= Slashes(source[..i])
        invariant NamesAt(source, begin, uriFragment) == Joined(seen, NamesAt(source, i, uriFragment))
        decreases |source| - i
      {
        ghost var at, written := i, nameBuffer.Written();
        i := i + 1;
        var ok, e;
        ghost var name;
        i, ok, e, name := ParseName(i, uriFragment);
        if !ok {
          error := true;
          return;
        }
        assert source[at] == '/' as int;
        NextToken(source, at, i, uriFragment, seen, name, |tokens|);
        HoldsPush(written, name, tokens, seen, e);
        tokens := tokens + [e];
        seen := seen + [name];
      }
      assert seen + [] == seen;
    }
  }

  lemma JoinedNothing(r: Option<seq<Text>>)
    ensures Joined([], r) == r
  {
    if r.Some? { assert [] + r.value == r.value; }
  }

  lemma DigitsJoin(a: Text, b: Text)
    ensures AllDigits(a + b) <==> AllDigits(a) && AllDigits(b)
  {
    assert forall i :: 0 <= i < |a| ==> (a + b)[i] == a[i];
    assert forall i :: 0 <= i < |b| ==> (a + b)[|a| + i] == b[i];
  }

  lemma Regroup(a: Text, b: Text, c: Text)
    ensures a + b + c == a + (b + c)
  {
  }

  lemma NameInBuffer(before: Text, name: Text)
    ensures (before + name + [0])[|before|..|before| + |name|] == name && (before + name + [0])[|before| + |name|] == 0
  {
  }

  function Joined(a: seq<Text>, r: Option<seq<Text>>): Option<seq<Text>> {
    match r
    case None => None
    case Some(b) => Some(a + b)
  }

  lemma HoldsNothing(written: Text)
    ensures Holds(written, [], [])
  {
  }

  lemma HoldsPush(written: Text, name: Text, es: seq<Entry>, names: seq<Text>, e: Entry)
    requires Holds(written, es, names) && HoldsAt(written + name + [0], e, name)
    ensures Holds(written + name + [0], es + [e], names + [name])
  {
    HoldsMore(written, name + [0], es, names);
    assert written + name + [0] == written + (name + [0]);
  }

  lemma PercentIs(s: Text, i: nat)
    requires Triplets(s, i, 4) != []
    ensures PercentChar(s, i).Some? <==> Utf8.StartsChar(Triplets(s, i, 4), 0)
  {
    var ds := Triplets(s, i, 4);
    Utf8.CharAt(ds, 0);
    var k := Utf8.LeadLength(ds[0]);
    if k <= |ds| { assert ds[0..0 + k] == ds[..k]; }
  }

  lemma PercentTaken(s: Text, i: nat, k: nat)
    requires 0 < k <= |Triplets(s, i, 4)| && Utf8.Utf8Char(Triplets(s, i, 4)[0..k])
    ensures PercentChar(s, i) == Some([] + Triplets(s, i, 4)[0..k])
  {
    var ds := Triplets(s, i, 4);
    Utf8.LengthOf(ds[0..k]);
    assert ds[0..k] == ds[..k] && [] + ds[0..k] == ds[0..k];
  }

  lemma MultibyteNoDigits(s: Text, i: nat, ch: Text)
    requires PercentChar(s, i) == Some(ch) && |ch| != 1
    ensures !AllDigits(ch)
  {
    assert Utf8.Utf8Char(ch) && ch[0] >= 0xC2;
  }

  /** A name that was read extends the list of names. */
  lemma NextToken(s: Text, at: nat, i: nat, uri: bool, seen: seq<Text>, name: Text, count: nat)
    requires at < |s| && s[at] == '/' as int && NameAt(s, at + 1, uri) == Some((name, i)) && count <= Slashes(s[..at])
    ensures at < i <= |s| && NameEnds(s, i)
    ensures Joined(seen, NamesAt(s, at, uri)) == Joined(seen + [name], NamesAt(s, i, uri))
    ensures count + 1 <= Slashes(s[..i]) <= Slashes(s)
  {
    NameStops(s, at + 1, uri);
    SlashesPrefix(s, at);
    SlashesGrow(s, at + 1, i);
    SlashesGrow(s, i, |s|);
    assert s[..|s|] == s;
    if NamesAt(s, i, uri).Some? {
      assert (seen + [name]) + NamesAt(s, i, uri).value == seen + ([name] + NamesAt(s, i, uri).value);
    }
  }

  lemma {:induction false} NameStops(s: Text, i: nat, uri: bool)
    requires i <= |s| && NameAt(s, i, uri).Some?
    ensures NameEnds(s, NameAt(s, i, uri).value.1)
    decreases |s| - i
  {
    if i < |s| && s[i] != '/' as int { NameStops(s, StepAt(s, i, uri).value.1, uri); }
  }

  // ---------------------------------------------------------------- writing

  /** Writes one byte of a name that is not percent-encoded. */
  method PutByte(out: Text, c: Byte) returns (out': Text)
    ensures out' == out + if c == '~' as int then ['~' as int, '0' as int] else if c == '/' as int then ['~' as int, '1' as int] else [c]
  {
    if c == '~' as int {
      out' := out + ['~' as int] + ['0' as int];
    } else if c == '/' as int {
      out' := out + ['~' as int] + ['1' as int];
    } else {
      out' := out + [c];
    }
  }

  /** Percent-encodes bytes. */
  method PutPercent(out: Text, ch: Text) returns (out': Text)
    ensures out' == out + PercentAll(ch)
  {
    out' := out;
    assert ch[0..] == ch;
    var k := 0;
    while k < |ch|
      invariant k <= |ch| && out' + PercentAll(ch[k..]) == out + PercentAll(ch)
    {
      PercentStep(out', ch, k);
      out' := out' + ['%' as int] + [HexUpper(ch[k] / 16)] + [HexUpper(ch[k] % 16)];
      k := k + 1;
    }
    assert ch[|ch|..] == [] && out' + [] == out';
  }

  /** Percent-encodes the UTF-8 character that starts at `j`. */
  method PutChar(out: Text, name: Text, j: nat) returns (out': Text, k: nat, ok: bool)
    requires j < |name|
    ensures var n := CharLength(name[j..]);
      if n == 0 then !ok else ok && k == n && out' == out + PercentAll(name[j..j + n])
  {
    hide PercentAll, CharLength, Utf8.StartsChar, Utf8.Utf8Char;
    ghost var rest := name[j..];
    CharIs(rest);
    var source := new ByteStream(name[j..]);
    var ch;
    ch, ok := Utf8.Validate(source, []);
    out', k := out, 0;
    if !ok { return; }
    CharTaken(rest, source.pos);
    assert rest[..source.pos] == name[j..j + source.pos];
    k := source.pos;
    out' := PutPercent(out, ch);
  }

  lemma CharIs(name: Text)
    requires name != []
    ensures Utf8.StartsChar(name, 0) <==> CharLength(name) > 0
  {
    Utf8.CharAt(name, 0);
    var k := Utf8.LeadLength(name[0]);
    if k <= |name| { assert name[0..0 + k] == name[..k]; }
  }

  lemma CharTaken(name: Text, k: nat)
    requires 0 < k <= |name| && Utf8.Utf8Char(name[0..k])
    ensures CharLength(name) == k && [] + name[0..k] == name[..k]
  {
    assert name[0..k] == name[..k];
    Utf8.LengthOf(name[0..k]);
  }

  lemma PercentStep(out: Text, ch: Text, k: nat)
    requires k < |ch|
    ensures (out + ['%' as int] + [HexUpper(ch[k] / 16)] + [HexUpper(ch[k] % 16)]) + PercentAll(ch[k + 1..]) == out + PercentAll(ch[k..])
  {
    assert ch[k..][1..] == ch[k + 1..];
    assert out + ['%' as int] + [HexUpper(ch[k] / 16)] + [HexUpper(ch[k] % 16)] == out + Percent(ch[k]);
  }

  /** Writes the names in either form; in a URI fragment it fails on a name that is not UTF-8. */
  method Stringify(names: seq<Text>, uriFragment: bool) returns (out: Text, ok: bool)
    ensures !uriFragment ==> ok && out == PlainPointer(names)
    ensures uriFragment ==> if FragmentPointer(names).Some? then ok && FragmentPointer(names) == Some(out) else !ok
  {
    hide EscapeName, FragmentName;
    out, ok := if uriFragment then ['#' as int] else [], true;
    assert names[0..] == names;
    var i := 0;
    BeforeNothing(PlainPointer(names));
    while i < |names|
      invariant i <= |names| && ok
      invariant !uriFragment ==> out + PlainPointer(names[i..]) == PlainPointer(names)
      invariant uriFragment ==> Before(out, FragmentNames(names[i..])) == FragmentPointer(names)
    {
      NextName(out, names, i);
      out := out + ['/' as int];
      out, ok := StringifyName(out, names[i], uriFragment);
      if !ok { return; }
      i := i + 1;
    }
    assert names[|names|..] == [] && out + [] == out;
  }

  lemma BeforeNothing(t: Text)
    ensures [] + t == t
  {
  }

  lemma NextName(out: Text, names: seq<Text>, i: nat)
    requires i < |names|
    ensures out + PlainPointer(names[i..]) == out + ['/' as int] + EscapeName(names[i]) + PlainPointer(names[i + 1..])
    ensures Before(out, FragmentNames(names[i..])) ==
      match FragmentName(names[i])
      case None => None
      case Some(t) => Before(out + ['/' as int] + t, FragmentNames(names[i + 1..]))
  {
    hide EscapeName, FragmentName;
    assert names[i..][1..] == names[i + 1..];
    var rest := FragmentNames(names[i + 1..]);
    if FragmentName(names[i]).Some? && rest.Some? {
      var t := FragmentName(names[i]).value;
      assert out + (['/' as int] + t + rest.value) == out + ['/' as int] + t + rest.value;
    }
  }

  method StringifyName(out0: Text, name: Text, uriFragment: bool) returns (out: Text, ok: bool)
    ensures !uriFragment ==> ok && out == out0 + EscapeName(name)
    ensures uriFragment ==> if FragmentName(name).Some? then ok && out == out0 + FragmentName(name).value else !ok
  {
    hide Piece, NeedPercentEncode, PercentAll;
    out, ok := out0, true;
    assert name[0..] == name;
    var j: nat := 0;
    while j < |name|
      invariant j <= |name| && ok
      invariant !uriFragment ==> out + EscapeName(name[j..]) == out0 + EscapeName(name)
      invariant uriFragment ==> Before(out, FragmentName(name[j..])) == Before(out0, FragmentName(name))
    {
      NextPiece(out, name, j);
      var c := name[j];
      if c != '~' as int && c != '/' as int && uriFragment && NeedPercentEncode(c) {
        var k;
        out, k, ok := PutChar(out, name, j);
        if !ok { return; }
        j := j + k;
      } else {
        out := PutByte(out, c);
        j := j + 1;
      }
    }
    assert name[|name|..] == [] && out + [] == out;
  }

  lemma NextPiece(out: Text, name: Text, j: nat)
    requires j < |name|
    ensures
      var c := name[j];
      var t := if c == '~' as int then ['~' as int, '0' as int] else if c == '/' as int then ['~' as int, '1' as int] else [c];
      var n := CharLength(name[j..]);
      out + EscapeName(name[j..]) == (out + t) + EscapeName(name[j + 1..])
      && Before(out, FragmentName(name[j..])) ==
         if c == '~' as int || c == '/' as int || !NeedPercentEncode(c) then Before(out + t, FragmentName(name[j + 1..]))
         else if n == 0 then None
         else Before(out + PercentAll(name[j..j + n]), FragmentName(name[j + n..]))
  {
    var c, rest := name[j], name[j..];
    assert rest[1..] == name[j + 1..];
    var n := CharLength(rest);
    assert rest[..n] == name[j..j + n] && rest[n..] == name[j + n..];
    PieceIs(rest);
    hide CharLength, Piece, NeedPercentEncode, PercentAll;
    var first := if c == '~' as int then ['~' as int, '0' as int] else if c == '/' as int then ['~' as int, '1' as int] else [c];
    Grouped(out, first, EscapeName(rest[1..]));
    if Piece(rest).Some? {
      var t: Text, k: nat := Piece(rest).value.0, Piece(rest).value.1;
      var more := FragmentName(rest[k..]);
      if more.Some? { Grouped(out, t, more.value); }
    }
  }

  lemma Grouped(a: Text, b: Text, c: Text)
    ensures a + (b + c) == (a + b) + c
  {
  }

  lemma PieceIs(name: Text)
    requires name != []
    ensures
      var c, k := name[0], CharLength(name);
      Piece(name) ==
        if c == '~' as int then Some((['~' as int, '0' as int], 1))
        else if c == '/' as int then Some((['~' as int, '1' as int], 1))
        else if !NeedPercentEncode(c) then Some(([c], 1))
        else if k == 0 then None
        else Some((PercentAll(name[..k]), k))
  {
  }

  // ---------------------------------------------------------------- there and back

  /** Tokens read from text: a dash is never an index. */
  lemma ParsedProper(name: Text)
    ensures Proper(Token(name, IndexOf(name)))
  {
    if name == ['-' as int] { assert !IsDigit(name[0]); }
  }

  /** Writes names and reads them again: the same names, with the index of each. */
  method WriteAndRead(names: seq<Text>, uriFragment: bool) returns (p: Pointer?)
    ensures p != null <==> !uriFragment || forall k :: 0 <= k < |names| ==> Utf8.Utf8Text(names[k])
    ensures p != null ==> !p.error && p.Valid() && Holds(p.nameBuffer.Written(), p.tokens, names)
  {
    hide Holds, Utf8.Utf8Text, FragmentPointer, PlainPointer, PointerNames;
    PlainRoundTrip(names);
    FragmentRoundTrip(names);
    var text, ok := Stringify(names, uriFragment);
    if !ok { return null; }
    p := new Pointer(text);
    p.Parse(names);
  }
}
