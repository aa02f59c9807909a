/** The two notations of JSON pointers as grammars, after sections 3 and 6 of RFC 6901, and that
    pointers are read and written by them. */
module PointerGrammar {
  import opened Options
  import opened Bytes
  import opened Numerals
  import Utf8
  import opened JsonLexer
  import opened JsonValue
  import opened PointerTree
  import opened PointerText

  // ---------------------------------------------------------------- the grammar

  /** The unreserved characters, section 2.3 of RFC 3986. */
  ghost predicate IsUnreserved(c: Byte) {
    IsAlphanumeric(c) || c == '-' as int || c == '.' as int || c == '_' as int || c == '~' as int
  }

  ghost predicate IsAlphanumeric(c: Byte) {
    'a' as int <= c <= 'z' as int || 'A' as int <= c <= 'Z' as int || '0' as int <= c <= '9' as int
  }

  /** A percent sign and two hexadecimal digits, in either case, for the byte `b`. */
  ghost predicate IsTriplet(s: Text, i: nat, b: Byte) {
    i + 3 <= |s| && s[i] == '%' as int && exists h: nat, l: nat :: AreHex(s, i, h, l) && b == 16 * h + l
  }

  ghost predicate AreHex(s: Text, i: nat, h: nat, l: nat)
    requires i + 3 <= |s|
  {
    IsHex(s[i + 1], h) && IsHex(s[i + 2], l)
  }

  ghost predicate AreTriplets(s: Text, i: nat, t: Text) {
    forall k :: 0 <= k < |t| ==> IsTriplet(s, i + 3 * k, t[k])
  }

  /** The bytes of one character as it is written: as it is, or, in a fragment, unreserved or
      percent-encoded in UTF-8. */
  ghost predicate IsLiteral(s: Text, i: nat, j: nat, uri: bool, t: Text)
    requires i < j <= |s|
  {
    if uri then
      || (j == i + 1 && IsUnreserved(s[i]) && t == [s[i]])
      || (j == i + 3 * |t| && Utf8.Utf8Char(t) && AreTriplets(s, i, t))
    else j == i + 1 && s[i] != '/' as int && t == [s[i]]
  }

  /** One character of a name: itself, or a tilde and the digit that says what it stands for. */
  ghost predicate IsPiece(s: Text, i: nat, j: nat, uri: bool, t: Text)
    requires i < j <= |s|
  {
    || (IsLiteral(s, i, j, uri, t) && t != ['~' as int])
    || (i + 1 < j && IsLiteral(s, i, j - 1, uri, ['~' as int])
        && ((s[j - 1] == '0' as int && t == ['~' as int]) || (s[j - 1] == '1' as int && t == ['/' as int])))
  }

  ghost predicate IsName(s: Text, i: nat, j: nat, uri: bool, t: Text)
    requires i <= j <= |s|
    decreases j - i
  {
    || (i == j && t == [])
    || exists k: nat, u: Text, v: Text :: i < k <= j && IsPiece(s, i, k, uri, u) && IsName(s, k, j, uri, v) && t == u + v
  }

  /** Names, each behind a slash, to the end of the text. */
  ghost predicate AreNames(s: Text, i: nat, uri: bool, names: seq<Text>)
    requires i <= |s|
    decreases |names|
  {
    if names == [] then i == |s|
    else i < |s| && s[i] == '/' as int && exists j :: i < j <= |s| && IsName(s, i + 1, j, uri, names[0]) && AreNames(s, j, uri, names[1..])
  }

  /** The text is a pointer with these names. */
  ghost predicate IsPointer(s: Text, names: seq<Text>) {
    if s != [] && s[0] == '#' as int then AreNames(s, 1, true, names) else AreNames(s, 0, false, names)
  }

  // ---------------------------------------------------------------- pieces

  lemma UnreservedIs(c: Byte)
    ensures IsUnreserved(c) <==> !NeedPercentEncode(c)
    ensures IsUnreserved(c) ==> c != '/' as int && c != '%' as int
  {
  }

  lemma TripletExactly(s: Text, i: nat, b: Byte)
    ensures IsTriplet(s, i, b) <==> Triplet(s, i) == Some(b)
  {
    hide HexDigit, IsHex;
    if i + 3 <= |s| {
      HexBelow(s[i + 1]);
      HexBelow(s[i + 2]);
      if IsTriplet(s, i, b) {
        var h: nat, l: nat :| AreHex(s, i, h, l) && b == 16 * h + l;
        HexDigitsAre(s[i + 1], h);
        HexDigitsAre(s[i + 2], l);
      }
      if Triplet(s, i) == Some(b) {
        HexDigitsAre(s[i + 1], HexDigit(s[i + 1]).value);
        HexDigitsAre(s[i + 2], HexDigit(s[i + 2]).value);
        assert AreHex(s, i, HexDigit(s[i + 1]).value, HexDigit(s[i + 2]).value);
      }
    }
  }

  lemma HexBelow(c: Byte)
    ensures HexDigit(c).Some? ==> HexDigit(c).value < 16
  {
  }

  /** The triplets of a text come first among those that are read. */
  lemma {:induction false} TripletsComplete(s: Text, i: nat, t: Text, n: nat)
    requires AreTriplets(s, i, t) && |t| <= n
    ensures |t| <= |Triplets(s, i, n)| && Triplets(s, i, n)[..|t|] == t
    decreases |t|
  {
    hide IsTriplet, Triplet;
    if t != [] {
      assert IsTriplet(s, i + 3 * 0, t[0]);
      TripletExactly(s, i, t[0]);
      forall k | 0 <= k < |t| - 1 ensures IsTriplet(s, i + 3 + 3 * k, t[1..][k]) { assert IsTriplet(s, i + 3 * (k + 1), t[k + 1]); }
      TripletsComplete(s, i + 3, t[1..], n - 1);
      assert t == [t[0]] + t[1..];
    }
  }

  lemma {:induction false} TripletsSound(s: Text, i: nat, n: nat, k: nat)
    requires k < |Triplets(s, i, n)|
    ensures IsTriplet(s, i + 3 * k, Triplets(s, i, n)[k])
    decreases n
  {
    hide IsTriplet, Triplet;
    TripletExactly(s, i, Triplet(s, i).value);
    if k > 0 { TripletsSound(s, i + 3, n - 1, k - 1); }
  }

  lemma PercentExactly(s: Text, i: nat, t: Text)
    requires i < |s| && s[i] == '%' as int
    ensures PercentChar(s, i) == Some(t) <==> Utf8.Utf8Char(t) && AreTriplets(s, i, t)
  {
    hide IsTriplet, Utf8.Utf8Char, Utf8.LeadLength;
    var ds := Triplets(s, i, 4);
    if Utf8.Utf8Char(t) && AreTriplets(s, i, t) {
      CharBounds(t);
      TripletsComplete(s, i, t, 4);
      assert ds[..|t|][0] == ds[0];
    }
    if PercentChar(s, i) == Some(t) {
      forall k | 0 <= k < |t| ensures IsTriplet(s, i + 3 * k, t[k]) { TripletsSound(s, i, 4, k); }
    }
  }

  lemma CharBounds(t: Text)
    requires Utf8.Utf8Char(t)
    ensures 1 <= |t| <= 4 && Utf8.LeadLength(t[0]) == |t|
  {
    Utf8.LengthOf(t);
  }

  /** What the reader does with the bytes of a character, where they end. */
  function Read(s: Text, t: Text, k: nat): Option<(Text, nat)> {
    if |t| == 1 then Plain(s, t[0], k) else Some((t, k))
  }

  /** The reader sees a literal exactly where one is. */
  lemma LiteralExactly(s: Text, i: nat, uri: bool)
    requires i < |s| && s[i] != '/' as int
    ensures StepAt(s, i, uri).Some? ==> exists k: nat, t: Text :: i < k <= |s| && IsLiteral(s, i, k, uri, t) && StepAt(s, i, uri) == Read(s, t, k)
    ensures forall k: nat, t: Text :: i < k <= |s| && IsLiteral(s, i, k, uri, t) ==> StepAt(s, i, uri) == Read(s, t, k)
  {
    hide Plain, PercentChar, AreTriplets, NeedPercentEncode, IsUnreserved, Utf8.Utf8Char;
    UnreservedIs(s[i]);
    if StepAt(s, i, uri).Some? {
      if uri && s[i] == '%' as int {
        var t := PercentChar(s, i).value;
        PercentExactly(s, i, t);
        assert IsLiteral(s, i, i + 3 * |t|, uri, t);
      } else {
        assert IsLiteral(s, i, i + 1, uri, [s[i]]);
      }
    }
    forall k: nat, t: Text | i < k <= |s| && IsLiteral(s, i, k, uri, t) ensures StepAt(s, i, uri) == Read(s, t, k) {
      if uri && !(k == i + 1 && IsUnreserved(s[i]) && t == [s[i]]) {
        CharBounds(t);
        TripletStarts(s, i, t);
        PercentExactly(s, i, t);
      }
    }
  }

  lemma TripletStarts(s: Text, i: nat, t: Text)
    requires AreTriplets(s, i, t) && t != []
    ensures i + 3 * |t| <= |s| && s[i] == '%' as int
  {
    assert IsTriplet(s, i + 3 * 0, t[0]);
    assert IsTriplet(s, i + 3 * (|t| - 1), t[|t| - 1]);
  }

  /** A step of the reader is exactly one piece of the grammar. */
  lemma PieceExactly(s: Text, i: nat, j: nat, uri: bool, t: Text)
    requires i < j <= |s| && s[i] != '/' as int
    ensures StepAt(s, i, uri) == Some((t, j)) <==> IsPiece(s, i, j, uri, t)
  {
    hide StepAt, IsLiteral;
    LiteralExactly(s, i, uri);
    if |t| == 1 { assert t == [t[0]]; }
    if StepAt(s, i, uri) == Some((t, j)) {
      var k: nat, u: Text :| i < k <= |s| && IsLiteral(s, i, k, uri, u) && StepAt(s, i, uri) == Read(s, u, k);
      if |u| == 1 && u[0] == '~' as int {
        assert u == ['~' as int] && j == k + 1;
        assert s[j - 1] == s[k];
      } else if |u| == 1 {
        assert u == [u[0]] == t && t[0] != '~' as int;
      } else {
        assert t == u && |t| != 1;
      }
    }
  }

  // ---------------------------------------------------------------- names

  lemma {:induction false} NameComplete(s: Text, i: nat, j: nat, uri: bool, t: Text)
    requires i <= j <= |s| && IsName(s, i, j, uri, t) && NameEnds(s, j)
    ensures NameAt(s, i, uri) == Some((t, j))
    decreases j - i
  {
    hide StepAt, IsPiece;
    if !(i == j && t == []) {
      var k: nat, u: Text, v: Text :| i < k <= j && IsPiece(s, i, k, uri, u) && IsName(s, k, j, uri, v) && t == u + v;
      NoSlash(s, i, k, uri, u);
      PieceExactly(s, i, k, uri, u);
      NameComplete(s, k, j, uri, v);
    }
  }

  lemma NoSlash(s: Text, i: nat, j: nat, uri: bool, t: Text)
    requires i < j <= |s| && IsPiece(s, i, j, uri, t)
    ensures s[i] != '/' as int
  {
    LiteralStarts(s, i, j, uri, t);
    if i + 1 < j { LiteralStarts(s, i, j - 1, uri, ['~' as int]); }
  }

  lemma LiteralStarts(s: Text, i: nat, j: nat, uri: bool, t: Text)
    requires i < j <= |s|
    ensures IsLiteral(s, i, j, uri, t) ==> s[i] != '/' as int
  {
    hide AreTriplets;
    if IsLiteral(s, i, j, uri, t) && uri {
      UnreservedIs(s[i]);
      if Utf8.Utf8Char(t) && AreTriplets(s, i, t) { TripletStarts(s, i, t); }
    }
  }

  lemma {:induction false} NameSound(s: Text, i: nat, uri: bool)
    requires i <= |s| && NameAt(s, i, uri).Some?
    ensures var (t, j) := NameAt(s, i, uri).value; i <= j <= |s| && NameEnds(s, j) && IsName(s, i, j, uri, t)
    decreases |s| - i
  {
    hide StepAt, IsPiece;
    if i < |s| && s[i] != '/' as int {
      var (u, k) := StepAt(s, i, uri).value;
      PieceExactly(s, i, k, uri, u);
      NameSound(s, k, uri);
    }
  }

  lemma {:induction false} NamesExactly(s: Text, i: nat, uri: bool, names: seq<Text>)
    requires i <= |s|
    ensures NamesAt(s, i, uri) == Some(names) <==> AreNames(s, i, uri, names)
    decreases |names|
  {
    hide NameAt, IsName;
    if i < |s| && s[i] == '/' as int && NameAt(s, i + 1, uri).Some? {
      NameSound(s, i + 1, uri);
      if names != [] {
        NamesExactly(s, NameAt(s, i + 1, uri).value.1, uri, names[1..]);
        assert names == [names[0]] + names[1..];
      }
    }
    if names != [] && AreNames(s, i, uri, names) {
      var j := FirstName(s, i, uri, names);
      NamesStart(s, j, uri, names[1..]);
      NameComplete(s, i + 1, j, uri, names[0]);
      NamesExactly(s, j, uri, names[1..]);
      assert names == [names[0]] + names[1..];
    }
  }

  lemma FirstName(s: Text, i: nat, uri: bool, names: seq<Text>) returns (j: nat)
    requires i <= |s| && names != [] && AreNames(s, i, uri, names)
    ensures i < j <= |s| && s[i] == '/' as int && IsName(s, i + 1, j, uri, names[0]) && AreNames(s, j, uri, names[1..])
  {
    j :| i < j <= |s| && IsName(s, i + 1, j, uri, names[0]) && AreNames(s, j, uri, names[1..]);
  }

  lemma NamesStart(s: Text, i: nat, uri: bool, names: seq<Text>)
    requires i <= |s| && AreNames(s, i, uri, names)
    ensures NameEnds(s, i)
  {
  }

  /** A text is read as those names of which it is a pointer, and refused if it is none. */
  lemma PointerExactly(s: Text, names: seq<Text>)
    ensures PointerNames(s) == Some(names) <==> IsPointer(s, names)
  {
    hide NamesAt, AreNames;
    if IsFragment(s) { NamesExactly(s, 1, true, names); } else { NamesExactly(s, 0, false, names); }
  }

  // ---------------------------------------------------------------- what is written in a fragment

  /** A name of letters, digits, `-`, `.` and `_` is written as it is. */
  lemma {:induction false} UnreservedAsIs(name: Text)
    requires forall k :: 0 <= k < |name| ==> IsUnreserved(name[k]) && name[k] != '~' as int
    ensures FragmentName(name) == Some(name)
    decreases |name|
  {
    if name != [] {
      UnreservedIs(name[0]);
      UnreservedAsIs(name[1..]);
      assert [name[0]] + name[1..] == name;
    }
  }

  lemma WrittenAsIs(name: Text)
    requires forall k :: 0 <= k < |name| ==> IsAlphanumeric(name[k]) || name[k] == '-' as int || name[k] == '.' as int || name[k] == '_' as int
    ensures FragmentPointer([name]) == Some(['#' as int, '/' as int] + name)
  {
    UnreservedAsIs(name);
    assert FragmentNames([]) == Some([]);
    assert FragmentNames([name]) == Some(['/' as int] + name + []);
    assert ['#' as int] + (['/' as int] + name + []) == ['#' as int, '/' as int] + name;
  }

  /** What a fragment may hold here: slashes, percent signs and unreserved characters. */
  ghost predicate IsFragmentText(s: Text) {
    forall k :: 0 <= k < |s| ==> s[k] == '/' as int || s[k] == '%' as int || IsUnreserved(s[k])
  }

  lemma {:induction false} PercentIsText(t: Text)
    ensures IsFragmentText(PercentAll(t))
  {
    if t != [] { PercentIsText(t[1..]); }
  }

  lemma {:induction false} NameIsText(name: Text)
    requires FragmentName(name).Some?
    ensures IsFragmentText(FragmentName(name).value)
    decreases |name|
  {
    if name != [] {
      var k: nat := Piece(name).value.1;
      UnreservedIs(name[0]);
      PercentIsText(name[..k]);
      NameIsText(name[k..]);
    }
  }

  /** Nothing else is written into a fragment. */
  lemma {:induction false} FragmentIsText(names: seq<Text>)
    requires FragmentNames(names).Some?
    ensures IsFragmentText(FragmentNames(names).value)
  {
    if names != [] {
      NameIsText(names[0]);
      FragmentIsText(names[1..]);
    }
  }
}
