/** Section 6 of RFC 6901 takes a fragment for the percent-encoded octets of a pointer: decode
    first, then read. The code decodes while it reads. Both agree exactly when no slash is
    percent-encoded and no tilde has a percent-encoded character behind it. */
module PointerOctets {
  import opened Options
  import opened Bytes
  import Utf8
  import opened JsonLexer
  import opened PointerText
  import opened PointerGrammar

  /** One raw slash, or the bytes of one character. */
  ghost predicate IsOctet(s: Text, i: nat, j: nat, t: Text)
    requires i < j <= |s|
  {
    (j == i + 1 && s[i] == '/' as int && t == ['/' as int]) || IsLiteral(s, i, j, true, t)
  }

  /** The rest of the fragment from `i` on, percent-decoded. */
  ghost predicate AreOctets(s: Text, i: nat, d: Text)
    requires i <= |s|
    decreases |s| - i
  {
    || (i == |s| && d == [])
    || exists k: nat, u: Text, v: Text :: i < k <= |s| && IsOctet(s, i, k, u) && AreOctets(s, k, v) && d == u + v
  }

  ghost predicate EncodedSlash(s: Text, i: nat) {
    exists k: nat :: k >= i && Triplet(s, k) == Some('/' as int)
  }

  /** A tilde at `k`, and a percent sign behind it. */
  ghost predicate SplitAt(s: Text, k: nat) {
    || (Peek(s, k) == '~' as int && Peek(s, k + 1) == '%' as int)
    || (Triplet(s, k) == Some('~' as int) && Peek(s, k + 3) == '%' as int)
  }

  ghost predicate SplitEscape(s: Text, i: nat) {
    exists k: nat :: k >= i && SplitAt(s, k)
  }

  // ---------------------------------------------------------------- where the two occur

  /** What stands within the triplets of a character, `o` bytes behind the start of the `m`th. */
  lemma InsideChar(s: Text, i: nat, t: Text, m: nat, o: nat)
    requires AreTriplets(s, i, t) && m < |t| && o < 3 && Utf8.Utf8Char(t)
    ensures Peek(s, i + 3 * m + o) != '~' as int
    ensures o > 0 ==> Triplet(s, i + 3 * m + o).None?
    ensures Triplet(s, i + 3 * m) == Some(t[m])
  {
    hide HexDigit, Utf8.Utf8Char, IsTriplet;
    assert IsTriplet(s, i + 3 * m, t[m]);
    TripletExactly(s, i + 3 * m, t[m]);
    HexAreDigits(s, i + 3 * m);
  }

  lemma HexAreDigits(s: Text, i: nat)
    requires Triplet(s, i).Some?
    ensures s[i] == '%' as int && s[i + 1] != '%' as int && s[i + 2] != '%' as int && s[i + 1] != '~' as int && s[i + 2] != '~' as int
  {
  }

  lemma Continues(t: Text)
    requires Utf8.Utf8Char(t)
    ensures forall m :: 0 < m < |t| ==> t[m] >= 0x80
    ensures |t| > 1 ==> t[0] >= 0x80
  {
  }

  /** In an octet, an encoded slash or a split escape can only be its own. */
  lemma OctetShape(s: Text, i: nat, j: nat, t: Text)
    requires i < j <= |s| && IsOctet(s, i, j, t)
    ensures t != [] && (|t| > 1 ==> t[0] >= 0x80)
    ensures s[i] == '~' as int ==> j == i + 1 && t == ['~' as int]
    ensures t == ['~' as int] ==> (SplitAt(s, i) <==> Peek(s, j) == '%' as int)
    ensures t != ['~' as int] ==> !SplitAt(s, i)
    ensures Triplet(s, i) == Some('/' as int) <==> t == ['/' as int] && s[i] != '/' as int
    ensures forall k: nat :: i < k < j ==> !SplitAt(s, k) && Triplet(s, k) != Some('/' as int)
  {
    hide Triplet, Utf8.Utf8Char, AreTriplets, SplitAt, IsUnreserved;
    if s[i] == '%' as int && Utf8.Utf8Char(t) && AreTriplets(s, i, t) && j == i + 3 * |t| {
      PercentOctet(s, i, j, t);
    } else {
      RawOctet(s, i, j, t);
      RawShape(s, i, t);
    }
  }

  lemma RawShape(s: Text, i: nat, t: Text)
    requires i < |s| && t == [s[i]] && s[i] != '%' as int
    ensures SplitAt(s, i) <==> t == ['~' as int] && Peek(s, i + 1) == '%' as int
    ensures Triplet(s, i).None?
  {
    assert t == ['~' as int] <==> s[i] == '~' as int;
  }

  lemma PercentOctet(s: Text, i: nat, j: nat, t: Text)
    requires i < j <= |s| && s[i] == '%' as int && Utf8.Utf8Char(t) && AreTriplets(s, i, t) && j == i + 3 * |t|
    ensures t != [] && (|t| > 1 ==> t[0] >= 0x80)
    ensures SplitAt(s, i) <==> t == ['~' as int] && Peek(s, j) == '%' as int
    ensures Triplet(s, i) == Some('/' as int) <==> t == ['/' as int]
    ensures forall k: nat :: i < k < j ==> !SplitAt(s, k) && Triplet(s, k) != Some('/' as int)
  {
    hide Triplet, Utf8.Utf8Char, AreTriplets, SplitAt;
    FirstTriplet(s, i, j, t);
    forall k: nat | i < k < j ensures !SplitAt(s, k) && Triplet(s, k) != Some('/' as int) {
      Thirds(k - i, |t|);
      NotInside(s, i, t, (k - i) / 3, (k - i) % 3);
    }
  }

  lemma FirstTriplet(s: Text, i: nat, j: nat, t: Text)
    requires i < j <= |s| && s[i] == '%' as int && Utf8.Utf8Char(t) && AreTriplets(s, i, t) && j == i + 3 * |t|
    ensures t != [] && (|t| > 1 ==> t[0] >= 0x80)
    ensures SplitAt(s, i) <==> t == ['~' as int] && Peek(s, j) == '%' as int
    ensures Triplet(s, i) == Some('/' as int) <==> t == ['/' as int]
  {
    hide Triplet, Utf8.Utf8Char, Utf8.LeadLength, AreTriplets;
    Continues(t);
    CharBounds(t);
    InsideChar(s, i, t, 0, 0);
    if |t| == 1 { assert t == [t[0]]; }
  }

  lemma Thirds(n: nat, m: nat)
    requires n < 3 * m
    ensures n == 3 * (n / 3) + n % 3 && n / 3 < m
  {
  }

  lemma NotInside(s: Text, i: nat, t: Text, m: nat, o: nat)
    requires AreTriplets(s, i, t) && m < |t| && o < 3 && m + o > 0 && Utf8.Utf8Char(t)
    ensures !SplitAt(s, i + 3 * m + o) && Triplet(s, i + 3 * m + o) != Some('/' as int)
  {
    Continues(t);
    InsideChar(s, i, t, m, o);
    hide Triplet, Utf8.Utf8Char, AreTriplets;
  }

  lemma RawOctet(s: Text, i: nat, j: nat, t: Text)
    requires i < j <= |s| && IsOctet(s, i, j, t)
    requires !(s[i] == '%' as int && Utf8.Utf8Char(t) && AreTriplets(s, i, t) && j == i + 3 * |t|)
    ensures j == i + 1 && t == [s[i]] && s[i] != '%' as int && (s[i] == '/' as int || IsUnreserved(s[i]))
  {
    UnreservedIs(s[i]);
    if Utf8.Utf8Char(t) && AreTriplets(s, i, t) { TripletStarts(s, i, t); }
  }

  /** Both occur from `i` on exactly if they do in the first octet or behind it. */
  lemma Occurs(s: Text, i: nat, j: nat, t: Text)
    requires i < j <= |s| && IsOctet(s, i, j, t)
    ensures EncodedSlash(s, i) <==> (t == ['/' as int] && s[i] != '/' as int) || EncodedSlash(s, j)
    ensures SplitEscape(s, i) <==> (t == ['~' as int] && Peek(s, j) == '%' as int) || SplitEscape(s, j)
  {
    hide IsOctet, Triplet, SplitAt;
    OctetShape(s, i, j, t);
    if EncodedSlash(s, i) {
      var k: nat :| k >= i && Triplet(s, k) == Some('/' as int);
      assert k == i || k >= j;
    }
    if SplitEscape(s, i) {
      var k: nat :| k >= i && SplitAt(s, k);
      assert k == i || k >= j;
    }
  }

  // ---------------------------------------------------------------- the rest of a pointer

  /** The rest of a name and the names behind it. */
  function RestAt(s: Text, i: nat, uri: bool): Option<seq<Text>> {
    match NameAt(s, i, uri)
    case None => None
    case Some((t, j)) =>
      match NamesAt(s, j, uri)
      case None => None
      case Some(names) => Some([t] + names)
  }

  /** Bytes in front of the first name. */
  function InFront(t: Text, r: Option<seq<Text>>): Option<seq<Text>> {
    match r
    case None => None
    case Some(names) => if names == [] then None else Some([t + names[0]] + names[1..])
  }

  lemma RestEnds(s: Text, i: nat, uri: bool)
    requires i >= |s|
    ensures RestAt(s, i, uri) == Some([[]])
  {
    var empty: Text := [];
    assert [empty] + [] == [empty];
  }

  lemma RestSlash(s: Text, i: nat, uri: bool)
    requires i < |s| && s[i] == '/' as int
    ensures RestAt(s, i, uri) == match RestAt(s, i + 1, uri) case None => None case Some(names) => Some([[]] + names)
  {
    hide NameAt;
    EmptyName(s, i, uri);
  }

  lemma EmptyName(s: Text, i: nat, uri: bool)
    requires i < |s| && s[i] == '/' as int
    ensures NameAt(s, i, uri) == Some(([], i))
  {
  }

  lemma RestPiece(s: Text, i: nat, uri: bool)
    requires i < |s| && s[i] != '/' as int
    ensures RestAt(s, i, uri) == match StepAt(s, i, uri) case None => None case Some((t, j)) => InFront(t, RestAt(s, j, uri))
  {
    hide StepAt;
  }

  // ---------------------------------------------------------------- both readings

  /** What becomes of the fragment, given what becomes of the decoded text: nothing if an
      escape is split; else fewer names if a slash is encoded, and the same if none is. */
  ghost predicate Agree(s: Text, i: nat, names: seq<Text>) {
    var r := RestAt(s, i, true);
    && (r.Some? <==> !SplitEscape(s, i))
    && (r.Some? ==> 1 <= |r.value| <= |names| && (if EncodedSlash(s, i) then |r.value| < |names| else r.value == names))
  }

  lemma {:induction false} BothRead(s: Text, i: nat, d: Text, p: nat, names: seq<Text>)
    requires i <= |s| && p <= |d| && AreOctets(s, i, d[p..]) && RestAt(d, p, false) == Some(names)
    ensures Agree(s, i, names)
    decreases |s| - i
  {
    hide RestAt, StepAt, IsOctet, EncodedSlash, SplitEscape, SplitAt, Agree;
    if i == |s| && d[p..] == [] {
      NothingLeft(s, d, p, names);
    } else {
      var k: nat, u: Text, v: Text :| i < k <= |s| && IsOctet(s, i, k, u) && AreOctets(s, k, v) && d[p..] == u + v;
      OctetShape(s, i, k, u);
      Behind(d, p, u, v);
      if u == ['/' as int] {
        RestSlash(d, p, false);
        BothRead(s, k, d, p + 1, RestAt(d, p + 1, false).value);
        SlashAgrees(s, i, k, names, RestAt(d, p + 1, false).value);
      } else if u == ['~' as int] {
        var rest := TildeRead(d, p, names);
        if Peek(s, k) == '%' as int {
          SplitRefused(s, i, k, names);
        } else {
          DigitRaw(s, k, d, p + 1);
          BothRead(s, k + 1, d, p + 2, rest);
          TildeAgrees(s, i, k, [if d[p + 1] == '0' as int then '~' as int else '/' as int], names, rest);
        }
      } else {
        NoSpecial(s, i, k, u);
        BytesRead(d, p, u);
        var rest := RestAt(d, p + |u|, false).value;
        BothRead(s, k, d, p + |u|, rest);
        CharAgrees(s, i, k, u, names, rest);
      }
    }
  }

  lemma Behind(d: Text, p: nat, u: Text, v: Text)
    requires p <= |d| && d[p..] == u + v && u != []
    ensures p + |u| <= |d| && d[p + |u|..] == v && d[p] == u[0] && forall x :: 0 <= x < |u| ==> d[p + x] == u[x]
  {
    assert d[p + |u|..] == d[p..][|u|..];
    assert forall x :: 0 <= x < |u| ==> d[p + x] == d[p..][x];
  }

  /** The same piece in front of both. */
  lemma Lifts(s: Text, i: nat, k: nat, t: Text, names: seq<Text>, rest: seq<Text>)
    requires Agree(s, k, rest) && RestAt(s, i, true) == InFront(t, RestAt(s, k, true)) && Some(names) == InFront(t, Some(rest))
    requires (EncodedSlash(s, i) <==> EncodedSlash(s, k)) && (SplitEscape(s, i) <==> SplitEscape(s, k))
    ensures Agree(s, i, names)
  {
    hide RestAt, EncodedSlash, SplitEscape;
  }

  lemma SlashAgrees(s: Text, i: nat, k: nat, names: seq<Text>, rest: seq<Text>)
    requires i < k <= |s| && IsOctet(s, i, k, ['/' as int]) && Agree(s, k, rest) && names == [[]] + rest
    ensures Agree(s, i, names)
  {
    OctetShape(s, i, k, ['/' as int]);
    Occurs(s, i, k, ['/' as int]);
    if s[i] == '/' as int {
      RawSlash(s, i, k);
      RestSlash(s, i, true);
    } else {
      LiteralExactly(s, i, true);
      RestPiece(s, i, true);
    }
    hide RestAt, EncodedSlash, SplitEscape, IsOctet;
  }

  lemma RawSlash(s: Text, i: nat, k: nat)
    requires i < k <= |s| && IsOctet(s, i, k, ['/' as int]) && s[i] == '/' as int
    ensures k == i + 1
  {
    LiteralStarts(s, i, k, true, ['/' as int]);
  }

  /** The text accepted has a digit behind the tilde. */
  lemma TildeRead(d: Text, p: nat, names: seq<Text>) returns (rest: seq<Text>)
    requires p < |d| && d[p] == '~' as int && RestAt(d, p, false) == Some(names)
    ensures p + 1 < |d| && (d[p + 1] == '0' as int || d[p + 1] == '1' as int)
    ensures RestAt(d, p + 2, false) == Some(rest)
    ensures Some(names) == InFront([if d[p + 1] == '0' as int then '~' as int else '/' as int], Some(rest))
  {
    hide RestAt;
    RestPiece(d, p, false);
    rest := RestAt(d, p + 2, false).value;
  }

  lemma SplitRefused(s: Text, i: nat, k: nat, names: seq<Text>)
    requires i < k <= |s| && IsOctet(s, i, k, ['~' as int]) && Peek(s, k) == '%' as int
    ensures Agree(s, i, names)
  {
    Occurs(s, i, k, ['~' as int]);
    NotSlash(s, i, k, ['~' as int]);
    LiteralExactly(s, i, true);
    RestPiece(s, i, true);
    hide RestAt, EncodedSlash, SplitEscape, IsOctet;
  }

  lemma NotSlash(s: Text, i: nat, k: nat, t: Text)
    requires i < k <= |s| && IsOctet(s, i, k, t) && t != ['/' as int]
    ensures s[i] != '/' as int && IsLiteral(s, i, k, true, t)
  {
    LiteralStarts(s, i, k, true, t);
  }

  /** A digit that is not percent-encoded stands for itself. */
  lemma DigitRaw(s: Text, k: nat, d: Text, p: nat)
    requires k <= |s| && p < |d| && AreOctets(s, k, d[p..]) && Peek(s, k) != '%' as int && (d[p] == '0' as int || d[p] == '1' as int)
    ensures k < |s| && s[k] == d[p] && IsOctet(s, k, k + 1, [d[p]]) && AreOctets(s, k + 1, d[p + 1..])
  {
    hide IsOctet;
    var j: nat, u: Text, v: Text :| k < j <= |s| && IsOctet(s, k, j, u) && AreOctets(s, j, v) && d[p..] == u + v;
    OctetShape(s, k, j, u);
    Behind(d, p, u, v);
    if |u| == 1 { assert u == [u[0]]; }
    RawOctet(s, k, j, u);
  }

  lemma TildeAgrees(s: Text, i: nat, k: nat, t: Text, names: seq<Text>, rest: seq<Text>)
    requires i < k < |s| && IsOctet(s, i, k, ['~' as int]) && IsOctet(s, k, k + 1, [s[k]]) && Agree(s, k + 1, rest)
    requires (s[k] == '0' as int && t == ['~' as int]) || (s[k] == '1' as int && t == ['/' as int])
    requires Some(names) == InFront(t, Some(rest))
    ensures Agree(s, i, names)
  {
    hide RestAt, EncodedSlash, SplitEscape, IsOctet, IsLiteral, StepAt, Agree;
    Occurs(s, i, k, ['~' as int]);
    Occurs(s, k, k + 1, [s[k]]);
    NotSlash(s, i, k, ['~' as int]);
    LiteralExactly(s, i, true);
    RestPiece(s, i, true);
    Lifts(s, i, k + 1, t, names, rest);
  }

  /** Any other character: none of its bytes is a slash or a tilde. */
  lemma NoSpecial(s: Text, i: nat, k: nat, u: Text)
    requires i < k <= |s| && IsOctet(s, i, k, u) && u != ['/' as int] && u != ['~' as int]
    ensures forall x :: 0 <= x < |u| ==> u[x] != '/' as int && u[x] != '~' as int
  {
    NotSlash(s, i, k, u);
    if |u| == 1 { assert u == [u[0]]; }
    if Utf8.Utf8Char(u) { Continues(u); }
  }

  /** The decoded text reads such bytes one by one. */
  lemma {:induction false} BytesRead(d: Text, p: nat, u: Text)
    requires p + |u| <= |d| && forall x :: 0 <= x < |u| ==> d[p + x] == u[x] && u[x] != '/' as int && u[x] != '~' as int
    ensures u != [] ==> RestAt(d, p, false) == InFront(u, RestAt(d, p + |u|, false))
    decreases |u|
  {
    hide RestAt;
    if u != [] {
      assert d[p + 0] == u[0];
      RestPiece(d, p, false);
      assert StepAt(d, p, false) == Some(([u[0]], p + 1));
      assert u == [u[0]] + u[1..];
      if |u| == 1 { assert u == [u[0]]; }
      if |u| > 1 {
        assert forall x :: 0 <= x < |u| - 1 ==> u[1..][x] == u[x + 1] == d[p + 1 + x];
        BytesRead(d, p + 1, u[1..]);
        InFrontTwice([u[0]], u[1..], RestAt(d, p + |u|, false));
      }
    }
  }

  lemma InFrontTwice(t: Text, u: Text, r: Option<seq<Text>>)
    ensures InFront(t, InFront(u, r)) == InFront(t + u, r)
  {
    if r.Some? && r.value != [] {
      assert t + (u + r.value[0]) == (t + u) + r.value[0];
      assert ([u + r.value[0]] + r.value[1..])[1..] == r.value[1..];
    }
  }

  lemma CharAgrees(s: Text, i: nat, k: nat, u: Text, names: seq<Text>, rest: seq<Text>)
    requires i < k <= |s| && IsOctet(s, i, k, u) && u != ['/' as int] && u != ['~' as int] && Agree(s, k, rest)
    requires Some(names) == InFront(u, Some(rest))
    ensures Agree(s, i, names)
  {
    Occurs(s, i, k, u);
    NotSlash(s, i, k, u);
    LiteralExactly(s, i, true);
    RestPiece(s, i, true);
    if |u| == 1 { assert u == [u[0]]; }
    hide RestAt, EncodedSlash, SplitEscape, IsOctet, Agree;
    Lifts(s, i, k, u, names, rest);
  }

  lemma NothingLeft(s: Text, d: Text, p: nat, names: seq<Text>)
    requires p <= |d| && d[p..] == [] && RestAt(d, p, false) == Some(names)
    ensures Agree(s, |s|, names)
  {
    RestEnds(d, p, false);
    RestEnds(s, |s|, true);
    NothingBehind(s, |s|);
  }

  // ---------------------------------------------------------------- fragments

  lemma WholeRest(s: Text, i: nat, uri: bool)
    requires i < |s| && s[i] == '/' as int
    ensures RestAt(s, i, uri) == match NamesAt(s, i, uri) case None => None case Some(names) => Some([[]] + names)
  {
    EmptyName(s, i, uri);
    hide NameAt;
  }

  /** The first octet of a fragment, if there is any. */
  lemma FirstOctet(s: Text, i: nat, d: Text)
    requires i <= |s| && AreOctets(s, i, d)
    ensures i == |s| <==> d == []
    ensures i < |s| && s[i] != '/' as int && d[0] == '/' as int ==> EncodedSlash(s, i)
  {
    hide IsOctet, EncodedSlash;
    if !(i == |s| && d == []) {
      var k: nat, u: Text, v: Text :| i < k <= |s| && IsOctet(s, i, k, u) && AreOctets(s, k, v) && d == u + v;
      OctetShape(s, i, k, u);
      Occurs(s, i, k, u);
      if d[0] == '/' as int && |u| == 1 { assert u == [u[0]]; }
    }
  }

  lemma Stripped(a: seq<Text>, b: seq<Text>)
    ensures [[]] + a == [[]] + b <==> a == b
  {
    assert ([[]] + a)[1..] == a && ([[]] + b)[1..] == b;
  }

  lemma NothingBehind(s: Text, i: nat)
    requires i >= |s|
    ensures !EncodedSlash(s, i) && !SplitEscape(s, i)
  {
    forall k: nat | k >= i ensures Triplet(s, k).None? && !SplitAt(s, k) { }
  }

  /** For a fragment whose decoded text is a pointer, the code reads the same names exactly when
      no slash in it is percent-encoded, and no tilde has a percent-encoded character behind it. */
  lemma DecodedExactly(s: Text, d: Text, names: seq<Text>)
    requires IsFragment(s) && AreOctets(s, 1, d) && NamesAt(d, 0, false) == Some(names)
    ensures PointerNames(s) == Some(names) <==> !EncodedSlash(s, 1) && !SplitEscape(s, 1)
  {
    hide AreOctets, EncodedSlash, SplitEscape, NameAt, RestAt;
    FirstOctet(s, 1, d);
    if d == [] {
      NothingBehind(s, 1);
    } else if s[1] == '/' as int {
      assert d[0..] == d;
      WholeRest(d, 0, false);
      WholeRest(s, 1, true);
      BothRead(s, 1, d, 0, [[]] + names);
      if NamesAt(s, 1, true).Some? { Stripped(NamesAt(s, 1, true).value, names); }
    }
  }

  // ---------------------------------------------------------------- where they differ

  lemma LastName(s: Text, i: nat, uri: bool, t: Text)
    requires i < |s| && s[i] == '/' as int && NameAt(s, i + 1, uri).Some? && NameAt(s, i + 1, uri).value == (t, |s|)
    ensures NamesAt(s, i, uri) == Some([t])
  {
    assert NamesAt(s, |s|, uri) == Some([]);
    assert [t] + [] == [t];
  }

  lemma RefusedSplit()
    ensures PointerNames(Ascii("#/~%30")) == None
  {
    var s := Ascii("#/~%30");
    assert s == ['#' as int, '/' as int, '~' as int, '%' as int, '3' as int, '0' as int];
    assert StepAt(s, 2, true) == None;
    assert NameAt(s, 2, true) == None;
  }

  lemma PlainTilde()
    ensures PointerNames(Ascii("/~0")) == Some([['~' as int]])
  {
    var s := Ascii("/~0");
    assert s == ['/' as int, '~' as int, '0' as int];
    assert NameAt(s, 3, false).value == ([], 3);
    assert StepAt(s, 1, false).value == (['~' as int], 3);
    assert NameAt(s, 1, false) == Prefixed(['~' as int], NameAt(s, 3, false));
    assert ['~' as int] + [] == ['~' as int];
    LastName(s, 0, false, ['~' as int]);
  }

  lemma OneSlash()
    ensures PointerNames(Ascii("#/%2F")) == Some([['/' as int]])
  {
    var s := Ascii("#/%2F");
    assert s == ['#' as int, '/' as int, '%' as int, '2' as int, 'F' as int];
    assert NameAt(s, 5, true).value == ([], 5);
    assert Triplets(s, 5, 3) == [];
    assert Triplets(s, 2, 4) == ['/' as int];
    assert PercentChar(s, 2) == Some(['/' as int]);
    assert StepAt(s, 2, true).value == (['/' as int], 5);
    assert NameAt(s, 2, true).value == (['/' as int] + [], 5);
    LastName(s, 1, true, ['/' as int]);
  }

  lemma TwoSlashes()
    ensures PointerNames(Ascii("//")) == Some([[], []])
  {
    var s := Ascii("//");
    assert s == ['/' as int, '/' as int];
    assert NameAt(s, 2, false).value == ([], 2);
    LastName(s, 1, false, []);
    assert NameAt(s, 1, false).value == ([], 1);
    var empty: Text := [];
    assert [empty] + [empty] == [empty, empty];
  }

  /** `#/~%30` is refused, and `#/%2F` is one name, though their octets are `/~0` and `//`. */
  lemma DecodedDiffers()
    ensures PointerNames(Ascii("#/~%30")) == None && PointerNames(Ascii("/~0")) == Some([['~' as int]])
    ensures PointerNames(Ascii("#/%2F")) == Some([['/' as int]]) && PointerNames(Ascii("//")) == Some([[], []])
  {
    hide PointerNames;
    RefusedSplit();
    PlainTilde();
    OneSlash();
    TwoSlashes();
  }
}
