/** The grammar of JSON text, as section 2 of RFC 4627 writes it, with what it denotes: which
    parts of a text are strings, numbers, arrays, objects and values, and with which events.
    The flags add comments and trailing commas. What the parser takes for blanks, strings and
    numbers is what the grammar says. */
module JsonGrammar {
  import opened Options
  import opened Bytes
  import opened Numerals
  import opened JsonLexer
  import opened JsonParser
  import Utf8

  // ---------------------------------------------------------------- the grammar: blanks

  /** A comment between slashes and stars, up to the first end mark, or up to the end of the line. */
  ghost predicate IsComment(s: Text, i: nat, j: nat)
    requires i <= j <= |s|
  {
    && i + 2 <= j && s[i] == '/' as int
    && (|| (&& s[i + 1] == '*' as int && i + 4 <= j && s[j - 2] == '*' as int && s[j - 1] == '/' as int
            && (forall k :: i + 2 <= k < j ==> s[k] != 0)
            && (forall k :: i + 2 <= k < j - 2 ==> !(s[k] == '*' as int && s[k + 1] == '/' as int)))
        || (&& s[i + 1] == '/' as int && i + 3 <= j && s[j - 1] == '\n' as int && forall k :: i + 2 <= k < j - 1 ==> s[k] != 0 && s[k] != '\n' as int)
        || (&& s[i + 1] == '/' as int && Peek(s, j) == 0 && forall k :: i + 2 <= k < j ==> s[k] != 0 && s[k] != '\n' as int))
  }

  ghost predicate Gap(s: Text, i: nat, j: nat, comments: bool)
    requires i <= j <= |s|
    decreases j - i
  {
    || i == j
    || (IsBlank(s[i]) && Gap(s, i + 1, j, comments))
    || (comments && exists k :: i < k <= j && IsComment(s, i, k) && Gap(s, k, j, comments))
  }

  // ---------------------------------------------------------------- the grammar: strings

  /** Four hexadecimal digits for the number `u`. */
  ghost predicate IsHex4(s: Text, i: nat, u: nat) {
    i + 4 <= |s| && exists x: nat, y: nat, z: nat, w: nat :: AreHex(s, i, x, y, z, w) && u == 0x1000 * x + 0x100 * y + 0x10 * z + w
  }

  ghost predicate AreHex(s: Text, i: nat, x: nat, y: nat, z: nat, w: nat)
    requires i + 4 <= |s|
  {
    IsHex(s[i], x) && IsHex(s[i + 1], y) && IsHex(s[i + 2], z) && IsHex(s[i + 3], w)
  }

  /** An escaped unit of UTF-16. */
  ghost predicate IsUnit(s: Text, i: nat, u: nat) {
    i + 6 <= |s| && s[i] == '\\' as int && s[i + 1] == 'u' as int && IsHex4(s, i + 2, u)
  }

  /** The byte for the letter behind a backslash. */
  ghost predicate LetterMeans(letter: Byte, b: Byte) {
    || (b == letter && (letter == '"' as int || letter == '\\' as int || letter == '/' as int))
    || (letter == 'b' as int && b == 0x08)
    || (letter == 'f' as int && b == 0x0C)
    || (letter == 'n' as int && b == 0x0A)
    || (letter == 'r' as int && b == 0x0D)
    || (letter == 't' as int && b == 0x09)
  }

  /** A pair of surrogates, for the character `0x10000 + x`. */
  ghost predicate IsPair(s: Text, i: nat, x: nat) {
    x < 0x100000 && IsUnit(s, i, 0xD800 + x / 0x400) && IsUnit(s, i + 6, 0xDC00 + x % 0x400)
  }

  /** One character of a string, and its bytes. A high surrogate needs its low one, which the
      grammar of the standard leaves open. */
  ghost predicate IsCharacter(s: Text, i: nat, j: nat, t: Text)
    requires i < j <= |s|
  {
    || (j == i + 1 && s[i] >= 0x20 && s[i] != '"' as int && s[i] != '\\' as int && t == [s[i]])
    || (j == i + 2 && s[i] == '\\' as int && exists b: Byte :: LetterMeans(s[i + 1], b) && t == [b])
    || (j == i + 6 && exists u: nat :: IsUnit(s, i, u) && u <= 0xFFFF && !(0xD800 <= u <= 0xDBFF) && t == Utf8.Encode(u))
    || (j == i + 12 && exists x: nat :: IsPair(s, i, x) && t == Utf8.Encode(0x10000 + x))
  }

  ghost predicate IsCharacters(s: Text, i: nat, j: nat, t: Text)
    requires i <= j <= |s|
    decreases j - i
  {
    || (i == j && t == [])
    || exists k: nat, u: Text, v: Text :: i < k <= j && IsCharacter(s, i, k, u) && IsCharacters(s, k, j, v) && t == u + v
  }

  ghost predicate IsString(s: Text, i: nat, j: nat, t: Text)
    requires i <= j <= |s|
  {
    i + 2 <= j && s[i] == '"' as int && s[j - 1] == '"' as int && IsCharacters(s, i + 1, j - 1, t)
  }

  // ---------------------------------------------------------------- the grammar: scalars

  ghost predicate DigitRun(s: Text, i: nat, j: nat)
    requires i <= j <= |s|
  {
    i < j && forall k :: i <= k < j ==> IsDigit(s[k])
  }

  ghost predicate IsInteger(s: Text, i: nat, j: nat)
    requires i <= j <= |s|
  {
    DigitRun(s, i, j) && (s[i] == '0' as int ==> j == i + 1)
  }

  ghost predicate IsFraction(s: Text, i: nat, j: nat)
    requires i <= j <= |s|
  {
    i == j || (s[i] == '.' as int && DigitRun(s, i + 1, j))
  }

  ghost predicate IsExponent(s: Text, i: nat, j: nat)
    requires i <= j <= |s|
  {
    || i == j
    || (s[i] in Ascii("eE") && DigitRun(s, i + 1, j))
    || (i + 2 <= j && s[i] in Ascii("eE") && s[i + 1] in Ascii("+-") && DigitRun(s, i + 2, j))
  }

  /** A number from `i` to `j`, its integer from `start` to `a` and its fraction up to `b`. */
  ghost predicate NumberParts(s: Text, i: nat, j: nat, start: nat, a: nat, b: nat)
    requires i <= j <= |s|
  {
    && i <= start < a <= b <= j && (start == i || (start == i + 1 && s[i] == '-' as int))
    && IsInteger(s, start, a) && IsFraction(s, a, b) && IsExponent(s, b, j)
  }

  /** What a number reports: an integer of 64 bits by the smallest kind for its sign, anything
      else by its text, unless it is too big. */
  ghost predicate NumberMeans(env: Env, i: nat, j: nat, start: nat, a: nat, v: Scalar)
    requires i <= start <= a <= j <= |env.s| && IsInteger(env.s, start, a)
  {
    var n := Decimal(env.s[start..a]);
    if a == j && start == i && n < 0x1_0000_0000_0000_0000 then
      if n < 0x1_0000_0000 then v == Uint(n) else v == Uint64(n)
    else if a == j && start > i && n <= 0x8000_0000_0000_0000 then
      if n <= 0x8000_0000 then v == Int(0 - n) else v == Int64(0 - n)
    else v == Double(env.s[i..j]) && !env.tooBig(env.s[i..j])
  }

  ghost predicate IsNumber(env: Env, i: nat, j: nat, v: Scalar)
    requires i <= j <= |env.s|
  {
    exists start: nat, a: nat, b: nat :: NumberParts(env.s, i, j, start, a, b) && NumberMeans(env, i, j, start, a, v)
  }

  ghost predicate IsScalar(env: Env, i: nat, j: nat, v: Scalar)
    requires i <= j <= |env.s|
  {
    || (env.s[i..j] == Ascii("null") && v == Null)
    || (env.s[i..j] == Ascii("true") && v == Bool(true))
    || (env.s[i..j] == Ascii("false") && v == Bool(false))
    || (exists t :: IsString(env.s, i, j, t) && v == String(t))
    || IsNumber(env, i, j, v)
  }

  // ---------------------------------------------------------------- the grammar: values

  ghost predicate IsGap(env: Env, i: nat, j: nat)
    requires i <= j <= |env.s|
  {
    Gap(env.s, i, j, env.flags.comments)
  }

  ghost predicate IsValue(env: Env, i: nat, j: nat, es: seq<Event>)
    requires i <= j <= |env.s|
    decreases j - i, 0
  {
    || (exists v :: IsScalar(env, i, j, v) && es == [Value(v)])
    || (i + 2 <= j && env.s[i] == '[' as int && env.s[j - 1] == ']' as int && IsArray(env, i + 1, j - 1, es))
    || (i + 2 <= j && env.s[i] == '{' as int && env.s[j - 1] == '}' as int && IsObject(env, i + 1, j - 1, es))
  }

  ghost function Joined(parts: seq<seq<Event>>): seq<Event> {
    if parts == [] then [] else parts[0] + Joined(parts[1..])
  }

  ghost predicate IsArray(env: Env, i: nat, j: nat, es: seq<Event>)
    requires i <= j <= |env.s|
    decreases j - i, 3
  {
    || (IsGap(env, i, j) && es == [StartArray, EndArray(0)])
    || exists parts :: IsElements(env, i, j, parts) && es == [StartArray] + Joined(parts) + [EndArray(|parts|)]
  }

  ghost predicate IsObject(env: Env, i: nat, j: nat, es: seq<Event>)
    requires i <= j <= |env.s|
    decreases j - i, 4
  {
    || (IsGap(env, i, j) && es == [StartObject, EndObject(0)])
    || exists parts :: IsMembers(env, i, j, parts) && es == [StartObject] + Joined(parts) + [EndObject(|parts|)]
  }

  /** A value with blanks around it. */
  ghost predicate IsPadded(env: Env, i: nat, j: nat, es: seq<Event>)
    requires i <= j <= |env.s|
    decreases j - i, 1
  {
    exists a, b :: i <= a <= b <= j && IsGap(env, i, a) && IsValue(env, a, b, es) && IsGap(env, b, j)
  }

  /** Nothing more behind a comma, if trailing commas are allowed. */
  ghost predicate IsTrailing(env: Env, i: nat, j: nat)
    requires i <= j <= |env.s|
  {
    i < j && env.flags.trailingCommas && env.s[i] == ',' as int && IsGap(env, i + 1, j)
  }

  ghost predicate IsElements(env: Env, i: nat, j: nat, parts: seq<seq<Event>>)
    requires i <= j <= |env.s|
    decreases j - i, 2
  {
    && parts != []
    && exists c :: (i <= c <= j && IsPadded(env, i, c, parts[0])
                    && if |parts| == 1 then c == j || IsTrailing(env, c, j)
                       else c < j && env.s[c] == ',' as int && IsElements(env, c + 1, j, parts[1..]))
  }

  ghost predicate IsMember(env: Env, i: nat, j: nat, es: seq<Event>)
    requires i <= j <= |env.s|
    decreases j - i, 2
  {
    exists a, b, c, t, fs ::
      && i <= a <= b <= c < j && IsGap(env, i, a) && IsString(env.s, a, b, t) && IsGap(env, b, c)
      && env.s[c] == ':' as int && IsPadded(env, c + 1, j, fs) && es == [Key(t)] + fs
  }

  ghost predicate IsMembers(env: Env, i: nat, j: nat, parts: seq<seq<Event>>)
    requires i <= j <= |env.s|
    decreases j - i, 3
  {
    && parts != []
    && exists c :: (i <= c <= j && IsMember(env, i, c, parts[0])
                    && if |parts| == 1 then c == j || IsTrailing(env, c, j)
                       else c < j && env.s[c] == ',' as int && IsMembers(env, c + 1, j, parts[1..]))
  }

  // ---------------------------------------------------------------- where a number ends

  /** Nothing behind the parts of a number continues any of them. */
  ghost predicate PartsEnd(s: Text, start: nat, a: nat, b: nat, j: nat)
    requires start < a <= b <= j <= |s|
  {
    && (s[start] == '0' as int || !IsDigit(Peek(s, a)))
    && (if a == b then Peek(s, a) != '.' as int else !IsDigit(Peek(s, b)))
    && (if b == j then !IsExponentLetter(Peek(s, b)) else !IsDigit(Peek(s, j)))
  }

  predicate IsExponentLetter(c: Byte) {
    c == 'e' as int || c == 'E' as int
  }

  /** If a number stands there, it is not continued. */
  ghost predicate Ended(s: Text, i: nat, j: nat)
    requires i <= j <= |s|
  {
    forall start: nat, a: nat, b: nat :: NumberParts(s, i, j, start, a, b) ==> PartsEnd(s, start, a, b, j)
  }

  /** A document: one value with blanks around it, up to the end or a zero byte; or, if the
      parser is to stop there, a value. */
  ghost predicate IsDocument(env: Env, n: nat, es: seq<Event>) {
    && n <= |env.s|
    && if env.flags.stopWhenDone then exists a :: 0 <= a <= n && IsGap(env, 0, a) && IsValue(env, a, n, es) && Ended(env.s, a, n)
       else Peek(env.s, n) == 0 && IsPadded(env, 0, n, es)
  }

  // ---------------------------------------------------------------- blanks

  /** The byte behind a gap that ends there. */
  predicate BehindGap(c: Byte, comments: bool) {
    !IsBlank(c) && (comments ==> c != '/' as int)
  }

  lemma {:induction false} BlockEndIs(s: Text, i: nat, j: nat)
    requires i + 2 <= j <= |s| && s[j - 2] == '*' as int && s[j - 1] == '/' as int && (forall k :: i <= k < j ==> s[k] != 0)
    requires forall k :: i <= k < j - 2 ==> !(s[k] == '*' as int && s[k + 1] == '/' as int)
    ensures BlockEnd(s, i) == Some(j)
    decreases j - i
  {
    if i < j - 2 { BlockEndIs(s, i + 1, j); }
  }

  lemma {:induction false} BlockEndSound(s: Text, i: nat)
    requires BlockEnd(s, i).Some?
    ensures var j := BlockEnd(s, i).value;
      && i + 2 <= j <= |s| && s[j - 2] == '*' as int && s[j - 1] == '/' as int && (forall k :: i <= k < j ==> s[k] != 0)
      && forall k :: i <= k < j - 2 ==> !(s[k] == '*' as int && s[k + 1] == '/' as int)
    decreases |s| - i
  {
    if !(s[i] == '*' as int && Peek(s, i + 1) == '/' as int) { BlockEndSound(s, i + 1); }
  }

  lemma {:induction false} LineEndIs(s: Text, i: nat, j: nat)
    requires i <= j <= |s|
    requires || (i < j && s[j - 1] == '\n' as int && forall k :: i <= k < j - 1 ==> s[k] != 0 && s[k] != '\n' as int)
             || (Peek(s, j) == 0 && forall k :: i <= k < j ==> s[k] != 0 && s[k] != '\n' as int)
    ensures LineEnd(s, i) == j
    decreases j - i
  {
    if i < j && s[i] != '\n' as int { LineEndIs(s, i + 1, j); }
  }

  lemma {:induction false} LineEndSound(s: Text, i: nat)
    requires i <= |s|
    ensures var j := LineEnd(s, i);
      && i <= j <= |s|
      && (|| (i < j && s[j - 1] == '\n' as int && forall k :: i <= k < j - 1 ==> s[k] != 0 && s[k] != '\n' as int)
          || (Peek(s, j) == 0 && forall k :: i <= k < j ==> s[k] != 0 && s[k] != '\n' as int))
    decreases |s| - i
  {
    if i < |s| && s[i] != 0 && s[i] != '\n' as int { LineEndSound(s, i + 1); }
  }

  /** A comment is taken exactly. */
  lemma CommentExactly(s: Text, i: nat, j: nat)
    requires i < j <= |s| && s[i] == '/' as int
    ensures IsComment(s, i, j) <==> CommentEnd(s, i) == Some(j)
  {
    hide BlockEnd, LineEnd;
    if IsComment(s, i, j) {
      if s[i + 1] == '*' as int { BlockEndIs(s, i + 2, j); } else { LineEndIs(s, i + 2, j); }
    }
    if CommentEnd(s, i) == Some(j) {
      if Peek(s, i + 1) == '*' as int { BlockEndSound(s, i + 2); } else { LineEndSound(s, i + 2); }
    }
  }

  lemma SkipStep(s: Text, i: nat, comments: bool)
    requires i < |s|
    ensures IsBlank(s[i]) ==> SkipAt(s, i, comments) == SkipAt(s, i + 1, comments)
    ensures comments && s[i] == '/' as int && CommentEnd(s, i).Some? ==> SkipAt(s, i, comments) == SkipAt(s, CommentEnd(s, i).value, comments)
  {
    hide CommentEnd;
  }

  lemma {:induction false} GapIsSkipped(s: Text, i: nat, j: nat, comments: bool)
    requires i <= j <= |s| && Gap(s, i, j, comments) && BehindGap(Peek(s, j), comments)
    ensures SkipAt(s, i, comments) == Some(j)
    decreases j - i
  {
    hide IsComment;
    if i < j {
      SkipStep(s, i, comments);
      if IsBlank(s[i]) && Gap(s, i + 1, j, comments) {
        GapIsSkipped(s, i + 1, j, comments);
      } else {
        var k :| i < k <= j && IsComment(s, i, k) && Gap(s, k, j, comments);
        CommentStarts(s, i, k);
        CommentExactly(s, i, k);
        GapIsSkipped(s, k, j, comments);
      }
    }
  }

  lemma CommentStarts(s: Text, i: nat, j: nat)
    requires i <= j <= |s| && IsComment(s, i, j)
    ensures i < j && s[i] == '/' as int
  {
  }

  lemma {:induction false} SkippedIsGap(s: Text, i: nat, comments: bool)
    requires i <= |s| && SkipAt(s, i, comments).Some?
    ensures var j := SkipAt(s, i, comments).value; Gap(s, i, j, comments) && BehindGap(Peek(s, j), comments)
    decreases |s| - i
  {
    hide IsComment, CommentEnd;
    if i < |s| {
      SkipStep(s, i, comments);
      if IsBlank(s[i]) {
        SkippedIsGap(s, i + 1, comments);
      } else if comments && s[i] == '/' as int {
        var k := CommentEnd(s, i).value;
        CommentInside(s, i);
        CommentExactly(s, i, k);
        SkippedIsGap(s, k, comments);
      }
    }
  }

  lemma CommentInside(s: Text, i: nat)
    requires i < |s| && CommentEnd(s, i).Some?
    ensures i < CommentEnd(s, i).value <= |s|
  {
  }

  // ---------------------------------------------------------------- strings

  /** The value of four hexadecimal digits. */
  lemma Hex4Value(s: Text, i: nat)
    ensures Hex4(s, i).Some? <==>
      HexDigit(Peek(s, i)).Some? && HexDigit(Peek(s, i + 1)).Some? && HexDigit(Peek(s, i + 2)).Some? && HexDigit(Peek(s, i + 3)).Some?
    ensures Hex4(s, i).Some? ==>
      Hex4(s, i).value == 0x1000 * HexDigit(Peek(s, i)).value + 0x100 * HexDigit(Peek(s, i + 1)).value
                          + 0x10 * HexDigit(Peek(s, i + 2)).value + HexDigit(Peek(s, i + 3)).value
  {
    hide HexDigit;
    Hex4Is(s, i);
    HexStep(s, i, 4, 0);
    var x := HexDigit(Peek(s, i));
    if x.Some? {
      HexStep(s, i + 1, 3, x.value);
      var y := HexDigit(Peek(s, i + 1));
      if y.Some? {
        HexStep(s, i + 2, 2, x.value * 16 + y.value);
        var z := HexDigit(Peek(s, i + 2));
        if z.Some? {
          var n := (x.value * 16 + y.value) * 16 + z.value;
          HexStep(s, i + 3, 1, n);
          if HexDigit(Peek(s, i + 3)).Some? { HexEnd(s, i + 4, n * 16 + HexDigit(Peek(s, i + 3)).value); }
        }
      }
    }
  }

  lemma Hex4Exactly(s: Text, i: nat, u: nat)
    ensures IsHex4(s, i, u) <==> Hex4(s, i) == Some(u)
  {
    hide HexDigit, IsHex, Hex4;
    Hex4Value(s, i);
    Hex4Inside(s, i);
    if IsHex4(s, i, u) {
      var x: nat, y: nat, z: nat, w: nat :| AreHex(s, i, x, y, z, w) && u == 0x1000 * x + 0x100 * y + 0x10 * z + w;
      HexDigitsAre(s[i], x); HexDigitsAre(s[i + 1], y); HexDigitsAre(s[i + 2], z); HexDigitsAre(s[i + 3], w);
    }
    if Hex4(s, i) == Some(u) {
      var x, y, z, w := HexDigit(s[i]).value, HexDigit(s[i + 1]).value, HexDigit(s[i + 2]).value, HexDigit(s[i + 3]).value;
      HexDigitsAre(s[i], x); HexDigitsAre(s[i + 1], y); HexDigitsAre(s[i + 2], z); HexDigitsAre(s[i + 3], w);
      assert AreHex(s, i, x, y, z, w);
    }
  }

  lemma Hex4Inside(s: Text, i: nat)
    ensures Hex4(s, i).Some? ==> i + 4 <= |s| && Hex4(s, i).value <= 0xFFFF
  {
  }

  lemma LettersEscape(c: Byte, b: Byte)
    ensures LetterMeans(c, b) <==> Escape(c) != 0 && Escape(c) == b
  {
  }

  /** The code point and the end of an escape, by the grammar. */
  ghost predicate IsEscape(s: Text, i: nat, j: nat, cp: nat) {
    || (j == i + 6 && IsUnit(s, i, cp) && cp <= 0xFFFF && !(0xD800 <= cp <= 0xDBFF))
    || (j == i + 12 && 0x10000 <= cp && IsPair(s, i, cp - 0x10000))
  }

  lemma UnicodeExactly(s: Text, i: nat, j: nat, cp: nat)
    requires Peek(s, i) == '\\' as int && Peek(s, i + 1) == 'u' as int
    ensures IsEscape(s, i, j, cp) <==> UnicodeAt(s, i + 2) == Some((cp, j))
  {
    hide Hex4, IsHex4;
    Hex4Inside(s, i + 2);
    Hex4Inside(s, i + 8);
    if Hex4(s, i + 2).Some? { Hex4Exactly(s, i + 2, Hex4(s, i + 2).value); }
    if Hex4(s, i + 8).Some? { Hex4Exactly(s, i + 8, Hex4(s, i + 8).value); }
    if IsEscape(s, i, j, cp) {
      if j == i + 6 {
        Hex4Exactly(s, i + 2, cp);
      } else {
        var x := cp - 0x10000;
        Hex4Exactly(s, i + 2, 0xD800 + x / 0x400);
        Hex4Exactly(s, i + 8, 0xDC00 + x % 0x400);
      }
    }
    if UnicodeAt(s, i + 2) == Some((cp, j)) && j != i + 6 {
      Halves(Hex4(s, i + 2).value - 0xD800, Hex4(s, i + 8).value - 0xDC00);
    }
  }

  lemma Halves(h: nat, l: nat)
    requires h < 0x400 && l < 0x400
    ensures (h * 0x400 + l) / 0x400 == h && (h * 0x400 + l) % 0x400 == l && h * 0x400 + l < 0x100000
  {
  }

  /** Reading a string goes on behind its first character. */
  lemma StringStep(s: Text, i: nat, j: nat, t: Text)
    requires i < j <= |s| && IsCharacter(s, i, j, t)
    ensures StringAt(s, i) == Prefixed(t, StringAt(s, j))
  {
    hide UnicodeAt, Escape, LetterMeans, IsPair, IsUnit, Utf8.Encode;
    if j == i + 1 && s[i] != '\\' as int {
    } else if j == i + 2 {
      var b: Byte :| LetterMeans(s[i + 1], b) && t == [b];
      LettersEscape(s[i + 1], b);
    } else {
      UnitStarts(s, i, j, t);
      var cp: nat :| IsEscape(s, i, j, cp) && cp <= 0x10FFFF && t == Utf8.Encode(cp);
      UnicodeExactly(s, i, j, cp);
      UIsNoLetter();
    }
  }

  lemma UnitStarts(s: Text, i: nat, j: nat, t: Text)
    requires i < j <= |s| && IsCharacter(s, i, j, t) && j > i + 2
    ensures s[i] == '\\' as int && s[i + 1] == 'u' as int
    ensures exists cp: nat :: IsEscape(s, i, j, cp) && cp <= 0x10FFFF && t == Utf8.Encode(cp)
  {
    hide IsHex4, Utf8.Encode;
    if j == i + 12 {
      var x: nat :| IsPair(s, i, x) && t == Utf8.Encode(0x10000 + x);
      assert IsEscape(s, i, j, 0x10000 + x);
    } else {
      var u: nat :| IsUnit(s, i, u) && u <= 0xFFFF && !(0xD800 <= u <= 0xDBFF) && t == Utf8.Encode(u);
      assert IsEscape(s, i, j, u);
    }
  }

  lemma UIsNoLetter()
    ensures Escape('u' as int) == 0 && Escape(0) == 0
  {
  }

  lemma {:induction false} StringComplete(s: Text, i: nat, j: nat, t: Text)
    requires i <= j < |s| && IsCharacters(s, i, j, t) && s[j] == '"' as int
    ensures StringAt(s, i) == Some((t, j + 1))
    decreases j - i
  {
    hide IsCharacter;
    if !(i == j && t == []) {
      var k: nat, u: Text, v: Text :| i < k <= j && IsCharacter(s, i, k, u) && IsCharacters(s, k, j, v) && t == u + v;
      StringComplete(s, k, j, v);
      StringStep(s, i, k, u);
    }
  }

  /** The first character of what the parser takes. */
  lemma FirstCharacter(s: Text, i: nat) returns (j: nat, t: Text)
    requires StringAt(s, i).Some? && Peek(s, i) != '"' as int
    ensures i < j <= |s| && IsCharacter(s, i, j, t) && StringAt(s, j).Some?
  {
    hide UnicodeAt, Escape, LetterMeans, IsPair, IsUnit, Utf8.Encode;
    if Peek(s, i) == '\\' as int {
      var e := Peek(s, i + 1);
      LettersEscape(e, Escape(e));
      UIsNoLetter();
      if Escape(e) != 0 {
        j, t := i + 2, [Escape(e)];
      } else {
        var (cp, k) := UnicodeAt(s, i + 2).value;
        UnicodeExactly(s, i, k, cp);
        j, t := k, Utf8.Encode(cp);
        EscapeIsCharacter(s, i, j, cp);
      }
    } else {
      j, t := i + 1, [s[i]];
    }
  }

  lemma EscapeIsCharacter(s: Text, i: nat, j: nat, cp: nat)
    requires i < j <= |s| && IsEscape(s, i, j, cp) && cp <= 0x10FFFF
    ensures IsCharacter(s, i, j, Utf8.Encode(cp))
  {
    hide IsUnit, Utf8.Encode;
    if j == i + 12 { assert IsPair(s, i, cp - 0x10000); }
  }

  lemma {:induction false} StringSound(s: Text, i: nat)
    requires StringAt(s, i).Some?
    ensures var (t, j) := StringAt(s, i).value; i < j <= |s| && s[j - 1] == '"' as int && IsCharacters(s, i, j - 1, t)
    decreases |s| - i
  {
    if Peek(s, i) != '"' as int {
      var k, u := FirstCharacter(s, i);
      hide IsCharacter;
      StringStep(s, i, k, u);
      StringSound(s, k);
    }
  }

  // ---------------------------------------------------------------- numbers

  lemma {:induction false} RunEnds(s: Text, i: nat, j: nat)
    requires i <= j <= |s| && (i == j || DigitRun(s, i, j)) && !IsDigit(Peek(s, j))
    ensures DigitsEnd(s, i) == j
    decreases j - i
  {
    if i < j { RunEnds(s, i + 1, j); }
  }

  lemma ExponentLetters()
    ensures Ascii("eE") == ['e' as int, 'E' as int] && Ascii("+-") == ['+' as int, '-' as int]
  {
  }

  /** The three ends that the parser finds, for the parts of a number. */
  lemma PartsComplete(s: Text, i: nat, j: nat, start: nat, a: nat, b: nat)
    requires i <= j <= |s| && NumberParts(s, i, j, start, a, b) && PartsEnd(s, start, a, b, j)
    ensures IntegerEnd(s, start) == Some(a) && FractionEnd(s, a) == Some(b) && ExponentEnd(s, b) == Some(j)
    ensures i < j && (s[i] == '-' as int <==> start == i + 1) && IsDigit(s[start])
  {
    IntegerComplete(s, start, a);
    FractionComplete(s, a, b);
    ExponentComplete(s, b, j);
  }

  lemma IntegerComplete(s: Text, i: nat, a: nat)
    requires i <= a <= |s| && IsInteger(s, i, a) && (s[i] == '0' as int || !IsDigit(Peek(s, a)))
    ensures IntegerEnd(s, i) == Some(a)
  {
    if s[i] != '0' as int { RunEnds(s, i + 1, a); }
  }

  lemma FractionComplete(s: Text, a: nat, b: nat)
    requires a <= b <= |s| && IsFraction(s, a, b) && (if a == b then Peek(s, a) != '.' as int else !IsDigit(Peek(s, b)))
    ensures FractionEnd(s, a) == Some(b)
  {
    if a < b { RunEnds(s, a + 1, b); }
  }

  lemma ExponentComplete(s: Text, b: nat, j: nat)
    requires b <= j <= |s| && IsExponent(s, b, j) && (if b == j then !IsExponentLetter(Peek(s, b)) else !IsDigit(Peek(s, j)))
    ensures ExponentEnd(s, b) == Some(j)
  {
    ExponentLetters();
    if b < j {
      if DigitRun(s, b + 1, j) { RunEnds(s, b + 1, j); } else { RunEnds(s, b + 2, j); }
    }
  }

  lemma NumberComplete(env: Env, i: nat, j: nat, v: Scalar)
    requires i <= j <= |env.s| && IsNumber(env, i, j, v) && Ended(env.s, i, j)
    ensures NumberAt(env.s, i, env.tooBig) == Some((v, j))
    ensures i < j && (env.s[i] == '-' as int || IsDigit(env.s[i]))
  {
    hide IsInteger, IsFraction, IsExponent, PartsEnd, IntegerEnd, FractionEnd, ExponentEnd, Decimal;
    var start: nat, a: nat, b: nat :| NumberParts(env.s, i, j, start, a, b) && NumberMeans(env, i, j, start, a, v);
    PartsComplete(env.s, i, j, start, a, b);
  }

  /** There is one way only to see a number's parts. */
  lemma PartsUnique(s: Text, i: nat, j: nat, start: nat, a: nat, b: nat, start': nat, a': nat, b': nat)
    requires i <= j <= |s| && NumberParts(s, i, j, start, a, b) && NumberParts(s, i, j, start', a', b')
    ensures start == start' && a == a' && b == b'
  {
    ExponentLetters();
    assert start == start';
    IntegerStops(s, a, b, j);
    IntegerStops(s, a', b', j);
    assert a == a';
  }

  lemma IntegerStops(s: Text, a: nat, b: nat, j: nat)
    requires a <= b <= j <= |s| && IsFraction(s, a, b) && IsExponent(s, b, j)
    ensures a < j ==> !IsDigit(s[a])
    ensures b < j ==> !IsDigit(s[b]) && s[b] != '.' as int
  {
    ExponentLetters();
  }

  lemma NumberSound(env: Env, i: nat)
    requires NumberAt(env.s, i, env.tooBig).Some?
    ensures var (v, j) := NumberAt(env.s, i, env.tooBig).value; i < j <= |env.s| && IsNumber(env, i, j, v) && Ended(env.s, i, j)
  {
    hide PartsEnd, IntegerEnd, FractionEnd, ExponentEnd, Decimal, IsInteger, IsFraction, IsExponent;
    var s := env.s;
    var start := if Peek(s, i) == '-' as int then i + 1 else i;
    var a := IntegerEnd(s, start).value;
    var b := FractionEnd(s, a).value;
    var (v, j) := NumberAt(s, i, env.tooBig).value;
    PartsSound(s, i, start, j);
    assert NumberMeans(env, i, j, start, a, v);
    forall start': nat, a': nat, b': nat | NumberParts(s, i, j, start', a', b') ensures PartsEnd(s, start', a', b', j) {
      PartsUnique(s, i, j, start, a, b, start', a', b');
    }
  }

  lemma PartsSound(s: Text, i: nat, start: nat, j: nat)
    requires start == if Peek(s, i) == '-' as int then i + 1 else i
    requires IntegerEnd(s, start).Some? && FractionEnd(s, IntegerEnd(s, start).value).Some?
    requires ExponentEnd(s, FractionEnd(s, IntegerEnd(s, start).value).value) == Some(j)
    ensures i < j <= |s|
    ensures
      var a := IntegerEnd(s, start).value;
      var b := FractionEnd(s, a).value;
      start < a <= b <= j && IsInteger(s, start, a) && NumberParts(s, i, j, start, a, b) && PartsEnd(s, start, a, b, j)
  {
    IntegerSound(s, start);
    var a := IntegerEnd(s, start).value;
    FractionSound(s, a);
    var b := FractionEnd(s, a).value;
    ExponentSound(s, b);
    hide IntegerEnd, FractionEnd, ExponentEnd, IsInteger, IsFraction, IsExponent;
  }

  lemma IntegerSound(s: Text, i: nat)
    requires IntegerEnd(s, i).Some?
    ensures var a := IntegerEnd(s, i).value; i < a <= |s| && IsInteger(s, i, a) && (s[i] == '0' as int || !IsDigit(Peek(s, a)))
  {
  }

  lemma FractionSound(s: Text, a: nat)
    requires a <= |s| && FractionEnd(s, a).Some?
    ensures var b := FractionEnd(s, a).value;
      a <= b <= |s| && IsFraction(s, a, b) && (if a == b then Peek(s, a) != '.' as int else !IsDigit(Peek(s, b)))
  {
  }

  lemma ExponentSound(s: Text, b: nat)
    requires b <= |s| && ExponentEnd(s, b).Some?
    ensures var j := ExponentEnd(s, b).value;
      b <= j <= |s| && IsExponent(s, b, j) && (if b == j then !IsExponentLetter(Peek(s, b)) else !IsDigit(Peek(s, j)))
  {
    ExponentLetters();
  }

  // ---------------------------------------------------------------- scalars

  lemma WordsAre()
    ensures NULL == Ascii("null") == ['n' as int, 'u' as int, 'l' as int, 'l' as int]
    ensures TRUE == Ascii("true") == ['t' as int, 'r' as int, 'u' as int, 'e' as int]
    ensures FALSE == Ascii("false") == ['f' as int, 'a' as int, 'l' as int, 's' as int, 'e' as int]
  {
  }

  lemma WordIs(s: Text, i: nat, j: nat, word: Text)
    requires i <= j <= |s| && |word| > 0
    ensures s[i..j] == word <==> j == i + |word| && HasAt(s, i, word)
    ensures s[i..j] == word ==> s[i] == word[0]
  {
    if s[i..j] == word { assert s[i..j][0] == s[i]; }
  }

  /** A byte with which a value begins. */
  predicate First(c: Byte) {
    c > 0x20 && c != '/' as int && c != ',' as int && c != ']' as int && c != '}' as int
  }

  lemma ScalarComplete(env: Env, i: nat, j: nat, v: Scalar)
    requires i <= j <= |env.s| && IsScalar(env, i, j, v) && Ended(env.s, i, j)
    ensures ScalarAt(env.s, i, env.tooBig) == Some((v, j))
    ensures i < j && First(env.s[i]) && env.s[i] != '[' as int && env.s[i] != '{' as int
  {
    hide IsNumber, IsCharacters, NumberAt, StringAt, Ended, Ascii;
    var s := env.s;
    WordsAre();
    WordIs(s, i, j, NULL);
    WordIs(s, i, j, TRUE);
    WordIs(s, i, j, FALSE);
    if IsNumber(env, i, j, v) {
      NumberComplete(env, i, j, v);
    } else if t :| IsString(s, i, j, t) && v == String(t) {
      StringComplete(s, i + 1, j - 1, t);
    }
  }

  lemma ScalarSound(env: Env, i: nat)
    requires ScalarAt(env.s, i, env.tooBig).Some?
    ensures var (v, j) := ScalarAt(env.s, i, env.tooBig).value; i < j <= |env.s| && IsScalar(env, i, j, v) && Ended(env.s, i, j)
  {
    hide IsNumber, IsCharacters, NumberAt, StringAt, Ended, Ascii;
    var s := env.s;
    WordsAre();
    var c := Peek(s, i);
    var (v, j) := ScalarAt(s, i, env.tooBig).value;
    if c == 'n' as int {
      WordIs(s, i, j, NULL);
      NoNumber(s, i, j);
    } else if c == 't' as int {
      WordIs(s, i, j, TRUE);
      NoNumber(s, i, j);
    } else if c == 'f' as int {
      WordIs(s, i, j, FALSE);
      NoNumber(s, i, j);
    } else if c == '"' as int {
      StringSound(s, i + 1);
      NoNumber(s, i, j);
    } else {
      NumberSound(env, i);
    }
  }

  lemma NoNumber(s: Text, i: nat, j: nat)
    requires i < j <= |s| && s[i] != '-' as int && !IsDigit(s[i])
    ensures Ended(s, i, j)
  {
  }
}
