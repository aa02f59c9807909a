/** How the tokens of a pattern are written: each token with the texts that stand for it. The
    lexer reads exactly these texts. */
module RegexSpelling {
  import opened Options
  import opened RegexSyntax
  import opened RegexMachine
  import opened RegexLexer

  // ---------------------------------------------------------------- spellings

  /** The part of `s` from `i` to `j` is the one character `c`. */
  ghost predicate IsChar(s: seq<Code>, i: nat, j: nat, c: char)
    requires i <= j <= |s|
  {
    j == i + 1 && s[i] == c as int
  }

  /** The two characters `c` and `d`. */
  ghost predicate IsPair(s: seq<Code>, i: nat, j: nat, c: char, d: Code)
    requires i <= j <= |s|
  {
    j == i + 2 && s[i] == c as int && s[i + 1] == d
  }

  /** The letter after a backslash for a control character. */
  ghost predicate LetterFor(letter: Code, c: Code) {
    || (letter == 'f' as int && c == 0x0C)
    || (letter == 'n' as int && c == 0x0A)
    || (letter == 'r' as int && c == 0x0D)
    || (letter == 't' as int && c == 0x09)
    || (letter == 'v' as int && c == 0x0B)
  }

  /** Characters with a meaning of their own. */
  ghost predicate IsOperator(c: Code) {
    || c == '^' as int || c == '$' as int || c == '|' as int || c == '(' as int || c == ')' as int || c == '?' as int
    || c == '*' as int || c == '+' as int || c == '{' as int || c == '.' as int || c == '[' as int || c == '\\' as int
  }

  /** A backslash and a letter, or a character that loses its meaning. */
  ghost predicate SpellsEscape(s: seq<Code>, i: nat, j: nat, c: Code)
    requires i <= j <= |s|
  {
    || (IsPair(s, i, j, '\\', c) && (IsOperator(c) || c == ']' as int || c == '}' as int))
    || (exists letter :: LetterFor(letter, c) && IsPair(s, i, j, '\\', letter))
  }

  /** One character of a class. */
  ghost predicate SpellsElement(s: seq<Code>, i: nat, j: nat, c: Code)
    requires i <= j <= |s|
  {
    || (j == i + 1 && s[i] == c && c != '\\' as int && c != ']' as int)
    || SpellsEscape(s, i, j, c)
    || (IsPair(s, i, j, '\\', 'b' as int) && c == 0x08)
  }

  /** A range is two elements with a dash between them. */
  ghost predicate SpellsRange(s: seq<Code>, i: nat, j: nat, k: nat, r: ClassItem)
    requires i <= j < k <= |s|
  {
    s[j] == '-' as int && SpellsElement(s, i, j, r.first) && SpellsElement(s, j + 1, k, r.last)
  }

  /** A single character, not followed by a dash unless that is the last character. */
  ghost predicate SpellsSingle(s: seq<Code>, i: nat, j: nat, end: nat, r: ClassItem)
    requires i <= j <= end <= |s|
  {
    r.first == r.last && SpellsElement(s, i, j, r.first) && (j + 1 < end ==> s[j] != '-' as int)
  }

  /** The inside of a class up to `end`. */
  ghost predicate SpellsItems(s: seq<Code>, i: nat, end: nat, items: seq<ClassItem>)
    requires i <= end <= |s|
    decreases |items|
  {
    if items == [] then i == end
    else
      || (exists j :: i < j <= end && SpellsSingle(s, i, j, end, items[0]) && SpellsItems(s, j, end, items[1..]))
      || (exists j, k :: i <= j < k <= end && SpellsRange(s, i, j, k, items[0]) && SpellsItems(s, k, end, items[1..]))
  }

  /** A class between brackets, negated by a leading `^`. */
  ghost predicate SpellsClass(s: seq<Code>, i: nat, j: nat, negated: bool, items: seq<ClassItem>)
    requires i <= j <= |s|
  {
    && i + 2 <= j && s[i] == '[' as int && s[j - 1] == ']' as int && items != []
    && (if s[i + 1] == '^' as int then negated && i + 3 <= j && SpellsItems(s, i + 2, j - 1, items) else !negated && SpellsItems(s, i + 1, j - 1, items))
  }

  ghost predicate SpellsSym(s: seq<Code>, i: nat, j: nat, y: Sym)
    requires i <= j <= |s|
  {
    match y
    case Literal(c) => (j == i + 1 && s[i] == c && !IsOperator(c)) || SpellsEscape(s, i, j, c)
    case Any => IsChar(s, i, j, '.')
    case Class(negated, items) => SpellsClass(s, i, j, negated, items)
  }

  /** The number that the digits from `i` to `j` denote. */
  ghost function NumeralValue(s: seq<Code>, i: nat, j: nat): int
    requires i <= j <= |s|
    decreases j - i
  {
    if i == j then 0 else 10 * NumeralValue(s, i, j - 1) + (s[j - 1] - '0' as int)
  }

  /** Digits of a number of 32 bits. */
  ghost predicate SpellsNumber(s: seq<Code>, i: nat, j: nat, n: nat)
    requires i <= j <= |s|
  {
    i < j && (forall k :: i <= k < j ==> IsDigit(s[k])) && n == NumeralValue(s, i, j) && n <= 0xFFFF_FFFF
  }

  /** The largest number of 32 bits is no bound. */
  ghost predicate IsMost(m: nat, max: Bound) {
    if m == 0xFFFF_FFFF then max.Unlimited? else max == Upto(m)
  }

  /** `{n}`, `{n,}` and `{n,m}`. */
  ghost predicate SpellsCounted(s: seq<Code>, i: nat, j: nat, min: nat, max: Bound)
    requires i <= j <= |s|
  {
    && i + 2 <= j && s[i] == '{' as int && s[j - 1] == '}' as int
    && (|| (SpellsNumber(s, i + 1, j - 1, min) && IsMost(min, max))
        || (exists c :: i + 1 <= c < j - 1 && SpellsNumber(s, i + 1, c, min) && s[c] == ',' as int && c + 2 == j && max.Unlimited?)
        || (exists c, m: nat :: i + 1 <= c < j - 1 && SpellsNumber(s, i + 1, c, min) && s[c] == ',' as int && SpellsNumber(s, c + 1, j - 1, m) && min <= m && IsMost(m, max)))
  }

  ghost predicate SpellsQuantifier(s: seq<Code>, i: nat, j: nat, min: nat, max: Bound)
    requires i <= j <= |s|
  {
    || (IsChar(s, i, j, '?') && min == 0 && max == Upto(1))
    || (IsChar(s, i, j, '*') && min == 0 && max.Unlimited?)
    || (IsChar(s, i, j, '+') && min == 1 && max.Unlimited?)
    || SpellsCounted(s, i, j, min, max)
  }

  ghost predicate SpellsToken(s: seq<Code>, i: nat, j: nat, t: Token)
    requires i <= j <= |s|
  {
    match t
    case SymToken(y) => SpellsSym(s, i, j, y)
    case OpenToken => IsChar(s, i, j, '(')
    case CloseToken => IsChar(s, i, j, ')')
    case BarToken => IsChar(s, i, j, '|')
    case QuantifierToken(min, max) => SpellsQuantifier(s, i, j, min, max)
    case AnchorToken(begin) => IsChar(s, i, j, if begin then '^' else '$')
  }

  /** The rest of `s` from `i` on is the tokens, one after the other. */
  ghost predicate Spelled(s: seq<Code>, i: nat, ts: seq<Token>)
    requires i <= |s|
    decreases |ts|
  {
    if ts == [] then i == |s|
    else exists j :: i < j <= |s| && SpellsToken(s, i, j, ts[0]) && Spelled(s, j, ts[1..])
  }

  // ---------------------------------------------------------------- escapes

  lemma SelfEscapes(c: Code)
    ensures c < 128 && c as char in SELF_ESCAPES <==> IsOperator(c) || c == ']' as int || c == '}' as int
  {
    if c < 128 {
      assert SELF_ESCAPES == ['^', '$', '|', '(', ')', '?', '*', '+', '.', '[', ']', '{', '}', '\\'];
      assert c as char in SELF_ESCAPES <==>
        c as char == '^' || c as char == '$' || c as char == '|' || c as char == '(' || c as char == ')' || c as char == '?' || c as char == '*'
        || c as char == '+' || c as char == '.' || c as char == '[' || c as char == ']' || c as char == '{' || c as char == '}' || c as char == '\\';
    }
  }

  lemma EscapeExactly(s: seq<Code>, i: nat, j: nat, c: Code)
    requires i <= j <= |s|
    ensures SpellsEscape(s, i, j, c) <==> j == i + 2 && s[i] == '\\' as int && Escaped(s[i + 1]) == Some(c)
  {
    if j == i + 2 && s[i] == '\\' as int {
      SelfEscapes(s[i + 1]);
      NamedEscape(s[i + 1], c);
      if LetterFor(s[i + 1], c) { assert IsPair(s, i, j, '\\', s[i + 1]); }
    }
  }

  lemma NamedEscape(d: Code, c: Code)
    ensures Escaped(d) == Some(c) <==> ((IsOperator(d) || d == ']' as int || d == '}' as int) && c == d) || LetterFor(d, c)
  {
    SelfEscapes(d);
  }

  // ---------------------------------------------------------------- classes

  lemma ElementExactly(s: seq<Code>, i: nat, j: nat, c: Code)
    requires i < j <= |s| && s[i] != ']' as int
    ensures ElementAt(s, i) == Some((c, j)) <==> SpellsElement(s, i, j, c)
  {
    hide Escaped, SpellsEscape;
    EscapeExactly(s, i, j, c);
    BIsNoEscape(c);
  }

  lemma BIsNoEscape(c: Code)
    ensures Escaped('b' as int) != Some(c)
  {
  }

  lemma ElementStarts(s: seq<Code>, i: nat, j: nat, c: Code)
    requires i <= j <= |s| && SpellsElement(s, i, j, c)
    ensures i < j && s[i] != ']' as int
  {
  }

  /** A dash before the closing bracket stands for itself. */
  lemma DashLast(s: seq<Code>, j: nat)
    requires IsAt(s, j, '-') && IsAt(s, j + 1, ']')
    ensures ItemsAt(s, j).Some? && ItemsAt(s, j).value.1 == j + 2
  {
    assert ItemsAt(s, j + 1).value == ([], j + 2);
    assert ItemsAt(s, j) == ItemFrom(s, '-' as int, j + 1);
  }

  /** What the lexer takes for the inside of a class is one. */
  lemma {:induction false} ItemsSound(s: seq<Code>, i: nat)
    requires ItemsAt(s, i).Some?
    ensures var r := ItemsAt(s, i).value; i < r.1 <= |s| && s[r.1 - 1] == ']' as int && SpellsItems(s, i, r.1 - 1, r.0)
    decreases |s| - i, 0
  {
    hide ElementAt, SpellsElement;
    if !IsAt(s, i, ']') {
      var (c, j) := ElementAt(s, i).value;
      ElementExactly(s, i, j, c);
      assert ItemsAt(s, i) == ItemFrom(s, c, j);
      if IsAt(s, j, '-') && !IsAt(s, j + 1, ']') {
        assert ItemsAt(s, i) == RangeFrom(s, c, j + 1);
        var (d, k) := ElementAt(s, j + 1).value;
        ElementExactly(s, j + 1, k, d);
        ItemsSound(s, k);
        var (ys, e) := ItemsAt(s, k).value;
        assert SpellsRange(s, i, j, k, ClassItem(c, d));
        Split(ClassItem(c, d), ys);
      } else {
        ItemsSound(s, j);
        if IsAt(s, j, '-') { DashLast(s, j); }
        var (ys, e) := ItemsAt(s, j).value;
        assert SpellsSingle(s, i, j, e - 1, ClassItem(c, c));
        Split(ClassItem(c, c), ys);
      }
    }
  }

  lemma Split(x: ClassItem, ys: seq<ClassItem>)
    ensures ([x] + ys)[0] == x && ([x] + ys)[1..] == ys
  {
  }

  /** The inside of a class and its closing bracket are taken. */
  lemma {:induction false} ItemsComplete(s: seq<Code>, i: nat, end: nat, items: seq<ClassItem>)
    requires i <= end < |s| && s[end] == ']' as int && SpellsItems(s, i, end, items)
    ensures ItemsAt(s, i) == Some((items, end + 1))
    decreases |items|
  {
    hide ElementAt, SpellsElement;
    if items != [] {
      assert items == [items[0]] + items[1..];
      if j :| i < j <= end && SpellsSingle(s, i, j, end, items[0]) && SpellsItems(s, j, end, items[1..]) {
        ElementStarts(s, i, j, items[0].first);
        ElementExactly(s, i, j, items[0].first);
        ItemsComplete(s, j, end, items[1..]);
        assert ItemsAt(s, i) == ItemFrom(s, items[0].first, j);
      } else {
        var j, k :| i <= j < k <= end && SpellsRange(s, i, j, k, items[0]) && SpellsItems(s, k, end, items[1..]);
        ElementStarts(s, i, j, items[0].first);
        ElementExactly(s, i, j, items[0].first);
        ElementStarts(s, j + 1, k, items[0].last);
        ElementExactly(s, j + 1, k, items[0].last);
        ItemsComplete(s, k, end, items[1..]);
        assert ItemsAt(s, i) == ItemFrom(s, items[0].first, j) == RangeFrom(s, items[0].first, j + 1);
      }
    }
  }

  lemma ClassExactly(s: seq<Code>, i: nat, j: nat, y: Sym)
    requires i < j <= |s| && s[i] == '[' as int && y.Class?
    ensures ClassAt(s, i + 1) == Some((y, j)) <==> SpellsClass(s, i, j, y.negated, y.items)
  {
    hide ItemsAt, SpellsItems;
    if ClassAt(s, i + 1) == Some((y, j)) {
      ItemsSound(s, if y.negated then i + 2 else i + 1);
    }
    if SpellsClass(s, i, j, y.negated, y.items) {
      ItemsComplete(s, if y.negated then i + 2 else i + 1, j - 1, y.items);
    }
  }

  // ---------------------------------------------------------------- counted quantifiers

  /** Reading digits from the left gives their number. */
  lemma {:induction false} NumberIs(s: seq<Code>, i: nat, k: nat, j: nat, acc: nat)
    requires i <= k <= j <= |s| && acc == NumeralValue(s, i, k)
    requires (forall x :: k <= x < j ==> IsDigit(s[x])) && (j == |s| || !IsDigit(s[j]))
    ensures NumberFrom(s, k, acc) == (NumeralValue(s, i, j), j)
    decreases j - k
  {
    if k < j { NumberIs(s, i, k + 1, j, acc * 10 + (s[k] - '0' as int)); }
  }

  lemma {:induction false} NumberEnds(s: seq<Code>, i: nat, acc: nat)
    requires i <= |s|
    ensures var j := NumberFrom(s, i, acc).1; i <= j <= |s| && (forall x :: i <= x < j ==> IsDigit(s[x])) && (j == |s| || !IsDigit(s[j]))
    decreases |s| - i
  {
    if i < |s| && IsDigit(s[i]) { NumberEnds(s, i + 1, acc * 10 + (s[i] - '0' as int)); }
  }

  lemma NumberExactly(s: seq<Code>, i: nat, j: nat, n: nat)
    requires i <= j < |s| && !IsDigit(s[j])
    ensures NumberAt(s, i) == Some((n, j)) <==> SpellsNumber(s, i, j, n)
  {
    hide NumberFrom;
    NumberEnds(s, i, 0);
    NumberIs(s, i, i, NumberFrom(s, i, 0).1, 0);
    if SpellsNumber(s, i, j, n) { NumberIs(s, i, i, j, 0); }
  }

  lemma NumberStops(s: seq<Code>, i: nat)
    requires i <= |s| && NumberAt(s, i).Some?
    ensures var j := NumberAt(s, i).value.1; i < j <= |s| && (j == |s| || !IsDigit(s[j]))
  {
    hide NumberFrom;
    NumberEnds(s, i, 0);
  }

  lemma CountedSound(s: seq<Code>, i: nat)
    requires i < |s| && s[i] == '{' as int && BoundsAt(s, i + 1).Some?
    ensures var (n, m, j) := BoundsAt(s, i + 1).value; j <= |s| && SpellsCounted(s, i, j, n, BoundOf(m))
  {
    hide NumberAt, SpellsNumber;
    var (n, c) := NumberAt(s, i + 1).value;
    NumberStops(s, i + 1);
    NumberExactly(s, i + 1, c, n);
    if !IsAt(s, c, '}') && !IsAt(s, c + 1, '}') {
      var (m, k) := NumberAt(s, c + 1).value;
      NumberStops(s, c + 1);
      NumberExactly(s, c + 1, k, m);
      assert SpellsNumber(s, c + 1, k, m) && n <= m && IsMost(m, BoundOf(m));
    }
  }

  lemma CountedComplete(s: seq<Code>, i: nat, j: nat, min: nat, max: Bound)
    requires i <= j <= |s| && SpellsCounted(s, i, j, min, max)
    ensures BoundsAt(s, i + 1).Some?
    ensures var (n, m, k) := BoundsAt(s, i + 1).value; n == min && BoundOf(m) == max && k == j
  {
    hide NumberAt, SpellsNumber;
    if SpellsNumber(s, i + 1, j - 1, min) && IsMost(min, max) {
      NumberExactly(s, i + 1, j - 1, min);
    } else {
      var c :| i + 1 <= c < j - 1 && SpellsNumber(s, i + 1, c, min) && s[c] == ',' as int
        && ((c + 2 == j && max.Unlimited?) || exists m: nat :: SpellsNumber(s, c + 1, j - 1, m) && min <= m && IsMost(m, max));
      NumberExactly(s, i + 1, c, min);
      if m: nat :| SpellsNumber(s, c + 1, j - 1, m) && min <= m && IsMost(m, max) {
        NumberExactly(s, c + 1, j - 1, m);
        NumberStarts(s, c + 1, j - 1, m);
        assert BoundsAt(s, i + 1) == Some((min, m, j));
      } else {
        assert BoundsAt(s, i + 1) == Some((min, INFINITY, j));
      }
    }
  }

  lemma NumberStarts(s: seq<Code>, i: nat, j: nat, n: nat)
    requires i <= j <= |s| && SpellsNumber(s, i, j, n)
    ensures i < j && IsDigit(s[i])
  {
  }

  // ---------------------------------------------------------------- tokens

  /** The lexer takes a token exactly where it is spelled. */
  lemma TokenExactly(s: seq<Code>, i: nat, j: nat, t: Token)
    requires i < j <= |s|
    ensures TokenAt(s, i) == Some((t, j)) <==> SpellsToken(s, i, j, t)
  {
    hide BoundsAt, ClassAt, Escaped, SpellsCounted, SpellsClass, SpellsEscape;
    var c := s[i];
    if c == '{' as int {
      if BoundsAt(s, i + 1).Some? { CountedSound(s, i); }
      if t.QuantifierToken? && SpellsCounted(s, i, j, t.min, t.max) { CountedComplete(s, i, j, t.min, t.max); }
    }
    if c == '[' as int && t.SymToken? && t.sym.Class? { ClassExactly(s, i, j, t.sym); }
    if t.SymToken? && t.sym.Literal? { EscapeExactly(s, i, j, t.sym.code); }
    Openings(s, i, j, t);
  }

  /** How the longer spellings begin. */
  lemma Openings(s: seq<Code>, i: nat, j: nat, t: Token)
    requires i < j <= |s|
    ensures t.QuantifierToken? && SpellsCounted(s, i, j, t.min, t.max) ==> s[i] == '{' as int
    ensures t.SymToken? && t.sym.Class? && SpellsClass(s, i, j, t.sym.negated, t.sym.items) ==> s[i] == '[' as int
    ensures s[i] == '[' as int && ClassAt(s, i + 1).Some? ==> ClassAt(s, i + 1).value.0.Class?
  {
  }

  /** The lexer reads a pattern as those tokens that it spells, and as no others. */
  lemma {:induction false} LexedExactly(s: seq<Code>, i: nat, ts: seq<Token>)
    requires i <= |s|
    ensures TokensFrom(s, i) == Some(ts) <==> Spelled(s, i, ts)
    decreases |ts|
  {
    hide TokenAt, SpellsToken;
    if i < |s| && TokenAt(s, i).Some? {
      var (t, j) := TokenAt(s, i).value;
      TokenInside(s, i);
      TokenExactly(s, i, j, t);
      if ts != [] {
        LexedExactly(s, j, ts[1..]);
        assert ts == [ts[0]] + ts[1..];
      }
    }
    if ts != [] && Spelled(s, i, ts) {
      var j :| i < j <= |s| && SpellsToken(s, i, j, ts[0]) && Spelled(s, j, ts[1..]);
      TokenExactly(s, i, j, ts[0]);
    }
  }

  lemma TokenInside(s: seq<Code>, i: nat)
    requires i < |s| && TokenAt(s, i).Some?
    ensures i < TokenAt(s, i).value.1 <= |s|
  {
    hide BoundsAt, Escaped;
    if s[i] == '{' as int { CountedSound(s, i); }
  }

  // ---------------------------------------------------------------- counts of more than 32 bits

  /** What 32 bits hold of a number. */
  function LowWord(v: int): nat {
    v % 0x1_0000_0000
  }

  /** The overflow test refuses the digit at `k`, given what 32 bits hold of those before it. */
  ghost predicate Refuses(s: seq<Code>, i: nat, k: nat)
    requires i <= k < |s|
  {
    LowWord(NumeralValue(s, i, k)) >= 429496729 && s[k] > '5' as int
  }

  lemma LowStep(v: int, d: int)
    ensures LowWord(LowWord(v) * 10 + d) == LowWord(10 * v + d)
  {
  }

  /** Without a refusal the number comes out modulo 2^32. */
  lemma {:induction false} ReadIs(s: seq<Code>, i: nat, k: nat, j: nat)
    requires i <= k <= j <= |s| && (forall x :: i <= x < j ==> IsDigit(s[x])) && (j == |s| || !IsDigit(s[j]))
    requires NumeralValue(s, i, k) >= 0
    ensures NumeralValue(s, i, j) >= 0
    ensures ReadFrom(s, k, LowWord(NumeralValue(s, i, k))) ==
      if exists x :: k <= x < j && Refuses(s, i, x) then None else Some((LowWord(NumeralValue(s, i, j)), j))
    decreases j - k
  {
    if k < j {
      var v, d := NumeralValue(s, i, k), s[k] - '0' as int;
      assert NumeralValue(s, i, k + 1) == 10 * v + d;
      LowStep(v, d);
      assert ReadFrom(s, k, LowWord(v)) == if Refuses(s, i, k) then None else ReadFrom(s, k + 1, LowWord(10 * v + d));
      ReadIs(s, i, k + 1, j);
      assert (exists x :: k <= x < j && Refuses(s, i, x)) <==> Refuses(s, i, k) || exists x :: k + 1 <= x < j && Refuses(s, i, x);
    }
  }

  /** A number is read right exactly when it has 32 bits or one of its digits is refused. */
  lemma ReadExactly(s: seq<Code>, i: nat, j: nat)
    requires i < j <= |s| && (forall x :: i <= x < j ==> IsDigit(s[x])) && (j == |s| || !IsDigit(s[j]))
    ensures ReadAt(s, i) == NumberAt(s, i) <==> NumeralValue(s, i, j) <= 0xFFFF_FFFF || exists x :: i <= x < j && Refuses(s, i, x)
  {
    hide NumberFrom, ReadFrom;
    ReadIs(s, i, i, j);
    NumberIs(s, i, i, j, 0);
    if NumeralValue(s, i, j) <= 0xFFFF_FFFF { ReadSmall(s, i, 0); }
  }

  lemma ValueStep(s: seq<Code>, j: nat)
    requires j < |s|
    ensures NumeralValue(s, 0, j + 1) == 10 * NumeralValue(s, 0, j) + (s[j] - '0' as int) && NumeralValue(s, 0, 0) == 0
  {
  }

  /** The number that is misread, and the values of its beginnings. */
  const COUNT: seq<Code> := [52, 50, 57, 52, 57, 54, 55, 51, 48, 48]

  lemma CountValues()
    ensures |COUNT| == 10 && NumeralValue(COUNT, 0, 10) == 4294967300
    ensures forall x :: 0 <= x < 10 ==> IsDigit(COUNT[x]) && !Refuses(COUNT, 0, x)
  {
    var s := COUNT;
    assert s[0] == 52 && s[1] == 50 && s[2] == 57 && s[3] == 52 && s[4] == 57 && s[5] == 54 && s[6] == 55 && s[7] == 51 && s[8] == 48 && s[9] == 48;
    hide NumeralValue;
    ValueStep(s, 0); ValueStep(s, 1); ValueStep(s, 2); ValueStep(s, 3); ValueStep(s, 4);
    ValueStep(s, 5); ValueStep(s, 6); ValueStep(s, 7); ValueStep(s, 8); ValueStep(s, 9);
  }

  /** 4294967300 is read as 4. */
  lemma CountMisread()
    ensures ReadAt(COUNT, 0).Some? && ReadAt(COUNT, 0).value.0 == 4 && NumberAt(COUNT, 0).None?
  {
    hide NumeralValue, NumberFrom, ReadFrom, Refuses;
    CountValues();
    ValueStep(COUNT, 0);
    ReadIs(COUNT, 0, 0, 10);
    NumberIs(COUNT, 0, 0, 10, 0);
  }
}
