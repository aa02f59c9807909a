/** The tokens that the characters of a pattern spell: escapes, character classes and
    counted quantifiers. */
module RegexLexer {
  import opened Options
  import opened RegexSyntax
  import opened RegexMachine

  const INFINITY: nat := 0xFFFF_FFFF

  predicate IsAt(s: seq<Code>, i: nat, c: char) {
    i < |s| && s[i] == c as int
  }

  // ---------------------------------------------------------------- escapes

  const SELF_ESCAPES: string := "^$|()?*+.[]{}\\"

  /** The character that a backslash followed by `c` stands for. */
  function Escaped(c: Code): (r: Option<Code>)
  {
    if c < 128 && c as char in SELF_ESCAPES then Some(c)
    else if c == 'f' as int then Some(0x0C)
    else if c == 'n' as int then Some(0x0A)
    else if c == 'r' as int then Some(0x0D)
    else if c == 't' as int then Some(0x09)
    else if c == 'v' as int then Some(0x0B)
    else None
  }

  // ---------------------------------------------------------------- numbers

  predicate IsDigit(c: int) {
    '0' as int <= c <= '9' as int
  }

  /** The decimal number that continues `acc` at position `i`, and where it ends. */
  function NumberFrom(s: seq<Code>, i: nat, acc: nat): (r: (nat, nat))
    ensures r.0 >= acc && r.1 >= i
    decreases |s| - i
  {
    if i < |s| && IsDigit(s[i]) then NumberFrom(s, i + 1, acc * 10 + (s[i] - '0' as int)) else (acc, i)
  }

  function NumberAt(s: seq<Code>, i: nat): (r: Option<(nat, nat)>)
    ensures r.Some? ==> i < r.value.1 && r.value.0 <= INFINITY
  {
    if i < |s| && IsDigit(s[i]) && NumberFrom(s, i, 0).0 <= 0xFFFF_FFFF then Some(NumberFrom(s, i, 0)) else None
  }

  /** The same number as the code reads it, in 32 bits, with its test for overflow. */
  function ReadFrom(s: seq<Code>, i: nat, r: nat): Option<(nat, nat)>
    decreases |s| - i
  {
    if i >= |s| || !IsDigit(s[i]) then Some((r, i))
    else if r >= 429496729 && s[i] > '5' as int then None
    else ReadFrom(s, i + 1, (r * 10 + (s[i] - '0' as int)) % 0x1_0000_0000)
  }

  function ReadAt(s: seq<Code>, i: nat): Option<(nat, nat)> {
    if i < |s| && IsDigit(s[i]) then ReadFrom(s, i, 0) else None
  }

  /** Numbers of 32 bits are read right. */
  lemma {:induction false} ReadSmall(s: seq<Code>, i: nat, r: nat)
    requires NumberFrom(s, i, r).0 <= 0xFFFF_FFFF
    ensures ReadFrom(s, i, r) == Some(NumberFrom(s, i, r))
    decreases |s| - i
  {
    if i < |s| && IsDigit(s[i]) {
      var r' := r * 10 + (s[i] - '0' as int);
      assert r' <= NumberFrom(s, i + 1, r').0;
      ReadSmall(s, i + 1, r');
    }
  }

  function BoundOf(m: nat): Bound {
    if m == INFINITY then Unlimited else Upto(m)
  }

  /** `n}`, `n,}` or `n,m}`: the two bounds and where they end. */
  function BoundsAt(s: seq<Code>, i: nat): (r: Option<(nat, nat, nat)>)
    ensures r.Some? ==> i < r.value.2
  {
    match NumberAt(s, i)
    case None => None
    case Some((n, j)) =>
      if IsAt(s, j, '}') then Some((n, n, j + 1))
      else if !IsAt(s, j, ',') then None
      else if IsAt(s, j + 1, '}') then Some((n, INFINITY, j + 2))
      else match NumberAt(s, j + 1)
        case None => None
        case Some((m, k)) => if n <= m && IsAt(s, k, '}') then Some((n, m, k + 1)) else None
  }

  // ---------------------------------------------------------------- character classes

  /** One character of a class, possibly escaped. */
  function ElementAt(s: seq<Code>, i: nat): (r: Option<(Code, nat)>)
    ensures r.Some? ==> i < r.value.1 <= |s|
  {
    if i >= |s| then None
    else if s[i] != '\\' as int then Some((s[i], i + 1))
    else if IsAt(s, i + 1, 'b') then Some((0x08, i + 2))
    else if i + 1 >= |s| then None
    else match Escaped(s[i + 1])
      case None => None
      case Some(c) => Some((c, i + 2))
  }

  function Prepend(xs: seq<ClassItem>, r: Option<(seq<ClassItem>, nat)>): Option<(seq<ClassItem>, nat)> {
    match r
    case None => None
    case Some((ys, k)) => Some((xs + ys, k))
  }

  /** The items up to the closing bracket. */
  function ItemsAt(s: seq<Code>, i: nat): (r: Option<(seq<ClassItem>, nat)>)
    ensures r.Some? ==> i < r.value.1 <= |s|
    decreases |s| - i, 0
  {
    if IsAt(s, i, ']') then Some(([], i + 1))
    else match ElementAt(s, i)
      case None => None
      case Some((c, j)) => ItemFrom(s, c, j)
  }

  /** A character `c` has been read: a range if a dash and another character follow it. */
  function ItemFrom(s: seq<Code>, c: Code, j: nat): (r: Option<(seq<ClassItem>, nat)>)
    ensures r.Some? ==> j < r.value.1 <= |s|
    decreases |s| - j, 1
  {
    if IsAt(s, j, '-') && !IsAt(s, j + 1, ']') then RangeFrom(s, c, j + 1)
    else if j >= |s| then None
    else Prepend([ClassItem(c, c)], ItemsAt(s, j))
  }

  function RangeFrom(s: seq<Code>, c: Code, k: nat): (r: Option<(seq<ClassItem>, nat)>)
    ensures r.Some? ==> k < r.value.1 <= |s|
    decreases |s| - k, 1
  {
    match ElementAt(s, k)
    case None => None
    case Some((d, l)) => Prepend([ClassItem(c, d)], ItemsAt(s, l))
  }

  function ClassAt(s: seq<Code>, i: nat): (r: Option<(Sym, nat)>)
    ensures r.Some? ==> i < r.value.1 <= |s|
  {
    var negated := IsAt(s, i, '^');
    match ItemsAt(s, if negated then i + 1 else i)
    case None => None
    case Some((items, k)) => if items == [] then None else Some((Class(negated, items), k))
  }

  // ---------------------------------------------------------------- tokens

  function TokenAt(s: seq<Code>, i: nat): (r: Option<(Token, nat)>)
    requires i < |s|
    ensures r.Some? ==> i < r.value.1
  {
    var c := s[i];
    if c == '^' as int then Some((AnchorToken(true), i + 1))
    else if c == '$' as int then Some((AnchorToken(false), i + 1))
    else if c == '|' as int then Some((BarToken, i + 1))
    else if c == '(' as int then Some((OpenToken, i + 1))
    else if c == ')' as int then Some((CloseToken, i + 1))
    else if c == '?' as int then Some((QuantifierToken(0, Upto(1)), i + 1))
    else if c == '*' as int then Some((QuantifierToken(0, Unlimited), i + 1))
    else if c == '+' as int then Some((QuantifierToken(1, Unlimited), i + 1))
    else if c == '{' as int then
      (match BoundsAt(s, i + 1)
       case None => None
       case Some((n, m, k)) => Some((QuantifierToken(n, BoundOf(m)), k)))
    else if c == '.' as int then Some((SymToken(Any), i + 1))
    else if c == '[' as int then
      (match ClassAt(s, i + 1)
       case None => None
       case Some((y, k)) => Some((SymToken(y), k)))
    else if c == '\\' as int then
      (if i + 1 >= |s| then None
       else match Escaped(s[i + 1])
         case None => None
         case Some(d) => Some((SymToken(Literal(d)), i + 2)))
    else Some((SymToken(Literal(c)), i + 1))
  }

  /** All tokens of the pattern from position `i` on. */
  function TokensFrom(s: seq<Code>, i: nat): Option<seq<Token>>
    decreases |s| - i
  {
    if i >= |s| then Some([])
    else match TokenAt(s, i)
      case None => None
      case Some((t, k)) =>
        match TokensFrom(s, k)
        case None => None
        case Some(ts) => Some([t] + ts)
  }
}
