/** Reading one cookie from the header that a browser sends. */
module Cookies {
  import opened Options
  import opened Bytes

  const SEMICOLON: Byte := ';' as int
  const EQUALS: Byte := '=' as int
  const SPACE: Byte := ' ' as int

  predicate IsSpace(c: Byte) {
    c == SPACE || 9 <= c <= 13
  }

  /** The first place of a word from `from` on. */
  function Find(h: Text, w: Text, from: nat): Option<nat>
    decreases |h| - from
  {
    if HasAt(h, from, w) then Some(from)
    else if from + |w| >= |h| then None
    else Find(h, w, from + 1)
  }

  lemma {:induction false} FindFirst(h: Text, w: Text, from: nat)
    ensures match Find(h, w, from)
            case Some(p) => from <= p && HasAt(h, p, w) && forall q: nat :: from <= q < p ==> !HasAt(h, q, w)
            case None => forall q: nat :: from <= q ==> !HasAt(h, q, w)
    decreases |h| - from
  {
    if !HasAt(h, from, w) && from + |w| < |h| { FindFirst(h, w, from + 1); }
  }

  /** Where a cookie may start. */
  predicate Boundary(h: Text, p: nat) {
    p == 0 || (p <= |h| && (IsSpace(h[p - 1]) || h[p - 1] == SEMICOLON))
  }

  /** The bytes from `p` to the next semicolon or the end. */
  function ValueAt(h: Text, p: nat): Text
    decreases |h| - p
  {
    if p >= |h| || h[p] == SEMICOLON then [] else [h[p]] + ValueAt(h, p + 1)
  }

  predicate EqualsAt(h: Text, p: nat) {
    p < |h| && h[p] == EQUALS
  }

  predicate NamedAt(h: Text, name: Text, p: nat) {
    HasAt(h, p, name) && Boundary(h, p) && EqualsAt(h, p + |name|)
  }

  /** The search as the code does it: after a place that starts a longer name it goes on
      behind the name. */
  function Lookup(h: Text, name: Text, from: nat): Text
    requires name != []
    decreases |h| - from
  {
    FindFirst(h, name, from);
    match Find(h, name, from)
    case None => []
    case Some(p) =>
      if !Boundary(h, p) then Lookup(h, name, p + 1)
      else if EqualsAt(h, p + |name|) then ValueAt(h, p + |name| + 1)
      else Lookup(h, name, p + |name| + 1)
  }

  method GetCookie(header: Text, name: Text) returns (value: Text)
    requires name != []
    ensures value == Lookup(header, name, 0)
  {
    hide HasAt, IsSpace, Find;
    var pos := Find(header, name, 0);
    ghost var from: nat := 0;
    while pos.Some?
      invariant pos == Find(header, name, from) && Lookup(header, name, from) == Lookup(header, name, 0)
      decreases |header| - from
    {
      var p: nat := pos.value;
      FindFirst(header, name, from);
      FoundInside(header, p, name);
      if p == 0 || IsSpace(header[p - 1]) || header[p - 1] == SEMICOLON {
        p := p + |name|;
        if p < |header| && header[p] == EQUALS {
          value := TakeValue(header, p + 1);
          return;
        }
      }
      from := p + 1;
      pos := Find(header, name, p + 1);
    }
    value := [];
  }

  lemma FoundInside(h: Text, p: nat, w: Text)
    requires HasAt(h, p, w)
    ensures p + |w| <= |h|
  {
  }

  method TakeValue(header: Text, start: nat) returns (value: Text)
    requires start <= |header|
    ensures value == ValueAt(header, start)
  {
    var end := start;
    while end < |header| && header[end] != SEMICOLON
      invariant start <= end <= |header| && ValueAt(header, start) == header[start..end] + ValueAt(header, end)
    {
      assert header[start..end + 1] == header[start..end] + [header[end]];
      end := end + 1;
    }
    value := header[start..end];
  }

  // ---------------------------------------------------------------- names without separators

  predicate Separates(c: Byte) {
    IsSpace(c) || c == SEMICOLON
  }

  predicate NameOk(name: Text) {
    name != [] && forall i :: 0 <= i < |name| ==> !Separates(name[i]) && name[i] != EQUALS
  }

  predicate ValueOk(v: Text) {
    forall i :: 0 <= i < |v| ==> !Separates(v[i])
  }

  /** No cookie starts inside a name. */
  lemma NotInside(h: Text, name: Text, p: nat, q: nat)
    requires NameOk(name) && HasAt(h, p, name) && p < q && Boundary(h, q)
    ensures p + |name| < q
  {
    assert forall i :: p <= i < p + |name| ==> h[i] == h[p..p + |name|][i - p];
  }

  /** What the search passes over does not matter. */
  lemma {:induction false} LookupSkips(h: Text, name: Text, from: nat, to: nat)
    requires NameOk(name) && from <= to && Boundary(h, to)
    requires forall p: nat :: from <= p < to ==> !NamedAt(h, name, p)
    ensures Lookup(h, name, from) == Lookup(h, name, to)
    decreases |h| - from
  {
    hide HasAt, Find, Boundary, EqualsAt, NameOk, ValueAt;
    FindFirst(h, name, from);
    FindFirst(h, name, to);
    if Find(h, name, from).Some? && Find(h, name, from).value < to {
      var p := Find(h, name, from).value;
      FoundInside(h, p, name);
      if Boundary(h, p) {
        assert !NamedAt(h, name, p);
        if p + 1 <= to { NotInside(h, name, p, to); }
        LookupSkips(h, name, p + |name| + 1, to);
      } else {
        LookupSkips(h, name, p + 1, to);
      }
    }
  }

  /** The search finds the first place where the name starts a cookie. */
  lemma LookupFirst(h: Text, name: Text, from: nat, q: nat)
    requires NameOk(name) && from <= q && NamedAt(h, name, q)
    requires forall p: nat :: from <= p < q ==> !NamedAt(h, name, p)
    ensures Lookup(h, name, from) == ValueAt(h, q + |name| + 1)
  {
    LookupSkips(h, name, from, q);
    FindFirst(h, name, q);
  }

  lemma {:induction false} LookupNone(h: Text, name: Text, from: nat)
    requires name != [] && forall p: nat :: from <= p ==> !NamedAt(h, name, p)
    ensures Lookup(h, name, from) == []
    decreases |h| - from
  {
    hide HasAt, Find, Boundary, EqualsAt, ValueAt;
    FindFirst(h, name, from);
    if Find(h, name, from).Some? {
      var p := Find(h, name, from).value;
      FoundInside(h, p, name);
      assert !NamedAt(h, name, p);
      LookupNone(h, name, if Boundary(h, p) then p + |name| + 1 else p + 1);
    }
  }

  // ---------------------------------------------------------------- the browser's header

  datatype Cookie = Cookie(name: Text, value: Text)

  predicate JarOk(jar: seq<Cookie>) {
    forall i :: 0 <= i < |jar| ==> NameOk(jar[i].name) && ValueOk(jar[i].value)
  }

  function Pair(c: Cookie): Text {
    c.name + [EQUALS] + c.value
  }

  /** The header: the cookies in order, separated by a semicolon and a space. */
  function Header(jar: seq<Cookie>): Text {
    if jar == [] then []
    else if |jar| == 1 then Pair(jar[0])
    else Pair(jar[0]) + [SEMICOLON, SPACE] + Header(jar[1..])
  }

  /** The value of the first cookie of that name; nothing if there is none. */
  function InJar(jar: seq<Cookie>, name: Text): Text {
    if jar == [] then [] else if jar[0].name == name then jar[0].value else InJar(jar[1..], name)
  }

  /** The cookie's text stands at `s`, and a semicolon or the end follows. */
  predicate StandsAt(h: Text, s: nat, c: Cookie) {
    && s + |Pair(c)| <= |h|
    && (forall x :: s <= x < s + |Pair(c)| ==> h[x] == Pair(c)[x - s])
    && (s + |Pair(c)| < |h| ==> h[s + |Pair(c)|] == SEMICOLON)
  }

  /** Nothing behind the start of a cookie starts one before the next semicolon. */
  lemma InsidePair(h: Text, name: Text, s: nat, c: Cookie, p: nat)
    requires NameOk(c.name) && ValueOk(c.value) && StandsAt(h, s, c) && s < p <= s + |Pair(c)|
    ensures !NamedAt(h, name, p)
  {
    assert h[p - 1] == Pair(c)[p - 1 - s];
  }

  /** A cookie's text starts with exactly its own name and an equals sign. */
  lemma OwnName(h: Text, name: Text, s: nat, c: Cookie)
    requires NameOk(name) && NameOk(c.name) && StandsAt(h, s, c) && Boundary(h, s)
    ensures NamedAt(h, name, s) <==> name == c.name
  {
    var n := |c.name|;
    assert Pair(c)[..n] == c.name && Pair(c)[n] == EQUALS;
    assert h[s + n] == EQUALS;
    assert forall x :: s <= x < s + n ==> h[x] == c.name[x - s];
    assert h[s..s + n] == c.name;
    if HasAt(h, s, name) && EqualsAt(h, s + |name|) {
      assert forall x :: s <= x < s + |name| ==> h[x] == h[s..s + |name|][x - s];
      assert |name| == n;
    }
  }

  lemma {:induction false} ValueEnds(h: Text, p: nat, v: Text)
    requires ValueOk(v) && p + |v| <= |h| && (p + |v| < |h| ==> h[p + |v|] == SEMICOLON)
    requires forall x :: p <= x < p + |v| ==> h[x] == v[x - p]
    ensures ValueAt(h, p) == v
    decreases |v|
  {
    if v != [] {
      assert h[p] == v[0];
      ValueEnds(h, p + 1, v[1..]);
    }
  }

  lemma OwnValue(h: Text, name: Text, s: nat, c: Cookie)
    requires NameOk(c.name) && ValueOk(c.value) && StandsAt(h, s, c) && Boundary(h, s) && name == c.name
    ensures Lookup(h, name, s) == c.value
  {
    hide HasAt, Boundary, Find;
    OwnName(h, name, s, c);
    LookupFirst(h, name, s, s);
    var n := |c.name| + 1;
    assert forall x :: s + n <= x < s + n + |c.value| ==> h[x] == Pair(c)[x - s] == c.value[x - (s + n)];
    ValueEnds(h, s + n, c.value);
  }

  /** The header of a jar, from a place where a cookie may start to the end. */
  predicate Ends(h: Text, s: nat, jar: seq<Cookie>) {
    s <= |h| && Boundary(h, s) && h[s..] == Header(jar)
  }

  lemma FirstStands(h: Text, s: nat, jar: seq<Cookie>)
    requires Ends(h, s, jar) && jar != []
    ensures StandsAt(h, s, jar[0])
    ensures |jar| == 1 ==> |h| == s + |Pair(jar[0])|
    ensures |jar| > 1 ==> s + |Pair(jar[0])| + 1 < |h| && h[s + |Pair(jar[0])| + 1] == SPACE && Ends(h, s + |Pair(jar[0])| + 2, jar[1..])
  {
    var t := Pair(jar[0]);
    assert forall x :: s <= x < |h| ==> h[x] == h[s..][x - s];
    if |jar| > 1 {
      var next := s + |t| + 2;
      assert |h[s..]| == |t| + 2 + |Header(jar[1..])|;
      assert h[next - 1] == h[s..][|t| + 1] && h[next - 2] == h[s..][|t|];
      assert h[next..] == h[s..][|t| + 2..] == Header(jar[1..]);
    }
  }

  /** Behind a cookie of another name, the name starts no cookie before the next one. */
  lemma NothingBetween(h: Text, name: Text, s: nat, jar: seq<Cookie>, p: nat)
    requires NameOk(name) && JarOk(jar) && Ends(h, s, jar) && jar != [] && jar[0].name != name
    requires s <= p < s + |Pair(jar[0])| + 2 || (s <= p && |jar| == 1)
    ensures !NamedAt(h, name, p)
  {
    hide Boundary, Header, Ends, Pair;
    FirstStands(h, s, jar);
    StartsHere(h, s, jar);
    var c := jar[0];
    if p == s {
      OwnName(h, name, s, c);
    } else if p <= s + |Pair(c)| {
      InsidePair(h, name, s, c, p);
    } else {
      assert p < |h| ==> h[p] == SPACE;
      assert p + |name| <= |h| && name != [] ==> h[p] == h[p..p + |name|][0];
    }
  }

  lemma StartsHere(h: Text, s: nat, jar: seq<Cookie>)
    requires Ends(h, s, jar)
    ensures Boundary(h, s) && s <= |h|
  {
  }

  lemma {:induction false} LookupFrom(h: Text, name: Text, s: nat, jar: seq<Cookie>)
    requires NameOk(name) && JarOk(jar) && Ends(h, s, jar)
    ensures Lookup(h, name, s) == InJar(jar, name)
    decreases |jar|
  {
    hide Boundary, Header, Ends, Pair, Lookup, HasAt, StandsAt, EqualsAt, NamedAt, NameOk, ValueOk;
    StartsHere(h, s, jar);
    if jar == [] {
      NoCookies(h, name, s);
    } else {
      FirstStands(h, s, jar);
      if jar[0].name == name {
        OwnValue(h, name, s, jar[0]);
      } else if |jar| == 1 {
        forall p: nat | s <= p ensures !NamedAt(h, name, p) { NothingBetween(h, name, s, jar, p); }
        NotEmpty(name);
        LookupNone(h, name, s);
        assert jar[1..] == [];
      } else {
        var next := s + |Pair(jar[0])| + 2;
        forall p: nat | s <= p < next ensures !NamedAt(h, name, p) { NothingBetween(h, name, s, jar, p); }
        StartsHere(h, next, jar[1..]);
        LookupSkips(h, name, s, next);
        LookupFrom(h, name, next, jar[1..]);
      }
    }
  }

  lemma NotEmpty(name: Text)
    requires NameOk(name)
    ensures name != []
  {
  }

  lemma NoCookies(h: Text, name: Text, s: nat)
    requires NameOk(name) && Ends(h, s, [])
    ensures Lookup(h, name, s) == []
  {
    assert h[s..] == [];
    LookupNone(h, name, s);
  }

  /** What the code reads from a browser's header is what the browser holds under that name. */
  lemma LookupInJar(jar: seq<Cookie>, name: Text)
    requires NameOk(name) && JarOk(jar)
    ensures Lookup(Header(jar), name, 0) == InJar(jar, name)
  {
    assert Header(jar)[0..] == Header(jar);
    LookupFrom(Header(jar), name, 0, jar);
  }

  // ---------------------------------------------------------------- setting a cookie

  /** What the code sends: the pair, then the attributes, each behind a semicolon. */
  function SetCookie(c: Cookie, attributes: Text): Text
    requires attributes == [] || attributes[0] == SEMICOLON
  {
    Pair(c) + attributes
  }

  /** The bytes before the first equals sign. */
  function NameBefore(t: Text): Text {
    if t == [] || t[0] == EQUALS then [] else [t[0]] + NameBefore(t[1..])
  }

  /** What a browser keeps of it: the name up to the first equals sign, the value up to the first semicolon. */
  function Received(t: Text): Cookie {
    var name := NameBefore(t);
    Cookie(name, ValueAt(t, |name| + 1))
  }

  lemma {:induction false} NameEnds(name: Text, t: Text)
    requires NameOk(name) || name == []
    requires |name| < |t| && t[..|name|] == name && t[|name|] == EQUALS
    ensures NameBefore(t) == name
    decreases |name|
  {
    if name != [] {
      assert t[0] == t[..|name|][0];
      assert t[1..][..|name| - 1] == t[..|name|][1..] == name[1..];
      NameEnds(name[1..], t[1..]);
    }
  }

  /** The browser keeps the cookie that was meant. */
  lemma ReceivedIsSent(c: Cookie, attributes: Text)
    requires NameOk(c.name) && ValueOk(c.value) && (attributes == [] || attributes[0] == SEMICOLON)
    ensures Received(SetCookie(c, attributes)) == c
  {
    var t := SetCookie(c, attributes);
    assert t[..|c.name|] == c.name;
    NameEnds(c.name, t);
    ValueEnds(t, |c.name| + 1, c.value);
  }

  /** A browser replaces a cookie of the same name where it stands, or adds it at the end. */
  function Keep(jar: seq<Cookie>, c: Cookie): seq<Cookie> {
    if jar == [] then [c]
    else if jar[0].name == c.name then [c] + jar[1..]
    else [jar[0]] + Keep(jar[1..], c)
  }

  /** Keeping a cookie changes what is held under its name, and under no other. */
  lemma {:induction false} KeepInJar(jar: seq<Cookie>, c: Cookie, name: Text)
    ensures InJar(Keep(jar, c), name) == if name == c.name then c.value else InJar(jar, name)
    ensures JarOk(jar) && NameOk(c.name) && ValueOk(c.value) ==> JarOk(Keep(jar, c))
    decreases |jar|
  {
    if jar != [] && jar[0].name != c.name {
      KeepInJar(jar[1..], c, name);
    }
  }
}
