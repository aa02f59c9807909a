/** What the writer writes the reader reads back: strings byte for byte, integers exactly,
    members and elements in order. */
module JsonRoundTrip {
  import opened Options
  import opened Bytes
  import opened Numerals
  import opened Itoa
  import Utf8
  import opened JsonLexer
  import opened JsonParser
  import opened JsonValue
  import opened JsonDocument
  import opened JsonAccepted

  // ---------------------------------------------------------------- places in a text

  lemma HasFirst(s: Text, i: nat, a: Text)
    requires HasAt(s, i, a) && |a| > 0
    ensures Peek(s, i) == a[0]
  {
    assert s[i..i + |a|][0] == s[i];
  }

  lemma SkipHere(s: Text, i: nat, comments: bool)
    requires !IsBlank(Peek(s, i)) && Peek(s, i) != '/' as int
    ensures SkipAt(s, i, comments) == Some(i)
  {
  }

  // ---------------------------------------------------------------- strings

  lemma HexRead(d: nat)
    requires d < 16
    ensures HexDigit(HexUpper(d)) == Some(d)
  {
  }

  /** A control character, read from its six-byte escape. */
  lemma ReadControl(s: Text, i: nat, c: Byte)
    requires c < 0x20 && HasAt(s, i, ['\\' as int, 'u' as int, '0' as int, '0' as int, HexUpper(c / 16), HexUpper(c % 16)])
    ensures StringAt(s, i) == Prefixed([c], StringAt(s, i + 6))
  {
    var w := s[i..i + 6];
    assert s[i] == w[0] && s[i + 1] == w[1] && s[i + 2] == w[2] && s[i + 3] == w[3] && s[i + 4] == w[4] && s[i + 5] == w[5];
    HexRead(c / 16);
    HexRead(c % 16);
    hide HexUpper;
    assert HexFrom(s, i + 6, 0, c) == Some(c);
    assert HexFrom(s, i + 5, 1, c / 16) == Some(c);
    assert HexFrom(s, i + 4, 2, 0) == Some(c);
    assert HexFrom(s, i + 3, 3, 0) == Some(c);
    assert Hex4(s, i + 2) == Some(c);
    assert UnicodeAt(s, i + 2) == Some((c, i + 6));
  }

  lemma ReadByte(s: Text, i: nat, c: Byte)
    requires HasAt(s, i, EscapedByte(c))
    ensures StringAt(s, i) == Prefixed([c], StringAt(s, i + |EscapedByte(c)|))
  {
    var e := EscapeLetter(c);
    HasFirst(s, i, EscapedByte(c));
    if e == 'u' as int {
      ReadControl(s, i, c);
    } else if e != 0 {
      assert s[i + 1] == s[i..i + 2][1] == e;
      assert Escape(e) == c;
    }
  }

  lemma {:induction false} ReadString(s: Text, i: nat, t: Text, k: nat)
    requires k <= |t| && HasAt(s, i, EscapedFrom(t, k))
    ensures StringAt(s, i) == Some((t[k..], i + |EscapedFrom(t, k)|))
    decreases |t| - k
  {
    hide EscapedByte, EscapedFrom, StringAt, HasAt;
    EscapedStep(t, k);
    if k == |t| {
      StringEnds(s, i);
      assert t[k..] == [];
    } else {
      var b := EscapedByte(t[k]);
      HasAtSplit(s, i, b, EscapedFrom(t, k + 1));
      ReadByte(s, i, t[k]);
      ReadString(s, i + |b|, t, k + 1);
      assert t[k..] == [t[k]] + t[k + 1..];
    }
  }

  lemma EscapedStep(t: Text, k: nat)
    requires k <= |t|
    ensures EscapedFrom(t, k) == if k == |t| then ['"' as int] else EscapedByte(t[k]) + EscapedFrom(t, k + 1)
  {
  }

  lemma StringEnds(s: Text, i: nat)
    requires HasAt(s, i, ['"' as int])
    ensures var j: nat := i + 1; StringAt(s, i) == Some(([], j))
  {
    HasFirst(s, i, ['"' as int]);
  }

  // ---------------------------------------------------------------- integers

  /** Bytes that end a number and a value. */
  predicate Ends(c: Byte) {
    c == 0 || c == ',' as int || c == ']' as int || c == '}' as int
  }

  lemma ReadDigits(s: Text, i: nat, u: nat)
    requires HasAt(s, i, DecimalText(u)) && !IsDigit(Peek(s, i + |DecimalText(u)|))
    ensures IntegerEnd(s, i) == Some(i + |DecimalText(u)|)
    ensures Decimal(s[i..i + |DecimalText(u)|]) == u
  {
    var t := DecimalText(u);
    DecimalOfText(u);
    HasFirst(s, i, t);
    if u == 0 {
      assert t == ['0' as int];
    } else {
      assert s[i + 1..i + |t|] == t[1..];
      DigitsEndIs(s, i + 1, i + |t|);
    }
  }

  /** What the reader reports for an integer. */
  function ReadInteger(v: int): Scalar
    requires InRange(v)
  {
    IntegerOf(v < 0, if v < 0 then -v else v)
  }

  lemma NothingMore(s: Text, j: nat)
    requires Ends(Peek(s, j))
    ensures FractionEnd(s, j) == Some(j) && ExponentEnd(s, j) == Some(j) && !IsDigit(Peek(s, j))
  {
  }

  lemma ReadNumber(s: Text, i: nat, v: int, tooBig: Text -> bool)
    requires InRange(v) && HasAt(s, i, IntegerText(v)) && Ends(Peek(s, i + |IntegerText(v)|))
    ensures NumberAt(s, i, tooBig) == Some((ReadInteger(v), i + |IntegerText(v)|))
  {
    hide DecimalText, IntegerEnd, FractionEnd, ExponentEnd, Decimal, HasAt;
    NothingMore(s, i + |IntegerText(v)|);
    var u := if v < 0 then -v else v;
    if v < 0 {
      HasAtSplit(s, i, ['-' as int], DecimalText(u));
      HasFirst(s, i, ['-' as int]);
      ReadDigits(s, i + 1, u);
    } else {
      HasFirst(s, i, DecimalText(u));
      ReadDigits(s, i, u);
    }
  }

  lemma IntegerRead(v: int)
    requires InRange(v)
    ensures Sized(ReadInteger(v)) && ScalarJson(ReadInteger(v)) == JNumber(Canonical(v))
  {
    ConstructorsAgree(v);
  }

  // ---------------------------------------------------------------- values

  /** The events that the parser reports for the text of a value. */
  ghost function ReadEvents(v: Json): seq<Event>
    decreases v, 0
  {
    match v
    case JNull => [Value(Null)]
    case JBool(b) => [Value(Bool(b))]
    case JNumber(n) => if InRange(IntegerValue(n)) then [Value(ReadInteger(IntegerValue(n)))] else []
    case JDouble(t) => [Value(Double(t))]
    case JString(t) => [Value(String(t))]
    case JArray(es) => [StartArray] + ElementEvents(es, 0)
    case JObject(ms) => [StartObject] + MemberEvents(ms, 0)
  }

  ghost function ElementEvents(es: seq<Json>, i: nat): seq<Event>
    requires i <= |es|
    decreases es, 1, |es| - i
  {
    if i == |es| then [EndArray(i)] else ReadEvents(es[i]) + ElementEvents(es, i + 1)
  }

  ghost function MemberEvents(ms: seq<Member>, i: nat): seq<Event>
    requires i <= |ms|
    decreases ms, 1, |ms| - i
  {
    if i == |ms| then [EndObject(i)] else [Key(ms[i].name)] + ReadEvents(ms[i].value) + MemberEvents(ms, i + 1)
  }

  /** The first byte of a value. */
  predicate StartsValue(c: Byte) {
    c == '-' as int || IsDigit(c) || c == '"' as int || c == '[' as int || c == '{' as int
    || c == 'n' as int || c == 't' as int || c == 'f' as int
  }

  lemma FirstByte(v: Json)
    requires Legal(v)
    ensures |Serialize(v)| > 0 && StartsValue(Serialize(v)[0])
  {
    if v.JNumber? {
      DecimalOfText(if IntegerValue(v.n) < 0 then -IntegerValue(v.n) else IntegerValue(v.n));
    }
  }

  lemma StoredIn(n: Number)
    requires Stored(n)
    ensures InRange(IntegerValue(n)) && n == Canonical(IntegerValue(n))
  {
    var v :| InRange(v) && n == Canonical(v);
    ConstructorsAgree(v);
  }

  predicate IsScalar(v: Json) {
    !v.JArray? && !v.JObject?
  }

  /** The report of a value that is neither an object nor an array. */
  ghost function ScalarOf(v: Json): Scalar
    requires IsScalar(v) && Legal(v)
  {
    match v
    case JNull => Null
    case JBool(b) => Bool(b)
    case JNumber(n) => StoredIn(n); ReadInteger(IntegerValue(n))
    case JString(t) => String(t)
    case JDouble(_) => Null
  }

  lemma ReadWord(s: Text, i: nat, v: Json, tooBig: Text -> bool)
    requires v.JNull? || v.JBool?
    requires HasAt(s, i, Serialize(v))
    ensures ScalarAt(s, i, tooBig) == Some((ScalarOf(v), i + |Serialize(v)|))
  {
    SerializeScalars();
    HasFirst(s, i, Serialize(v));
  }

  lemma ReadInt(s: Text, i: nat, v: Json, tooBig: Text -> bool)
    requires v.JNumber? && Legal(v)
    requires HasAt(s, i, Serialize(v)) && Ends(Peek(s, i + |Serialize(v)|))
    ensures ScalarAt(s, i, tooBig) == Some((ScalarOf(v), i + |Serialize(v)|))
  {
    hide NumberAt, IntegerText, HasAt, Serialize;
    NumberText(v);
    FirstByte(v);
    HasFirst(s, i, Serialize(v));
    StoredIn(v.n);
    ReadNumber(s, i, IntegerValue(v.n), tooBig);
  }

  lemma ReadQuoted(s: Text, i: nat, v: Json, tooBig: Text -> bool)
    requires v.JString? && HasAt(s, i, Serialize(v))
    ensures ScalarAt(s, i, tooBig) == Some((ScalarOf(v), i + |Serialize(v)|))
  {
    hide EscapedFrom, StringAt, HasAt, Serialize;
    StringText(v);
    HasAtSplit(s, i, ['"' as int], EscapedFrom(v.t, 0));
    HasFirst(s, i, ['"' as int]);
    ReadString(s, i + 1, v.t, 0);
    assert v.t[0..] == v.t;
  }

  /** A value that is neither an object nor an array. */
  lemma ReadScalar(env: Env, a: At, v: Json)
    requires GoesOn(env) && Legal(v) && HasAt(env.s, a.pos, Serialize(v)) && Ends(Peek(env.s, a.pos + |Serialize(v)|))
    requires IsScalar(v)
    ensures ValueAt(env, a) == Done(At(a.pos + |Serialize(v)|, a.out + ReadEvents(v)))
  {
    ReadsScalar(v);
    hide ScalarAt, HasAt, Serialize, ScalarOf, ReadEvents;
    FirstByte(v);
    HasFirst(env.s, a.pos, Serialize(v));
    if v.JNumber? {
      ReadInt(env.s, a.pos, v, env.tooBig);
    } else if v.JString? {
      ReadQuoted(env.s, a.pos, v, env.tooBig);
    } else {
      ReadWord(env.s, a.pos, v, env.tooBig);
    }
  }

  lemma ReadsScalar(v: Json)
    requires IsScalar(v) && Legal(v)
    ensures ReadEvents(v) == [Value(ScalarOf(v))]
    ensures Serialize(v)[0] != '{' as int && Serialize(v)[0] != '[' as int
  {
    if v.JNumber? {
      StoredIn(v.n);
      NumberText(v);
    }
  }

  lemma SerializeScalars()
    ensures Serialize(JNull) == NULL && Serialize(JBool(true)) == TRUE && Serialize(JBool(false)) == FALSE
  {
  }

  lemma NumberText(v: Json)
    requires v.JNumber? && Legal(v)
    ensures Stored(v.n) && Serialize(v) == IntegerText(IntegerValue(v.n))
    ensures Serialize(v)[0] == '-' as int || IsDigit(Serialize(v)[0])
  {
    StoredIn(v.n);
    DecimalOfText(if IntegerValue(v.n) < 0 then -IntegerValue(v.n) else IntegerValue(v.n));
  }

  lemma StringText(v: Json)
    requires v.JString?
    ensures Serialize(v) == ['"' as int] + EscapedFrom(v.t, 0)
  {
  }

  /** Where a value is expected, blanks and closing brackets are not in the way. */
  lemma AtValue(env: Env, i: nat, v: Json)
    requires Legal(v) && HasAt(env.s, i, Serialize(v))
    ensures SkipAt(env.s, i, env.flags.comments) == Some(i)
    ensures var c := Peek(env.s, i); c != 0 && c != ']' as int && c != '}' as int
  {
    hide Serialize, HasAt;
    FirstByte(v);
    HasFirst(env.s, i, Serialize(v));
    SkipHere(env.s, i, env.flags.comments);
  }

  lemma AtEnd(env: Env, i: nat)
    requires Ends(Peek(env.s, i))
    ensures SkipAt(env.s, i, env.flags.comments) == Some(i)
  {
    SkipHere(env.s, i, env.flags.comments);
  }

  lemma {:induction false} ReadValue(env: Env, a: At, v: Json)
    requires GoesOn(env) && Legal(v) && HasAt(env.s, a.pos, Serialize(v)) && Ends(Peek(env.s, a.pos + |Serialize(v)|))
    ensures ValueAt(env, a) == Done(At(a.pos + |Serialize(v)|, a.out + ReadEvents(v)))
    decreases v, 2
  {
    match v {
      case JArray(es) => ReadArray(env, a, v, es);
      case JObject(ms) => ReadObject(env, a, v, ms);
      case _ => ReadScalar(env, a, v);
    }
  }

  lemma OneBefore(out: seq<Event>, e: Event, es: seq<Event>)
    ensures out + [e] + es == out + ([e] + es)
  {
  }

  lemma ArrayText(es: seq<Json>)
    ensures Serialize(JArray(es)) == ['[' as int] + ElementsFrom(es, 0) && ReadEvents(JArray(es)) == [StartArray] + ElementEvents(es, 0)
  {
  }

  lemma {:induction false} ReadArray(env: Env, a: At, v: Json, es: seq<Json>)
    requires v == JArray(es) && GoesOn(env) && Legal(v) && HasAt(env.s, a.pos, Serialize(v))
    ensures ValueAt(env, a) == Done(At(a.pos + |Serialize(v)|, a.out + ReadEvents(v)))
    decreases v, 1
  {
    var rest, b := ElementsFrom(es, 0), At(a.pos + 1, a.out + [StartArray]);
    hide Serialize, ReadEvents, HasAt, ElementsFrom, ElementEvents, Legal, SkipAt, ValueAt, ArrayInside;
    ArrayText(es);
    HasAtSplit(env.s, a.pos, ['[' as int], rest);
    HasFirst(env.s, a.pos, ['[' as int]);
    ReadElements(env, b, es, 0);
    OneBefore(a.out, StartArray, ElementEvents(es, 0));
    ArrayOpens(env, a);
  }

  /** No blanks follow the bracket. */
  lemma ArrayOpens(env: Env, a: At)
    requires GoesOn(env) && Here(env, a) == '[' as int && SkipAt(env.s, a.pos + 1, env.flags.comments) == Some(a.pos + 1)
    ensures ValueAt(env, a) == ArrayInside(env, At(a.pos + 1, a.out + [StartArray]))
  {
    hide SkipAt, ArrayInside;
    assert ValueAt(env, a) == ArrayAt(env, a);
  }

  ghost predicate AllLegal(es: seq<Json>) {
    forall i :: 0 <= i < |es| ==> Legal(es[i])
  }

  lemma OneLegal(es: seq<Json>, i: nat)
    requires AllLegal(es) && i < |es|
    ensures Legal(es[i])
  {
  }

  lemma ElementsStep(es: seq<Json>, i: nat)
    requires i <= |es|
    ensures ElementsFrom(es, i) == if i == |es| then [']' as int] else Comma(i) + (Serialize(es[i]) + ElementsFrom(es, i + 1))
    ensures ElementEvents(es, i) == if i == |es| then [EndArray(i)] else ReadEvents(es[i]) + ElementEvents(es, i + 1)
  {
  }

  ghost function ElementsRead(a: At, es: seq<Json>, i: nat): Outcome
    requires i <= |es|
  {
    Done(At(a.pos + |ElementsFrom(es, i)|, a.out + ElementEvents(es, i)))
  }

  /** From the `i`th element on, before its comma if there is one. */
  lemma {:induction false} ReadElements(env: Env, a: At, es: seq<Json>, i: nat)
    requires GoesOn(env) && i <= |es| && AllLegal(es) && HasAt(env.s, a.pos, ElementsFrom(es, i))
    ensures SkipAt(env.s, a.pos, env.flags.comments) == Some(a.pos)
    ensures Ends(Peek(env.s, a.pos)) || i == 0
    ensures (if i == 0 then ArrayInside(env, a) else AfterElement(env, a, i - 1)) == ElementsRead(a, es, i)
    decreases es, 1, |es| - i
  {
    hide Serialize, ElementsFrom, HasAt, SkipAt, AllLegal, ElementEvents, Elements;
    ElementsStep(es, i);
    if i == |es| {
      HasFirst(env.s, a.pos, [']' as int]);
      AtEnd(env, a.pos);
    } else {
      var rest := Serialize(es[i]) + ElementsFrom(es, i + 1);
      var b := At(a.pos + |Comma(i)|, a.out);
      HasAtSplit(env.s, a.pos, Comma(i), rest);
      ReadElement(env, b, es, i);
      if i > 0 {
        HasFirst(env.s, a.pos, COMMA);
        AtEnd(env, a.pos);
        assert AfterElement(env, a, i - 1) == AfterElementComma(env, b, i);
      }
    }
  }

  /** At the `i`th element. */
  lemma {:induction false} ReadElement(env: Env, b: At, es: seq<Json>, i: nat)
    requires GoesOn(env) && i < |es| && AllLegal(es)
    requires HasAt(env.s, b.pos, Serialize(es[i]) + ElementsFrom(es, i + 1))
    ensures SkipAt(env.s, b.pos, env.flags.comments) == Some(b.pos)
    ensures var c := Peek(env.s, b.pos); c != 0 && c != ']' as int
    ensures Elements(env, b, i) == Done(At(b.pos + |Serialize(es[i]) + ElementsFrom(es, i + 1)|, b.out + ElementEvents(es, i)))
    decreases es, 1, |es| - i, 0
  {
    hide Serialize, ElementsFrom, HasAt, SkipAt, AllLegal, GoesOn, ElementEvents, ReadEvents, Legal;
    hide ArrayAt, ObjectAt, ArrayInside, ObjectInside, Elements, Members, AfterKey, AfterColon, AfterElement, AfterMember, AfterElementComma, AfterMemberComma, ValueAt;
    var x, evs := Serialize(es[i]), ReadEvents(es[i]);
    var c := At(b.pos + |x|, b.out + evs);
    ElementsStep(es, i);
    OneLegal(es, i);
    assert c.out + ElementEvents(es, i + 1) == b.out + (evs + ElementEvents(es, i + 1));
    HasAtSplit(env.s, b.pos, x, ElementsFrom(es, i + 1));
    AtValue(env, b.pos, es[i]);
    ReadElements(env, c, es, i + 1);
    ReadValue(env, b, es[i]);
    ElementUnfold(env, b, c, i);
  }

  lemma ElementUnfold(env: Env, b: At, c: At, n: nat)
    requires ValueAt(env, b) == Done(c) && Skip(env, c) == Done(c)
    ensures Elements(env, b, n) == AfterElement(env, c, n) && AfterColon(env, b, n) == AfterMember(env, c, n)
  {
  }

  lemma ObjectText(ms: seq<Member>)
    ensures Serialize(JObject(ms)) == ['{' as int] + MembersFrom(ms, 0) && ReadEvents(JObject(ms)) == [StartObject] + MemberEvents(ms, 0)
  {
  }

  lemma {:induction false} ReadObject(env: Env, a: At, v: Json, ms: seq<Member>)
    requires v == JObject(ms) && GoesOn(env) && Legal(v) && HasAt(env.s, a.pos, Serialize(v))
    ensures ValueAt(env, a) == Done(At(a.pos + |Serialize(v)|, a.out + ReadEvents(v)))
    decreases v, 1
  {
    var rest, b := MembersFrom(ms, 0), At(a.pos + 1, a.out + [StartObject]);
    hide Serialize, ReadEvents, HasAt, MembersFrom, MemberEvents, Legal, SkipAt, ValueAt, ObjectInside;
    ObjectText(ms);
    HasAtSplit(env.s, a.pos, ['{' as int], rest);
    HasFirst(env.s, a.pos, ['{' as int]);
    ReadMembers(env, b, ms, 0);
    OneBefore(a.out, StartObject, MemberEvents(ms, 0));
    ObjectOpens(env, a);
  }

  /** No blanks follow the bracket. */
  lemma ObjectOpens(env: Env, a: At)
    requires GoesOn(env) && Here(env, a) == '{' as int && SkipAt(env.s, a.pos + 1, env.flags.comments) == Some(a.pos + 1)
    ensures ValueAt(env, a) == ObjectInside(env, At(a.pos + 1, a.out + [StartObject]))
  {
    hide SkipAt, ObjectInside;
    assert ValueAt(env, a) == ObjectAt(env, a);
  }

  ghost predicate AllMembersLegal(ms: seq<Member>) {
    forall i :: 0 <= i < |ms| ==> Legal(ms[i].value)
  }

  lemma OneMemberLegal(ms: seq<Member>, i: nat)
    requires AllMembersLegal(ms) && i < |ms|
    ensures Legal(ms[i].value)
  {
  }

  lemma MembersStep(ms: seq<Member>, i: nat)
    requires i <= |ms|
    ensures MembersFrom(ms, i) ==
      if i == |ms| then ['}' as int]
      else Comma(i) + (Quoted(ms[i].name) + (COLON + (Serialize(ms[i].value) + MembersFrom(ms, i + 1))))
    ensures MemberEvents(ms, i) ==
      if i == |ms| then [EndObject(i)] else [Key(ms[i].name)] + (ReadEvents(ms[i].value) + MemberEvents(ms, i + 1))
  {
  }

  ghost function MembersRead(a: At, ms: seq<Member>, i: nat): Outcome
    requires i <= |ms|
  {
    Done(At(a.pos + |MembersFrom(ms, i)|, a.out + MemberEvents(ms, i)))
  }

  /** From the `i`th member on, before its comma if there is one. */
  lemma {:induction false} ReadMembers(env: Env, a: At, ms: seq<Member>, i: nat)
    requires GoesOn(env) && i <= |ms| && AllMembersLegal(ms) && HasAt(env.s, a.pos, MembersFrom(ms, i))
    ensures SkipAt(env.s, a.pos, env.flags.comments) == Some(a.pos)
    ensures Ends(Peek(env.s, a.pos)) || i == 0
    ensures (if i == 0 then ObjectInside(env, a) else AfterMember(env, a, i - 1)) == MembersRead(a, ms, i)
    decreases ms, 1, |ms| - i
  {
    hide Serialize, MembersFrom, HasAt, SkipAt, AllMembersLegal, MemberEvents, Members, Quoted;
    MembersStep(ms, i);
    if i == |ms| {
      HasFirst(env.s, a.pos, ['}' as int]);
      AtEnd(env, a.pos);
    } else {
      var rest := Quoted(ms[i].name) + (COLON + (Serialize(ms[i].value) + MembersFrom(ms, i + 1)));
      var b := At(a.pos + |Comma(i)|, a.out);
      HasAtSplit(env.s, a.pos, Comma(i), rest);
      ReadMember(env, b, ms, i);
      if i > 0 {
        HasFirst(env.s, a.pos, COMMA);
        AtEnd(env, a.pos);
        assert AfterMember(env, a, i - 1) == AfterMemberComma(env, b, i);
      }
    }
  }

  /** A name in quotes. */
  lemma ReadKey(env: Env, b: At, name: Text)
    requires GoesOn(env) && HasAt(env.s, b.pos, Quoted(name))
    ensures KeyAt(env, b) == Done(At(b.pos + |Quoted(name)|, b.out + [Key(name)]))
    ensures Peek(env.s, b.pos) == '"' as int && SkipAt(env.s, b.pos, env.flags.comments) == Some(b.pos)
  {
    hide EscapedFrom, StringAt, HasAt, SkipAt;
    HasAtSplit(env.s, b.pos, ['"' as int], EscapedFrom(name, 0));
    HasFirst(env.s, b.pos, ['"' as int]);
    ReadString(env.s, b.pos + 1, name, 0);
    assert name[0..] == name;
    SkipHere(env.s, b.pos, env.flags.comments);
  }

  /** At the `i`th member. */
  lemma {:induction false} ReadMember(env: Env, b: At, ms: seq<Member>, i: nat)
    requires GoesOn(env) && i < |ms| && AllMembersLegal(ms)
    requires HasAt(env.s, b.pos, Quoted(ms[i].name) + (COLON + (Serialize(ms[i].value) + MembersFrom(ms, i + 1))))
    ensures SkipAt(env.s, b.pos, env.flags.comments) == Some(b.pos) && Peek(env.s, b.pos) == '"' as int
    ensures Members(env, b, i) ==
      Done(At(b.pos + |Quoted(ms[i].name)| + 1 + |Serialize(ms[i].value)| + |MembersFrom(ms, i + 1)|, b.out + MemberEvents(ms, i)))
    decreases ms, 1, |ms| - i, 0
  {
    hide Serialize, MembersFrom, HasAt, SkipAt, AllMembersLegal, GoesOn, MemberEvents, ReadEvents, KeyAt, Legal, Quoted;
    hide ArrayAt, ObjectAt, ArrayInside, ObjectInside, Elements, Members, AfterKey, AfterColon, AfterElement, AfterMember, AfterElementComma, AfterMemberComma, ValueAt;
    var name, x := Quoted(ms[i].name), Serialize(ms[i].value);
    var tail := x + MembersFrom(ms, i + 1);
    var d := At(b.pos + |name| + 1, b.out + [Key(ms[i].name)]);
    HasAtSplit(env.s, b.pos, name, COLON + tail);
    HasAtSplit(env.s, b.pos + |name|, COLON, tail);
    ReadColon(env, d, ms, i);
    NameAndColon(env, b, ms[i].name, i);
    MembersStep(ms, i);
    assert d.out + (ReadEvents(ms[i].value) + MemberEvents(ms, i + 1)) == b.out + ([Key(ms[i].name)] + (ReadEvents(ms[i].value) + MemberEvents(ms, i + 1)));
  }

  /** A name and a colon, with a value close behind. */
  lemma NameAndColon(env: Env, b: At, name: Text, n: nat)
    requires GoesOn(env) && HasAt(env.s, b.pos, Quoted(name)) && HasAt(env.s, b.pos + |Quoted(name)|, COLON)
    requires SkipAt(env.s, b.pos + |Quoted(name)| + 1, env.flags.comments) == Some(b.pos + |Quoted(name)| + 1)
    ensures SkipAt(env.s, b.pos, env.flags.comments) == Some(b.pos) && Peek(env.s, b.pos) == '"' as int
    ensures Members(env, b, n) == AfterColon(env, At(b.pos + |Quoted(name)| + 1, b.out + [Key(name)]), n)
  {
    hide Quoted, HasAt, SkipAt, KeyAt, Members, AfterColon, GoesOn;
    ReadKey(env, b, name);
    var c := At(b.pos + |Quoted(name)|, b.out + [Key(name)]);
    HasFirst(env.s, c.pos, COLON);
    SkipHere(env.s, c.pos, env.flags.comments);
    MemberUnfold(env, b, c, At(c.pos + 1, c.out), n);
  }

  lemma MemberUnfold(env: Env, b: At, c: At, d: At, n: nat)
    requires KeyAt(env, b) == Done(c) && Skip(env, c) == Done(c) && Here(env, c) == ':' as int && TakeSkip(env, c) == Done(d)
    ensures Members(env, b, n) == AfterColon(env, d, n)
  {
    assert Members(env, b, n) == AfterKey(env, c, n);
  }

  /** At the value of the `i`th member. */
  lemma {:induction false} ReadColon(env: Env, d: At, ms: seq<Member>, i: nat)
    requires GoesOn(env) && i < |ms| && AllMembersLegal(ms)
    requires HasAt(env.s, d.pos, Serialize(ms[i].value) + MembersFrom(ms, i + 1))
    ensures SkipAt(env.s, d.pos, env.flags.comments) == Some(d.pos)
    ensures AfterColon(env, d, i) ==
      Done(At(d.pos + |Serialize(ms[i].value)| + |MembersFrom(ms, i + 1)|, d.out + (ReadEvents(ms[i].value) + MemberEvents(ms, i + 1))))
    decreases ms, 1, |ms| - i, -1
  {
    hide Serialize, MembersFrom, HasAt, SkipAt, AllMembersLegal, GoesOn, MemberEvents, ReadEvents, Legal;
    hide ArrayAt, ObjectAt, ArrayInside, ObjectInside, Elements, Members, AfterKey, AfterColon, AfterElement, AfterMember, AfterElementComma, AfterMemberComma, ValueAt;
    var x, evs := Serialize(ms[i].value), ReadEvents(ms[i].value);
    var e := At(d.pos + |x|, d.out + evs);
    OneMemberLegal(ms, i);
    assert e.out + MemberEvents(ms, i + 1) == d.out + (evs + MemberEvents(ms, i + 1));
    HasAtSplit(env.s, d.pos, x, MembersFrom(ms, i + 1));
    AtValue(env, d.pos, ms[i].value);
    ReadMembers(env, e, ms, i + 1);
    ReadValue(env, d, ms[i].value);
    ElementUnfold(env, d, e, i);
  }

  // ---------------------------------------------------------------- back to the value

  lemma {:induction false} ValueBuilt(o: seq<Event>, v: Json)
    requires Legal(v)
    ensures Pushes(o, o + ReadEvents(v), [v])
    decreases v, 2
  {
    hide Pushes;
    if v.JArray? {
      var es := v.elements;
      BracketPushes(o);
      assert [JArray([])] + es[..0] == [JArray([])];
      ElementsBuilt(o, o + [StartArray], es, 0);
      assert o + [StartArray] + ElementEvents(es, 0) == o + ([StartArray] + ElementEvents(es, 0));
    } else if v.JObject? {
      var ms := v.members;
      BracketPushes(o);
      assert [JObject([])] + Flat(ms[..0]) == [JObject([])];
      MembersBuilt(o, o + [StartObject], ms, 0);
      assert o + [StartObject] + MemberEvents(ms, 0) == o + ([StartObject] + MemberEvents(ms, 0));
    } else {
      ReadsScalar(v);
      if v.JNumber? {
        StoredIn(v.n);
        IntegerRead(IntegerValue(v.n));
      }
      ScalarPushes(o, ScalarOf(v));
    }
  }

  lemma {:induction false} ElementsBuilt(o: seq<Event>, o1: seq<Event>, es: seq<Json>, i: nat)
    requires i <= |es| && AllLegal(es) && Pushes(o, o1, [JArray([])] + es[..i])
    ensures Pushes(o, o1 + ElementEvents(es, i), [JArray(es)])
    decreases es, 1, |es| - i
  {
    hide Pushes, ReadEvents;
    if i == |es| {
      assert es[..i] == es;
      CloseArray(o, o1, es);
    } else {
      var o2 := o1 + ReadEvents(es[i]);
      ValueBuilt(o1, es[i]);
      PushesBoth(o, o1, o2, [JArray([])] + es[..i], [es[i]]);
      assert [JArray([])] + es[..i] + [es[i]] == [JArray([])] + es[..i + 1];
      ElementsBuilt(o, o2, es, i + 1);
      assert o2 + ElementEvents(es, i + 1) == o1 + (ReadEvents(es[i]) + ElementEvents(es, i + 1));
    }
  }

  lemma {:induction false} MembersBuilt(o: seq<Event>, o1: seq<Event>, ms: seq<Member>, i: nat)
    requires i <= |ms| && AllMembersLegal(ms) && Pushes(o, o1, [JObject([])] + Flat(ms[..i]))
    ensures Pushes(o, o1 + MemberEvents(ms, i), [JObject(ms)])
    decreases ms, 1, |ms| - i
  {
    hide Pushes, ReadEvents, MemberEvents, Pairs, Flat, AllMembersLegal, Legal;
    MembersStep(ms, i);
    if i == |ms| {
      LastMember(o, o1, ms);
    } else {
      var o2 := o1 + [Key(ms[i].name)];
      var o3 := o2 + ReadEvents(ms[i].value);
      OneMemberLegal(ms, i);
      ValueBuilt(o2, ms[i].value);
      MemberBuilt(o, o1, o2, o3, ms, i);
      MembersBuilt(o, o3, ms, i + 1);
      Regrouped(o1, [Key(ms[i].name)], ReadEvents(ms[i].value), MemberEvents(ms, i + 1));
    }
  }

  lemma LastMember(o: seq<Event>, o1: seq<Event>, ms: seq<Member>)
    requires Pushes(o, o1, [JObject([])] + Flat(ms[..|ms|]))
    ensures Pushes(o, o1 + [EndObject(|ms|)], [JObject(ms)])
  {
    hide Pushes, Pairs, Flat;
    assert ms[..|ms|] == ms;
    FlatPairs(ms);
    CloseObject(o, o1, Flat(ms), |ms|);
  }

  lemma MemberBuilt(o: seq<Event>, o1: seq<Event>, o2: seq<Event>, o3: seq<Event>, ms: seq<Member>, i: nat)
    requires i < |ms| && Pushes(o, o1, [JObject([])] + Flat(ms[..i]))
    requires o2 == o1 + [Key(ms[i].name)] && Pushes(o2, o3, [ms[i].value])
    ensures Pushes(o, o3, [JObject([])] + Flat(ms[..i + 1]))
  {
    hide Pushes, Pairs, Flat;
    FlatPairs(ms[..i]);
    FlatStep(ms, i);
    MemberPushes(o, o1, o2, o3, Flat(ms[..i]), ms[i].name, ms[i].value);
  }

  lemma Regrouped(a: seq<Event>, b: seq<Event>, c: seq<Event>, d: seq<Event>)
    ensures a + b + c + d == a + (b + (c + d))
  {
  }

  lemma {:induction false} FlatAppend(a: seq<Member>, b: seq<Member>)
    ensures Flat(a + b) == Flat(a) + Flat(b)
  {
    if a == [] {
      assert a + b == b;
    } else {
      FlatAppend(a[1..], b);
      assert (a + b)[1..] == a[1..] + b;
    }
  }

  lemma FlatStep(ms: seq<Member>, i: nat)
    requires i < |ms|
    ensures Flat(ms[..i + 1]) == Flat(ms[..i]) + [JString(ms[i].name)] + [ms[i].value]
  {
    FlatAppend(ms[..i], [ms[i]]);
    assert ms[..i + 1] == ms[..i] + [ms[i]];
    assert Flat([ms[i]]) == [JString(ms[i].name), ms[i].value] + Flat([]);
  }

  /** Reading the text of a value reports the events of that value, whatever the flags, and
      those events build the value again: same members in the same order, same strings, same
      integers, and exactly one root. */
  lemma RoundTrip(env: Env, v: Json)
    requires GoesOn(env) && Legal(v) && env.s == Serialize(v)
    ensures WholeDocument(env).Done? && WholeDocument(env).at.pos == |env.s|
    ensures Build([], WholeDocument(env).at.out) == Some([v])
  {
    hide Serialize, ReadEvents, ValueAt, SkipAt, Build, Pushes, Legal;
    var t := Serialize(v);
    assert env.s[0..0 + |t|] == t;
    AtValue(env, 0, v);
    ReadValue(env, At(0, []), v);
    AtEnd(env, |t|);
    assert [] + ReadEvents(v) == ReadEvents(v);
    ValueBuilt([], v);
    Single(ReadEvents(v), v);
  }
}
