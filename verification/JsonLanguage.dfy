/** The parser takes exactly the documents of the grammar, with exactly their events. */
module JsonLanguage {
  import opened Options
  import opened Bytes
  import opened Numerals
  import opened JsonLexer
  import opened JsonParser
  import opened JsonGrammar

  // ---------------------------------------------------------------- one round of each list

  /** A byte behind a value and its blanks. */
  predicate Behind(c: Byte) {
    c == 0 || c == ',' as int || c == ']' as int || c == '}' as int
  }

  lemma SkipTo(env: Env, a: At, j: nat)
    requires a.pos <= j <= |env.s| && IsGap(env, a.pos, j) && BehindGap(Peek(env.s, j), env.flags.comments)
    ensures Skip(env, a) == Done(a.(pos := j))
  {
    hide SkipAt, Gap;
    GapIsSkipped(env.s, a.pos, j, env.flags.comments);
  }

  lemma SkipSound(env: Env, a: At)
    requires a.pos <= |env.s| && Skip(env, a).Done?
    ensures var b := Skip(env, a).at; b.out == a.out && a.pos <= b.pos <= |env.s| && IsGap(env, a.pos, b.pos)
  {
    hide SkipAt, Gap;
    SkippedIsGap(env.s, a.pos, env.flags.comments);
  }

  lemma ScalarRound(env: Env, a: At)
    requires GoesOn(env) && Here(env, a) != '{' as int && Here(env, a) != '[' as int
    ensures ValueAt(env, a) == match ScalarAt(env.s, a.pos, env.tooBig) case None => Failed(a.out) case Some((v, j)) => Done(At(j, a.out + [Value(v)]))
  {
    hide ScalarAt;
  }

  /** An array from its opening bracket on. */
  lemma ArrayRound(env: Env, a: At)
    requires GoesOn(env) && Here(env, a) == '[' as int
    ensures
      var r := Skip(env, At(a.pos + 1, a.out + [StartArray]));
      ValueAt(env, a) ==
        if r.Failed? then r
        else if Here(env, r.at) == ']' as int then Done(At(r.at.pos + 1, r.at.out + [EndArray(0)])) else Elements(env, r.at, 0)
  {
    hide Elements, Skip;
    assert ValueAt(env, a) == ArrayAt(env, a);
    var r := Skip(env, At(a.pos + 1, a.out + [StartArray]));
    if r.Done? { assert ArrayAt(env, a) == ArrayInside(env, r.at); }
  }

  lemma ObjectRound(env: Env, a: At)
    requires GoesOn(env) && Here(env, a) == '{' as int
    ensures
      var r := Skip(env, At(a.pos + 1, a.out + [StartObject]));
      ValueAt(env, a) ==
        if r.Failed? then r
        else if Here(env, r.at) == '}' as int then Done(At(r.at.pos + 1, r.at.out + [EndObject(0)])) else Members(env, r.at, 0)
  {
    hide Members, Skip;
    assert ValueAt(env, a) == ObjectAt(env, a);
    var r := Skip(env, At(a.pos + 1, a.out + [StartObject]));
    if r.Done? { assert ObjectAt(env, a) == ObjectInside(env, r.at); }
  }

  /** An element and the blanks behind it. */
  lemma ElementRound(env: Env, a: At, count: nat)
    ensures Elements(env, a, count).Done? ==> ValueAt(env, a).Done? && Skip(env, ValueAt(env, a).at).Done?
    ensures ValueAt(env, a).Done? && Skip(env, ValueAt(env, a).at).Done? ==>
      Elements(env, a, count) == AfterElement(env, Skip(env, ValueAt(env, a).at).at, count)
  {
    hide ValueAt, Skip, AfterElement;
  }

  /** What is behind an element. */
  lemma ElementsRound(env: Env, c: At, count: nat)
    requires GoesOn(env)
    ensures Here(env, c) == ']' as int ==> AfterElement(env, c, count) == Done(At(c.pos + 1, c.out + [EndArray(count + 1)]))
    ensures Here(env, c) == ',' as int && TakeSkip(env, c).Done? ==>
      var d := TakeSkip(env, c).at;
      AfterElement(env, c, count) ==
        if env.flags.trailingCommas && Here(env, d) == ']' as int then Done(At(d.pos + 1, d.out + [EndArray(count + 1)]))
        else Elements(env, d, count + 1)
    ensures AfterElement(env, c, count).Done? ==> Here(env, c) == ']' as int || (Here(env, c) == ',' as int && TakeSkip(env, c).Done?)
  {
    hide Skip, TakeSkip, Elements;
    if Here(env, c) == ',' as int && TakeSkip(env, c).Done? {
      assert AfterElement(env, c, count) == AfterElementComma(env, TakeSkip(env, c).at, count + 1);
    }
  }

  /** A name and the colon behind it. */
  lemma NameRound(env: Env, a: At, count: nat)
    ensures Members(env, a, count).Done? ==>
      KeyAt(env, a).Done? && Skip(env, KeyAt(env, a).at).Done? && Here(env, Skip(env, KeyAt(env, a).at).at) == ':' as int
      && TakeSkip(env, Skip(env, KeyAt(env, a).at).at).Done?
    ensures KeyAt(env, a).Done? && Skip(env, KeyAt(env, a).at).Done? ==>
      var b := Skip(env, KeyAt(env, a).at).at;
      Here(env, b) == ':' as int && TakeSkip(env, b).Done? ==> Members(env, a, count) == AfterColon(env, TakeSkip(env, b).at, count)
  {
    hide ValueAt, Skip, TakeSkip, KeyAt, AfterColon;
    if KeyAt(env, a).Done? && Skip(env, KeyAt(env, a).at).Done? {
      assert Members(env, a, count) == AfterKey(env, Skip(env, KeyAt(env, a).at).at, count);
    }
  }

  lemma ColonRound(env: Env, a: At, count: nat)
    ensures AfterColon(env, a, count).Done? ==> ValueAt(env, a).Done? && Skip(env, ValueAt(env, a).at).Done?
    ensures ValueAt(env, a).Done? && Skip(env, ValueAt(env, a).at).Done? ==>
      AfterColon(env, a, count) == AfterMember(env, Skip(env, ValueAt(env, a).at).at, count)
  {
    hide ValueAt, Skip, AfterMember;
  }

  /** What is behind a member. */
  lemma MembersRound(env: Env, c: At, count: nat)
    requires GoesOn(env)
    ensures Here(env, c) == '}' as int ==> AfterMember(env, c, count) == Done(At(c.pos + 1, c.out + [EndObject(count + 1)]))
    ensures Here(env, c) == ',' as int && TakeSkip(env, c).Done? ==>
      var d := TakeSkip(env, c).at;
      AfterMember(env, c, count) ==
        if env.flags.trailingCommas && Here(env, d) == '}' as int then Done(At(d.pos + 1, d.out + [EndObject(count + 1)]))
        else Members(env, d, count + 1)
    ensures AfterMember(env, c, count).Done? ==> Here(env, c) == '}' as int || (Here(env, c) == ',' as int && TakeSkip(env, c).Done?)
  {
    hide Skip, TakeSkip, Members;
    if Here(env, c) == ',' as int && TakeSkip(env, c).Done? {
      assert AfterMember(env, c, count) == AfterMemberComma(env, TakeSkip(env, c).at, count + 1);
    }
  }

  lemma TakeSkipIs(env: Env, c: At)
    requires c.pos < |env.s|
    ensures TakeSkip(env, c) == Skip(env, At(c.pos + 1, c.out))
  {
  }

  // ---------------------------------------------------------------- the parser takes what the grammar has

  /** A byte that starts a gap or stands behind it continues no number. */
  lemma EndedBefore(env: Env, i: nat, b: nat, j: nat)
    requires i <= b <= j <= |env.s| && IsGap(env, b, j) && Behind(Peek(env.s, j))
    ensures Ended(env.s, i, b)
  {
    hide IsInteger, IsFraction, IsExponent;
    var s := env.s;
    GapStarts(s, b, j, env.flags.comments);
    forall start: nat, a: nat, k: nat | NumberParts(s, i, b, start, a, k) ensures PartsEnd(s, start, a, k, b) {
      IntegerStops(s, a, k, b);
      FractionStarts(s, a, k);
    }
  }

  lemma FractionStarts(s: Text, a: nat, b: nat)
    requires a <= b <= |s| && IsFraction(s, a, b)
    ensures a < b ==> s[a] == '.' as int
  {
  }

  lemma GapStarts(s: Text, b: nat, j: nat, comments: bool)
    requires b <= j <= |s| && Gap(s, b, j, comments)
    ensures b < j ==> IsBlank(s[b]) || s[b] == '/' as int
  {
  }

  lemma {:induction false} ValueComplete(env: Env, i: nat, j: nat, es: seq<Event>, out: seq<Event>)
    requires GoesOn(env) && i <= j <= |env.s| && IsValue(env, i, j, es) && Ended(env.s, i, j)
    ensures ValueAt(env, At(i, out)) == Done(At(j, out + es))
    ensures i < j && First(env.s[i])
    decreases j - i, 0
  {
    hide IsGap, Ended, IsScalar, IsArray, IsObject, ScalarAt, ValueAt;
    var s, a := env.s, At(i, out);
    if v :| IsScalar(env, i, j, v) && es == [Value(v)] {
      ScalarComplete(env, i, j, v);
      ScalarRound(env, a);
    } else if s[i] == '[' as int {
      ArrayComplete(env, i, j, es, out);
    } else {
      ObjectComplete(env, i, j, es, out);
    }
  }

  lemma {:induction false} ArrayComplete(env: Env, i: nat, j: nat, es: seq<Event>, out: seq<Event>)
    requires GoesOn(env) && i + 2 <= j <= |env.s| && env.s[i] == '[' as int && env.s[j - 1] == ']' as int && IsArray(env, i + 1, j - 1, es)
    ensures ValueAt(env, At(i, out)) == Done(At(j, out + es))
    decreases j - i - 1, 4
  {
    hide IsGap, IsElements, ValueAt, Elements, Skip;
    ArrayRound(env, At(i, out));
    if IsGap(env, i + 1, j - 1) && es == [StartArray, EndArray(0)] {
      SkipTo(env, At(i + 1, out + [StartArray]), j - 1);
      assert out + es == out + [StartArray] + [EndArray(0)];
    } else {
      var parts :| IsElements(env, i + 1, j - 1, parts) && es == [StartArray] + Joined(parts) + [EndArray(|parts|)];
      var p := ElementsComplete(env, i + 1, j - 1, parts, out + [StartArray], 0);
      assert out + es == out + [StartArray] + Joined(parts) + [EndArray(|parts|)];
    }
  }

  lemma {:induction false} ObjectComplete(env: Env, i: nat, j: nat, es: seq<Event>, out: seq<Event>)
    requires GoesOn(env) && i + 2 <= j <= |env.s| && env.s[i] == '{' as int && env.s[j - 1] == '}' as int && IsObject(env, i + 1, j - 1, es)
    ensures ValueAt(env, At(i, out)) == Done(At(j, out + es))
    decreases j - i - 1, 5
  {
    hide IsGap, IsMembers, ValueAt, Members, Skip;
    ObjectRound(env, At(i, out));
    if IsGap(env, i + 1, j - 1) && es == [StartObject, EndObject(0)] {
      SkipTo(env, At(i + 1, out + [StartObject]), j - 1);
      assert out + es == out + [StartObject] + [EndObject(0)];
    } else {
      var parts :| IsMembers(env, i + 1, j - 1, parts) && es == [StartObject] + Joined(parts) + [EndObject(|parts|)];
      var p := MembersComplete(env, i + 1, j - 1, parts, out + [StartObject], 0);
      assert out + es == out + [StartObject] + Joined(parts) + [EndObject(|parts|)];
    }
  }

  /** Blanks, a value and blanks are taken up to the byte behind them. */
  lemma {:induction false} PaddedComplete(env: Env, i: nat, j: nat, es: seq<Event>, out: seq<Event>) returns (a: nat)
    requires GoesOn(env) && i <= j <= |env.s| && IsPadded(env, i, j, es) && Behind(Peek(env.s, j))
    ensures i <= a < j && First(env.s[a]) && Skip(env, At(i, out)) == Done(At(a, out))
    ensures ValueAt(env, At(a, out)).Done? && Skip(env, ValueAt(env, At(a, out)).at) == Done(At(j, out + es))
    decreases j - i, 1
  {
    hide Gap, IsValue, ValueAt, Skip, Ended;
    var a', b :| i <= a' <= b <= j && IsGap(env, i, a') && IsValue(env, a', b, es) && IsGap(env, b, j);
    a := a';
    EndedBefore(env, a, b, j);
    ValueComplete(env, a, b, es, out);
    SkipTo(env, At(i, out), a);
    SkipTo(env, At(b, out + es), j);
  }

  lemma Rejoin(out: seq<Event>, parts: seq<seq<Event>>, e: Event)
    requires parts != []
    ensures out + parts[0] + Joined(parts[1..]) + [e] == out + Joined(parts) + [e]
    ensures |parts| == 1 ==> Joined(parts) == parts[0]
  {
    assert Joined(parts) == parts[0] + Joined(parts[1..]);
    assert |parts| == 1 ==> Joined(parts[1..]) == [];
    hide Joined;
    Regroup(out, parts[0], Joined(parts[1..]));
  }

  lemma Regroup(x: seq<Event>, y: seq<Event>, z: seq<Event>)
    ensures x + y + z == x + (y + z)
  {
  }

  lemma {:induction false} ElementsComplete(env: Env, i: nat, j: nat, parts: seq<seq<Event>>, out: seq<Event>, count: nat) returns (p: nat)
    requires GoesOn(env) && i <= j < |env.s| && IsElements(env, i, j, parts) && env.s[j] == ']' as int
    ensures i <= p < j && First(env.s[p]) && Skip(env, At(i, out)) == Done(At(p, out))
    ensures Elements(env, At(p, out), count) == Done(At(j + 1, out + Joined(parts) + [EndArray(count + |parts|)]))
    decreases j - i, 2
  {
    hide IsGap, IsPadded, ValueAt, Skip, Elements, AfterElement, TakeSkip, Joined;
    var s := env.s;
    var c :| i <= c <= j && IsPadded(env, i, c, parts[0]) &&
      (if |parts| == 1 then c == j || IsTrailing(env, c, j) else c < j && s[c] == ',' as int && IsElements(env, c + 1, j, parts[1..]));
    p := PaddedComplete(env, i, c, parts[0], out);
    var b := At(c, out + parts[0]);
    ElementRound(env, At(p, out), count);
    ElementsRound(env, b, count);
    Rejoin(out, parts, EndArray(count + |parts|));
    if c < j {
      TakeSkipIs(env, b);
      if |parts| == 1 {
        SkipTo(env, At(c + 1, b.out), j);
      } else {
        var q := ElementsComplete(env, c + 1, j, parts[1..], b.out, count + 1);
      }
    }
  }

  lemma KeyRound(env: Env, a: At)
    requires GoesOn(env)
    ensures KeyAt(env, a) ==
      if Here(env, a) != '"' as int then Failed(a.out)
      else match StringAt(env.s, a.pos + 1) case None => Failed(a.out) case Some((t, j)) => Done(At(j, a.out + [Key(t)]))
  {
    hide StringAt;
  }

  /** The name of a member and the colon. */
  lemma NameComplete(env: Env, a: nat, b: nat, c: nat, d: nat, t: Text, out: seq<Event>, count: nat)
    requires GoesOn(env) && a <= b <= c < d <= |env.s| && IsString(env.s, a, b, t) && IsGap(env, b, c) && env.s[c] == ':' as int
    requires Skip(env, At(c + 1, out + [Key(t)])) == Done(At(d, out + [Key(t)]))
    ensures a < b && env.s[a] == '"' as int
    ensures Members(env, At(a, out), count) == AfterColon(env, At(d, out + [Key(t)]), count)
  {
    hide IsGap, IsCharacters, Skip, KeyAt, Members, AfterColon, StringAt, TakeSkip;
    StringComplete(env.s, a + 1, b - 1, t);
    KeyRound(env, At(a, out));
    SkipTo(env, At(b, out + [Key(t)]), c);
    TakeSkipIs(env, At(c, out + [Key(t)]));
    NameRound(env, At(a, out), count);
  }

  /** A member is taken up to the byte behind it. */
  lemma {:induction false} MemberComplete(env: Env, i: nat, j: nat, es: seq<Event>, out: seq<Event>, count: nat) returns (p: nat)
    requires GoesOn(env) && i <= j <= |env.s| && IsMember(env, i, j, es) && Behind(Peek(env.s, j))
    ensures i <= p < j && env.s[p] == '"' as int && Skip(env, At(i, out)) == Done(At(p, out))
    ensures Members(env, At(p, out), count) == AfterMember(env, At(j, out + es), count)
    decreases j - i, 2
  {
    hide IsGap, IsPadded, IsString, Skip, ValueAt, AfterMember, Members, AfterColon;
    var s := env.s;
    var a, b, c, t, fs :|
      && i <= a <= b <= c < j && IsGap(env, i, a) && IsString(s, a, b, t) && IsGap(env, b, c)
      && s[c] == ':' as int && IsPadded(env, c + 1, j, fs) && es == [Key(t)] + fs;
    p := a;
    var named := out + [Key(t)];
    var d := PaddedComplete(env, c + 1, j, fs, named);
    NameComplete(env, a, b, c, d, t, out, count);
    SkipTo(env, At(i, out), a);
    ColonRound(env, At(d, named), count);
    assert named + fs == out + es;
  }

  lemma {:induction false} MembersComplete(env: Env, i: nat, j: nat, parts: seq<seq<Event>>, out: seq<Event>, count: nat) returns (p: nat)
    requires GoesOn(env) && i <= j < |env.s| && IsMembers(env, i, j, parts) && env.s[j] == '}' as int
    ensures i <= p < j && env.s[p] == '"' as int && Skip(env, At(i, out)) == Done(At(p, out))
    ensures Members(env, At(p, out), count) == Done(At(j + 1, out + Joined(parts) + [EndObject(count + |parts|)]))
    decreases j - i, 3
  {
    hide IsGap, IsMember, Skip, Members, AfterMember, TakeSkip, Joined;
    var s := env.s;
    var c :| i <= c <= j && IsMember(env, i, c, parts[0]) &&
      (if |parts| == 1 then c == j || IsTrailing(env, c, j) else c < j && s[c] == ',' as int && IsMembers(env, c + 1, j, parts[1..]));
    p := MemberComplete(env, i, c, parts[0], out, count);
    var b := At(c, out + parts[0]);
    MembersRound(env, b, count);
    Rejoin(out, parts, EndObject(count + |parts|));
    if c < j {
      TakeSkipIs(env, b);
      if |parts| == 1 {
        SkipTo(env, At(c + 1, b.out), j);
      } else {
        var q := MembersComplete(env, c + 1, j, parts[1..], b.out, count + 1);
      }
    }
  }

  // ---------------------------------------------------------------- what the parser takes is in the grammar

  lemma {:induction false} ValueSound(env: Env, a: At) returns (es: seq<Event>)
    requires GoesOn(env) && ValueAt(env, a).Done?
    ensures var r := ValueAt(env, a).at; r.out == a.out + es && IsValue(env, a.pos, r.pos, es) && Ended(env.s, a.pos, r.pos)
    decreases |env.s| - a.pos, 3
  {
    hide IsGap, Ended, IsScalar, IsArray, IsObject, ScalarAt, ValueAt;
    if Here(env, a) == '{' as int {
      es := ObjectSound(env, a);
      NoNumber(env.s, a.pos, ValueAt(env, a).at.pos);
    } else if Here(env, a) == '[' as int {
      es := ArraySound(env, a);
      NoNumber(env.s, a.pos, ValueAt(env, a).at.pos);
    } else {
      ScalarRound(env, a);
      ScalarSound(env, a.pos);
      es := [Value(ScalarAt(env.s, a.pos, env.tooBig).value.0)];
    }
  }

  lemma {:induction false} ArraySound(env: Env, a: At) returns (es: seq<Event>)
    requires GoesOn(env) && ValueAt(env, a).Done? && Here(env, a) == '[' as int
    ensures var r := ValueAt(env, a).at; r.out == a.out + es && a.pos + 2 <= r.pos && env.s[r.pos - 1] == ']' as int && IsArray(env, a.pos + 1, r.pos - 1, es)
    decreases |env.s| - a.pos, 2
  {
    hide IsGap, IsElements, ValueAt, Elements, Skip;
    ArrayRound(env, a);
    var b := At(a.pos + 1, a.out + [StartArray]);
    SkipSound(env, b);
    var p := Skip(env, b).at;
    if Here(env, p) == ']' as int {
      es := [StartArray, EndArray(0)];
      assert a.out + es == p.out + [EndArray(0)];
    } else {
      var parts := ElementsSound(env, p, 0, a.pos + 1);
      es := [StartArray] + Joined(parts) + [EndArray(|parts|)];
      assert a.out + es == p.out + Joined(parts) + [EndArray(|parts|)];
    }
  }

  lemma {:induction false} ObjectSound(env: Env, a: At) returns (es: seq<Event>)
    requires GoesOn(env) && ValueAt(env, a).Done? && Here(env, a) == '{' as int
    ensures var r := ValueAt(env, a).at; r.out == a.out + es && a.pos + 2 <= r.pos && env.s[r.pos - 1] == '}' as int && IsObject(env, a.pos + 1, r.pos - 1, es)
    decreases |env.s| - a.pos, 2
  {
    hide IsGap, IsMembers, ValueAt, Members, Skip;
    ObjectRound(env, a);
    var b := At(a.pos + 1, a.out + [StartObject]);
    SkipSound(env, b);
    var p := Skip(env, b).at;
    if Here(env, p) == '}' as int {
      es := [StartObject, EndObject(0)];
      assert a.out + es == p.out + [EndObject(0)];
    } else {
      var parts := MembersSound(env, p, 0, a.pos + 1);
      es := [StartObject] + Joined(parts) + [EndObject(|parts|)];
      assert a.out + es == p.out + Joined(parts) + [EndObject(|parts|)];
    }
  }

  /** A value behind a gap, and the gap behind it. */
  lemma {:induction false} PaddedSound(env: Env, i: nat, a: At) returns (es: seq<Event>)
    requires GoesOn(env) && i <= a.pos <= |env.s| && IsGap(env, i, a.pos)
    requires ValueAt(env, a).Done? && Skip(env, ValueAt(env, a).at).Done?
    ensures var c := Skip(env, ValueAt(env, a).at).at; c.out == a.out + es && a.pos < c.pos <= |env.s| && IsPadded(env, i, c.pos, es)
    decreases |env.s| - a.pos, 4
  {
    hide IsGap, IsValue, ValueAt, Skip, Ended;
    es := ValueSound(env, a);
    SkipSound(env, ValueAt(env, a).at);
  }

  lemma OnePart(es: seq<Event>)
    ensures Joined([es]) == es
  {
    assert Joined([]) == [];
  }

  lemma MoreParts(out: seq<Event>, es: seq<Event>, parts: seq<seq<Event>>, e: Event)
    ensures ([es] + parts)[1..] == parts && out + es + Joined(parts) + [e] == out + Joined([es] + parts) + [e]
  {
    assert ([es] + parts)[1..] == parts;
    hide Joined;
    Rejoin(out, [es] + parts, e);
  }

  lemma {:induction false} ElementsSound(env: Env, a: At, count: nat, i: nat) returns (parts: seq<seq<Event>>)
    requires GoesOn(env) && i <= a.pos <= |env.s| && IsGap(env, i, a.pos) && Elements(env, a, count).Done?
    ensures var r := Elements(env, a, count).at;
      && i < r.pos && r.out == a.out + Joined(parts) + [EndArray(count + |parts|)]
      && env.s[r.pos - 1] == ']' as int && IsElements(env, i, r.pos - 1, parts)
    decreases |env.s| - a.pos, 5
  {
    hide IsGap, IsPadded, ValueAt, Skip, Elements, AfterElement, TakeSkip, Joined;
    ElementRound(env, a, count);
    var es := PaddedSound(env, i, a);
    var c := Skip(env, ValueAt(env, a).at).at;
    ElementsRound(env, c, count);
    parts := [es];
    OnePart(es);
    if Here(env, c) == ',' as int {
      TakeSkipIs(env, c);
      SkipSound(env, At(c.pos + 1, c.out));
      var d := TakeSkip(env, c).at;
      if !(env.flags.trailingCommas && Here(env, d) == ']' as int) {
        var more := ElementsSound(env, d, count + 1, c.pos + 1);
        MoreParts(a.out, es, more, EndArray(count + 1 + |more|));
        parts := [es] + more;
      }
    }
  }

  lemma KeySound(env: Env, a: At) returns (t: Text)
    requires GoesOn(env) && KeyAt(env, a).Done?
    ensures var r := KeyAt(env, a).at; r.out == a.out + [Key(t)] && IsString(env.s, a.pos, r.pos, t)
  {
    hide IsCharacters, StringAt;
    KeyRound(env, a);
    StringSound(env.s, a.pos + 1);
    t := StringAt(env.s, a.pos + 1).value.0;
  }

  /** A member behind a gap, and what is behind it. */
  lemma {:induction false} MemberSound(env: Env, a: At, count: nat, i: nat) returns (es: seq<Event>, c: At)
    requires GoesOn(env) && i <= a.pos <= |env.s| && IsGap(env, i, a.pos) && Members(env, a, count).Done?
    ensures a.pos < c.pos <= |env.s| && c.out == a.out + es && IsMember(env, i, c.pos, es)
    ensures Members(env, a, count) == AfterMember(env, c, count)
    decreases |env.s| - a.pos, 5
  {
    hide IsGap, IsPadded, IsString, ValueAt, Skip, KeyAt, Members, AfterMember, AfterColon, TakeSkip;
    NameRound(env, a, count);
    var t := KeySound(env, a);
    var k := KeyAt(env, a).at;
    SkipSound(env, k);
    var b := Skip(env, k).at;
    TakeSkipIs(env, b);
    SkipSound(env, At(b.pos + 1, b.out));
    var v := TakeSkip(env, b).at;
    ColonRound(env, v, count);
    var fs := PaddedSound(env, b.pos + 1, v);
    c := Skip(env, ValueAt(env, v).at).at;
    es := [Key(t)] + fs;
    assert a.out + es == v.out + fs;
  }

  lemma {:induction false} MembersSound(env: Env, a: At, count: nat, i: nat) returns (parts: seq<seq<Event>>)
    requires GoesOn(env) && i <= a.pos <= |env.s| && IsGap(env, i, a.pos) && Members(env, a, count).Done?
    ensures var r := Members(env, a, count).at;
      && i < r.pos && r.out == a.out + Joined(parts) + [EndObject(count + |parts|)]
      && env.s[r.pos - 1] == '}' as int && IsMembers(env, i, r.pos - 1, parts)
    decreases |env.s| - a.pos, 6
  {
    hide IsGap, IsMember, Skip, Members, AfterMember, TakeSkip, Joined;
    var es, c := MemberSound(env, a, count, i);
    MembersRound(env, c, count);
    parts := [es];
    OnePart(es);
    if Here(env, c) == ',' as int {
      TakeSkipIs(env, c);
      SkipSound(env, At(c.pos + 1, c.out));
      var d := TakeSkip(env, c).at;
      if !(env.flags.trailingCommas && Here(env, d) == '}' as int) {
        var more := MembersSound(env, d, count + 1, c.pos + 1);
        MoreParts(a.out, es, more, EndObject(count + 1 + |more|));
        parts := [es] + more;
      }
    }
  }

  // ---------------------------------------------------------------- the language

  /** What the parser makes of the root, behind the blanks before it. */
  lemma RootRound(env: Env, a: At)
    ensures ValueAt(env, a).Done? && Here(env, a) != 0 ==>
      var b := ValueAt(env, a).at;
      Root(env, a) ==
        if env.flags.stopWhenDone then Done(b)
        else if Skip(env, b).Failed? then Skip(env, b)
        else if Here(env, Skip(env, b).at) == 0 then Skip(env, b) else Failed(Skip(env, b).at.out)
    ensures Root(env, a).Done? ==> ValueAt(env, a).Done? && Here(env, a) != 0
  {
    hide ValueAt, Skip;
  }

  /** The parser ends at `n` with the events `es` exactly if the text up to there is a document
      with those events. */
  lemma DocumentExactly(env: Env, n: nat, es: seq<Event>)
    requires GoesOn(env)
    ensures WholeDocument(env) == Done(At(n, es)) <==> IsDocument(env, n, es)
  {
    if WholeDocument(env) == Done(At(n, es)) { DocumentSound(env, n, es); }
    if IsDocument(env, n, es) { DocumentComplete(env, n, es); }
  }

  lemma DocumentSound(env: Env, n: nat, es: seq<Event>)
    requires GoesOn(env) && WholeDocument(env) == Done(At(n, es))
    ensures IsDocument(env, n, es)
  {
    hide IsPadded, ValueAt, Skip, IsValue, Gap, Ended, Root;
    SkipSound(env, At(0, []));
    var a := Skip(env, At(0, [])).at;
    RootRound(env, a);
    var fs := ValueSound(env, a);
    assert [] + fs == fs;
    if !env.flags.stopWhenDone {
      var gs := PaddedSound(env, 0, a);
      assert [] + gs == gs;
    }
  }

  lemma DocumentComplete(env: Env, n: nat, es: seq<Event>)
    requires GoesOn(env) && IsDocument(env, n, es)
    ensures WholeDocument(env) == Done(At(n, es))
  {
    hide IsPadded, ValueAt, Skip, IsValue, Gap, Ended, Root;
    if env.flags.stopWhenDone {
      var a :| 0 <= a <= n && IsGap(env, 0, a) && IsValue(env, a, n, es) && Ended(env.s, a, n);
      ValueComplete(env, a, n, es, []);
      SkipTo(env, At(0, []), a);
      RootRound(env, At(a, []));
    } else {
      var a := PaddedComplete(env, 0, n, es, []);
      RootRound(env, At(a, []));
    }
  }
}
