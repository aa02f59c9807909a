/** The value that a document denotes: what the events of the grammar describe, and that the
    document's stack builds it. */
module JsonMeaning {
  import opened Options
  import opened Bytes
  import opened Numerals
  import opened JsonLexer
  import opened JsonParser
  import opened JsonGrammar
  import opened JsonLanguage
  import opened JsonValue
  import opened JsonDocument
  import opened JsonAccepted

  // ---------------------------------------------------------------- what events describe

  ghost predicate IsInteger64(v: Json, i: int) {
    v.JNumber? && InRange(i) && v.n == Canonical(i)
  }

  ghost predicate ScalarDescribes(e: Scalar, v: Json) {
    match e
    case Null => v == JNull
    case Bool(b) => v == JBool(b)
    case Int(i) => IsInteger64(v, i)
    case Uint(u) => IsInteger64(v, u)
    case Int64(i64) => IsInteger64(v, i64)
    case Uint64(u64) => IsInteger64(v, u64)
    case Double(text) => v == JDouble(text)
    case String(t) => v == JString(t)
  }

  /** The events are those of a value: its scalar, or its elements or members between brackets. */
  ghost predicate Describes(es: seq<Event>, v: Json)
    decreases v, 0
  {
    match v
    case JArray(vs) => exists parts :: es == [StartArray] + Joined(parts) + [EndArray(|parts|)] && PartsDescribe(parts, vs)
    case JObject(ms) => exists parts :: es == [StartObject] + Joined(parts) + [EndObject(|parts|)] && PartsName(parts, ms)
    case _ => exists e :: es == [Value(e)] && ScalarDescribes(e, v)
  }

  ghost predicate PartsDescribe(parts: seq<seq<Event>>, vs: seq<Json>)
    decreases vs, 1
  {
    |parts| == |vs| && forall k :: 0 <= k < |parts| ==> Describes(parts[k], vs[k])
  }

  ghost predicate PartsName(parts: seq<seq<Event>>, ms: seq<Member>)
    decreases ms, 1
  {
    |parts| == |ms| && forall k :: 0 <= k < |parts| ==> parts[k] != [] && parts[k][0] == Key(ms[k].name) && Describes(parts[k][1..], ms[k].value)
  }

  // ---------------------------------------------------------------- the stack builds what is described

  lemma ScalarBuilds(e: Scalar, v: Json)
    requires ScalarDescribes(e, v) && Sized(e)
    ensures ScalarJson(e) == v
  {
    hide Canonical, OfInt, OfUint, OfInt64, OfUint64, InRange;
    match e
    case Int(i) => ConstructorsAgree(i);
    case Uint(u) => ConstructorsAgree(u);
    case Int64(i64) => ConstructorsAgree(i64);
    case Uint64(u64) => ConstructorsAgree(u64);
    case _ =>
  }

  /** No integer event is out of its range. */
  ghost predicate AllSized(es: seq<Event>) {
    forall k :: 0 <= k < |es| && es[k].Value? ==> Sized(es[k].v)
  }

  /** One value on top for the events that describe it. */
  lemma {:induction false} DescribedBuilds(es: seq<Event>, v: Json, stack: seq<Json>)
    requires Describes(es, v) && AllSized(es)
    ensures Build(stack, es) == Some(stack + [v])
    decreases v, 0
  {
    hide Build, AllSized, Joined, Flat, Handle;
    match v
    case JArray(vs) =>
      var parts :| es == [StartArray] + Joined(parts) + [EndArray(|parts|)] && PartsDescribe(parts, vs);
      InnerSized(es, StartArray, Joined(parts), EndArray(|parts|));
      PartsBuild(parts, vs, stack + [JArray([])]);
      ArrayBuilds(stack, Joined(parts), vs);
    case JObject(ms) =>
      var parts :| es == [StartObject] + Joined(parts) + [EndObject(|parts|)] && PartsName(parts, ms);
      InnerSized(es, StartObject, Joined(parts), EndObject(|parts|));
      NamesBuild(parts, ms, stack + [JObject([])]);
      ObjectBuilds(stack, Joined(parts), ms);
    case _ =>
      var e :| es == [Value(e)] && ScalarDescribes(e, v);
      ScalarPushed(e, v, stack);
  }

  lemma ScalarPushed(e: Scalar, v: Json, stack: seq<Json>)
    requires ScalarDescribes(e, v) && AllSized([Value(e)])
    ensures Build(stack, [Value(e)]) == Some(stack + [v])
  {
    OneSized(e);
    ScalarBuilds(e, v);
    BuildOne(stack, Value(e));
  }

  lemma OneSized(e: Scalar)
    ensures AllSized([Value(e)]) ==> Sized(e)
  {
    if AllSized([Value(e)]) { assert [Value(e)][0].Value?; }
  }

  lemma Regroup(x: seq<Json>, y: seq<Json>, z: seq<Json>)
    ensures x + y + z == x + (y + z)
  {
  }

  lemma InnerSized(es: seq<Event>, first: Event, inner: seq<Event>, last: Event)
    requires AllSized(es) && es == [first] + inner + [last]
    ensures AllSized(inner)
  {
    assert forall k :: 0 <= k < |inner| ==> es[k + 1] == inner[k];
  }

  /** A first event, those inside, and a last one. */
  lemma Between(stack: seq<Json>, first: Event, inner: seq<Event>, last: Event)
    requires Handle(stack, first).Some? && Build(Handle(stack, first).value, inner).Some?
    ensures Build(stack, [first] + inner + [last]) == Handle(Build(Handle(stack, first).value, inner).value, last)
  {
    hide Handle;
    BuildAppend(stack, [first] + inner, [last]);
    BuildAppend(stack, [first], inner);
    BuildOne(stack, first);
    BuildOne(Build(Handle(stack, first).value, inner).value, last);
  }

  lemma ArrayBuilds(stack: seq<Json>, inner: seq<Event>, vs: seq<Json>)
    requires Build(stack + [JArray([])], inner) == Some(stack + [JArray([])] + vs)
    ensures Build(stack, [StartArray] + inner + [EndArray(|vs|)]) == Some(stack + [JArray(vs)])
  {
    hide Build;
    Between(stack, StartArray, inner, EndArray(|vs|));
    UnderTop(stack, JArray([]), vs);
    Regroup(stack, [JArray([])], vs);
  }

  lemma ObjectBuilds(stack: seq<Json>, inner: seq<Event>, ms: seq<Member>)
    requires Build(stack + [JObject([])], inner) == Some(stack + [JObject([])] + Flat(ms))
    ensures Build(stack, [StartObject] + inner + [EndObject(|ms|)]) == Some(stack + [JObject(ms)])
  {
    hide Build, Flat, Pairs;
    Between(stack, StartObject, inner, EndObject(|ms|));
    UnderTop(stack, JObject([]), Flat(ms));
    Regroup(stack, [JObject([])], Flat(ms));
    FlatPairs(ms);
  }

  lemma {:induction false} PartsBuild(parts: seq<seq<Event>>, vs: seq<Json>, stack: seq<Json>)
    requires PartsDescribe(parts, vs) && AllSized(Joined(parts))
    ensures Build(stack, Joined(parts)) == Some(stack + vs)
    decreases vs, 1
  {
    hide AllSized, PartsDescribe, Describes, Joined, Build;
    if parts == [] {
      NoneBuilt(vs, stack);
    } else {
      RestSized(parts);
      FirstSized(parts);
      FirstDescribes(parts, vs);
      DescribedBuilds(parts[0], vs[0], stack);
      JoinedRest(parts);
      BuildAppend(stack, parts[0], Joined(parts[1..]));
      PartsBuild(parts[1..], vs[1..], stack + [vs[0]]);
      assert stack + [vs[0]] + vs[1..] == stack + vs;
    }
  }

  lemma NoneBuilt(vs: seq<Json>, stack: seq<Json>)
    requires PartsDescribe([], vs)
    ensures Build(stack, Joined([])) == Some(stack + vs)
  {
    assert stack + vs == stack;
  }

  lemma FirstSized(parts: seq<seq<Event>>)
    requires parts != [] && AllSized(Joined(parts))
    ensures AllSized(parts[0])
  {
    assert forall k :: 0 <= k < |parts[0]| ==> Joined(parts)[k] == parts[0][k];
  }

  lemma FirstDescribes(parts: seq<seq<Event>>, vs: seq<Json>)
    requires PartsDescribe(parts, vs) && parts != []
    ensures vs != [] && vs[0] in vs && Describes(parts[0], vs[0]) && PartsDescribe(parts[1..], vs[1..])
  {
  }

  lemma JoinedRest(parts: seq<seq<Event>>)
    requires parts != []
    ensures Joined(parts) == parts[0] + Joined(parts[1..])
  {
  }

  lemma RestSized(parts: seq<seq<Event>>)
    requires parts != [] && AllSized(Joined(parts))
    ensures AllSized(Joined(parts[1..]))
  {
    var rest := Joined(parts[1..]);
    assert forall k :: 0 <= k < |rest| ==> Joined(parts)[|parts[0]| + k] == rest[k];
  }

  lemma {:induction false} NamesBuild(parts: seq<seq<Event>>, ms: seq<Member>, stack: seq<Json>)
    requires PartsName(parts, ms) && AllSized(Joined(parts))
    ensures Build(stack, Joined(parts)) == Some(stack + Flat(ms))
    decreases ms, 1
  {
    hide AllSized, Describes;
    if parts == [] {
      assert stack + Flat(ms) == stack;
    } else {
      FirstSized(parts);
      RestSized(parts);
      assert ms[0] in ms;
      NameBuilds(parts[0], ms[0], stack);
      BuildAppend(stack, parts[0], Joined(parts[1..]));
      assert forall k :: 0 <= k < |parts| - 1 ==> parts[1..][k] == parts[k + 1] && ms[1..][k] == ms[k + 1];
      NamesBuild(parts[1..], ms[1..], stack + [JString(ms[0].name), ms[0].value]);
      Regroup(stack, [JString(ms[0].name), ms[0].value], Flat(ms[1..]));
    }
  }

  lemma {:induction false} NameBuilds(es: seq<Event>, m: Member, stack: seq<Json>)
    requires es != [] && es[0] == Key(m.name) && Describes(es[1..], m.value) && AllSized(es)
    ensures Build(stack, es) == Some(stack + [JString(m.name), m.value])
    decreases m, 1
  {
    assert AllSized(es[1..]);
    hide AllSized;
    DescribedBuilds(es[1..], m.value, stack + [JString(m.name)]);
    assert stack + [JString(m.name)] + [m.value] == stack + [JString(m.name), m.value];
  }

  // ---------------------------------------------------------------- every value of the grammar denotes one

  lemma ScalarDescribed(env: Env, i: nat, j: nat, e: Scalar) returns (v: Json)
    requires i <= j <= |env.s| && IsScalar(env, i, j, e)
    ensures ScalarDescribes(e, v) && Sized(e) && !v.JArray? && !v.JObject?
  {
    hide Canonical, Decimal, NumberParts;
    match e
    case Null => v := JNull;
    case Bool(b) => v := JBool(b);
    case Int(n) => v := JNumber(Canonical(n));
    case Uint(n) => v := JNumber(Canonical(n));
    case Int64(n) => v := JNumber(Canonical(n));
    case Uint64(n) => v := JNumber(Canonical(n));
    case Double(text) => v := JDouble(text);
    case String(t) => v := JString(t);
  }

  lemma OneDescribed(e: Scalar, v: Json)
    requires ScalarDescribes(e, v) && Sized(e) && !v.JArray? && !v.JObject?
    ensures Describes([Value(e)], v) && AllSized([Value(e)])
  {
  }

  lemma JoinSized(first: Event, inner: seq<Event>, last: Event)
    requires AllSized(inner) && !first.Value? && !last.Value?
    ensures AllSized([first] + inner + [last])
  {
  }

  lemma AppendSized(x: seq<Event>, y: seq<Event>)
    requires AllSized(x) && AllSized(y)
    ensures AllSized(x + y)
  {
  }

  lemma {:induction false} ValueDescribed(env: Env, i: nat, j: nat, es: seq<Event>) returns (v: Json)
    requires i <= j <= |env.s| && IsValue(env, i, j, es)
    ensures Describes(es, v) && AllSized(es)
    decreases j - i, 0
  {
    hide IsScalar, IsElements, IsMembers, IsGap, AllSized, Joined, ScalarDescribes, Sized;
    if e :| IsScalar(env, i, j, e) && es == [Value(e)] {
      v := ScalarDescribed(env, i, j, e);
      OneDescribed(e, v);
    } else if env.s[i] == '[' as int && IsArray(env, i + 1, j - 1, es) {
      if parts :| IsElements(env, i + 1, j - 1, parts) && es == [StartArray] + Joined(parts) + [EndArray(|parts|)] {
        var vs := ElementsDescribed(env, i + 1, j - 1, parts);
        v := JArray(vs);
        JoinSized(StartArray, Joined(parts), EndArray(|parts|));
      } else {
        v := JArray([]);
        NoParts(StartArray, EndArray(0));
        assert PartsDescribe([], []);
      }
    } else {
      if parts :| IsMembers(env, i + 1, j - 1, parts) && es == [StartObject] + Joined(parts) + [EndObject(|parts|)] {
        var ms := MembersDescribed(env, i + 1, j - 1, parts);
        v := JObject(ms);
        JoinSized(StartObject, Joined(parts), EndObject(|parts|));
      } else {
        v := JObject([]);
        NoParts(StartObject, EndObject(0));
        assert PartsName([], []);
      }
    }
  }

  lemma NoParts(first: Event, last: Event)
    requires !first.Value? && !last.Value?
    ensures Joined([]) == [] && [first, last] == [first] + Joined([]) + [last] && AllSized([first, last])
  {
  }

  lemma PaddedInside(env: Env, i: nat, j: nat, es: seq<Event>) returns (a: nat, b: nat)
    requires i <= j <= |env.s| && IsPadded(env, i, j, es)
    ensures i <= a <= b <= j && IsValue(env, a, b, es)
  {
    hide IsValue, IsGap;
    var a', b' :| i <= a' <= b' <= j && IsGap(env, i, a') && IsValue(env, a', b', es) && IsGap(env, b', j);
    a, b := a', b';
  }

  lemma {:induction false} ElementsDescribed(env: Env, i: nat, j: nat, parts: seq<seq<Event>>) returns (vs: seq<Json>)
    requires i <= j <= |env.s| && IsElements(env, i, j, parts)
    ensures PartsDescribe(parts, vs) && AllSized(Joined(parts))
    decreases j - i, 2
  {
    hide IsValue, IsGap, AllSized, Joined, Describes;
    var c :| i <= c <= j && IsPadded(env, i, c, parts[0]) && (|parts| > 1 ==> c < j && IsElements(env, c + 1, j, parts[1..]));
    var a, b := PaddedInside(env, i, c, parts[0]);
    var v := ValueDescribed(env, a, b, parts[0]);
    JoinedRest(parts);
    if |parts| == 1 {
      vs := [v];
      OneJoined(parts);
    } else {
      var rest := ElementsDescribed(env, c + 1, j, parts[1..]);
      vs := [v] + rest;
      AppendSized(parts[0], Joined(parts[1..]));
      assert forall k :: 0 < k < |parts| ==> parts[k] == parts[1..][k - 1] && vs[k] == rest[k - 1];
    }
  }

  lemma OneJoined(parts: seq<seq<Event>>)
    requires |parts| == 1
    ensures Joined(parts) == parts[0]
  {
    assert Joined(parts[1..]) == [];
  }

  lemma {:induction false} MemberDescribed(env: Env, i: nat, j: nat, es: seq<Event>) returns (m: Member)
    requires i <= j <= |env.s| && IsMember(env, i, j, es)
    ensures es != [] && es[0] == Key(m.name) && Describes(es[1..], m.value) && AllSized(es)
    decreases j - i, 2
  {
    hide IsValue, IsGap, IsString, Describes;
    var c, t, fs :| i <= c < j && IsPadded(env, c + 1, j, fs) && es == [Key(t)] + fs;
    hide IsMember;
    var a, b := PaddedInside(env, c + 1, j, fs);
    var v := ValueDescribed(env, a, b, fs);
    m := Member(t, v);
    assert es[1..] == fs;
  }

  lemma {:induction false} MembersDescribed(env: Env, i: nat, j: nat, parts: seq<seq<Event>>) returns (ms: seq<Member>)
    requires i <= j <= |env.s| && IsMembers(env, i, j, parts)
    ensures PartsName(parts, ms) && AllSized(Joined(parts))
    decreases j - i, 3
  {
    hide IsMember, IsGap, AllSized, Joined, Describes;
    var c :| i <= c <= j && IsMember(env, i, c, parts[0]) && (|parts| > 1 ==> c < j && IsMembers(env, c + 1, j, parts[1..]));
    var m := MemberDescribed(env, i, c, parts[0]);
    JoinedRest(parts);
    if |parts| == 1 {
      ms := [m];
      OneJoined(parts);
    } else {
      var rest := MembersDescribed(env, c + 1, j, parts[1..]);
      ms := [m] + rest;
      AppendSized(parts[0], Joined(parts[1..]));
      assert forall k :: 0 < k < |parts| ==> parts[k] == parts[1..][k - 1] && ms[k] == rest[k - 1];
    }
  }

  lemma RootOf(env: Env, n: nat, es: seq<Event>) returns (a: nat, b: nat)
    requires IsDocument(env, n, es)
    ensures a <= b <= n && IsValue(env, a, b, es)
  {
    hide IsValue, IsGap, Ended;
    if env.flags.stopWhenDone {
      var a' :| 0 <= a' <= n && IsGap(env, 0, a') && IsValue(env, a', n, es) && Ended(env.s, a', n);
      a, b := a', n;
    } else {
      a, b := PaddedInside(env, 0, n, es);
    }
  }

  /** The document's stack holds, after any accepted document, the one value that the events
      of the grammar describe. */
  lemma DocumentMeans(env: Env, n: nat, es: seq<Event>) returns (v: Json)
    requires IsDocument(env, n, es)
    ensures Describes(es, v) && Build([], es) == Some([v])
    ensures forall w :: Describes(es, w) ==> w == v
  {
    hide IsValue, IsGap, Describes, Build, AllSized, Ended;
    var a, b := RootOf(env, n, es);
    v := ValueDescribed(env, a, b, es);
    DescribedBuilds(es, v, []);
    assert [] + [v] == [v];
    forall w | Describes(es, w) ensures w == v {
      DescribedBuilds(es, w, []);
      assert ([] + [w])[0] == w;
    }
  }
}
