/** What a handler that ends the parse sees: the events of the language up to the first one
    after which it does not go on, and no others. */
module JsonHandler {
  import opened Options
  import opened Bytes
  import opened JsonLexer
  import opened JsonParser

  /** The same text and flags, with a handler that always goes on. */
  function Free(env: Env): Env {
    Env(env.s, env.flags, env.tooBig, (out: seq<Event>) => true)
  }

  function Out(r: Outcome): seq<Event> {
    match r
    case Done(a) => a.out
    case Failed(out) => out
  }

  /** The first number of events, from `k` on, after which the handler does not go on. */
  ghost function FirstRefused(goOn: seq<Event> -> bool, out: seq<Event>, k: nat): Option<nat>
    decreases |out| - k
  {
    if k > |out| then None else if !goOn(out[..k]) then Some(k) else FirstRefused(goOn, out, k + 1)
  }

  /** `r` is what becomes of the free outcome `f` behind the events `base`. */
  ghost predicate Follows(env: Env, base: seq<Event>, f: Outcome, r: Outcome) {
    && base <= Out(f)
    && match FirstRefused(env.goOn, Out(f), |base| + 1)
       case None => r == f
       case Some(k) => k <= |Out(f)| && r == Failed(Out(f)[..k])
  }

  /** More events do not change what is refused before them. */
  lemma {:induction false} RefusedEarlier(goOn: seq<Event> -> bool, x: seq<Event>, y: seq<Event>, k: nat)
    requires x <= y && k <= |x| + 1
    ensures FirstRefused(goOn, y, k) == if FirstRefused(goOn, x, k).Some? then FirstRefused(goOn, x, k) else FirstRefused(goOn, y, |x| + 1)
    ensures FirstRefused(goOn, x, k).Some? ==> k <= FirstRefused(goOn, x, k).value <= |x|
    decreases |x| + 1 - k
  {
    if k <= |x| {
      assert x[..k] == y[..k];
      RefusedEarlier(goOn, x, y, k + 1);
    }
  }

  /** One part of a parse after the other: `g` goes on where `f` ends. */
  lemma InTurn(env: Env, base: seq<Event>, f: Outcome, r: Outcome, g: Outcome, t: Outcome, g': Outcome, t': Outcome)
    requires Follows(env, base, f, r)
    requires f.Done? ==> Follows(env, f.at.out, g, t)
    requires g' == (if f.Done? then g else f) && t' == (if r.Done? then t else r)
    ensures Follows(env, base, g', t')
  {
    if f.Done? {
      RefusedEarlier(env.goOn, f.at.out, Out(g), |base| + 1);
      if r.Failed? {
        var k := FirstRefused(env.goOn, f.at.out, |base| + 1).value;
        assert Out(g)[..k] == f.at.out[..k];
      }
    }
  }

  lemma Nothing(env: Env, base: seq<Event>, r: Outcome)
    requires Out(r) == base
    ensures Follows(env, base, r, r)
  {
  }

  lemma EmitFollows(env: Env, pos: nat, out: seq<Event>, e: Event)
    ensures Follows(env, out, Emit(Free(env), pos, out, e), Emit(env, pos, out, e))
  {
    var all := out + [e];
    assert all[..|all|] == all;
    assert FirstRefused(env.goOn, all, |all| + 1) == None;
  }

  lemma SkipFollows(env: Env, a: At)
    ensures Skip(env, a) == Skip(Free(env), a) && Follows(env, a.out, Skip(Free(env), a), Skip(env, a))
    ensures a.pos < |env.s| ==> TakeSkip(env, a) == TakeSkip(Free(env), a) && Follows(env, a.out, TakeSkip(Free(env), a), TakeSkip(env, a))
  {
    hide SkipAt;
    Nothing(env, a.out, Skip(env, a));
    if a.pos < |env.s| { Nothing(env, a.out, TakeSkip(env, a)); }
  }

  lemma ScalarFollows(env: Env, a: At)
    ensures Follows(env, a.out, ScalarValue(Free(env), a), ScalarValue(env, a))
  {
    hide ScalarAt;
    match ScalarAt(env.s, a.pos, env.tooBig)
    case None => Nothing(env, a.out, Failed(a.out));
    case Some((v, j)) => EmitFollows(env, j, a.out, Value(v));
  }

  lemma KeyFollows(env: Env, a: At)
    ensures Follows(env, a.out, KeyAt(Free(env), a), KeyAt(env, a))
  {
    hide StringAt;
    if Here(env, a) == '"' as int && StringAt(env.s, a.pos + 1).Some? {
      var (name, j) := StringAt(env.s, a.pos + 1).value;
      EmitFollows(env, j, a.out, Key(name));
    } else {
      Nothing(env, a.out, Failed(a.out));
    }
  }

  // ---------------------------------------------------------------- values

  lemma {:induction false} ValueFollows(env: Env, a: At)
    ensures Follows(env, a.out, ValueAt(Free(env), a), ValueAt(env, a))
    decreases |env.s| - a.pos, 3
  {
    hide Follows, ScalarValue, ObjectAt, ArrayAt;
    if Here(env, a) == '{' as int {
      ObjectFollows(env, a);
    } else if Here(env, a) == '[' as int {
      ArrayFollows(env, a);
    } else {
      ScalarFollows(env, a);
    }
  }

  lemma {:induction false} ObjectFollows(env: Env, a: At)
    requires a.pos < |env.s|
    ensures Follows(env, a.out, ObjectAt(Free(env), a), ObjectAt(env, a))
    decreases |env.s| - a.pos, 2
  {
    hide Follows, Skip, ObjectInside, Emit, TakeSkip;
    var f, r := Emit(Free(env), a.pos, a.out, StartObject), Emit(env, a.pos, a.out, StartObject);
    EmitFollows(env, a.pos, a.out, StartObject);
    EmitIs(env, a.pos, a.out, StartObject);
    var b := At(a.pos, a.out + [StartObject]);
    SkipFollows(env, b);
    var s := TakeSkip(env, b);
    if s.Done? { InsideObjectFollows(env, s.at); }
    var g := if s.Done? then ObjectInside(Free(env), s.at) else s;
    var t := if s.Done? then ObjectInside(env, s.at) else s;
    InTurn(env, b.out, s, s, g, t, g, t);
    InTurn(env, a.out, f, r, g, t, ObjectAt(Free(env), a), ObjectAt(env, a));
  }

  lemma EmitIs(env: Env, pos: nat, out: seq<Event>, e: Event)
    ensures Emit(Free(env), pos, out, e) == Done(At(pos, out + [e]))
    ensures Emit(env, pos, out, e).Done? ==> Emit(env, pos, out, e) == Done(At(pos, out + [e]))
  {
  }

  lemma {:induction false} InsideObjectFollows(env: Env, a: At)
    ensures Follows(env, a.out, ObjectInside(Free(env), a), ObjectInside(env, a))
    decreases |env.s| - a.pos, 6
  {
    hide Follows, Members, Emit;
    if Here(env, a) == '}' as int { EmitFollows(env, a.pos + 1, a.out, EndObject(0)); } else { MembersFollow(env, a, 0); }
  }

  lemma {:induction false} MembersFollow(env: Env, a: At, count: nat)
    ensures Follows(env, a.out, Members(Free(env), a, count), Members(env, a, count))
    decreases |env.s| - a.pos, 5
  {
    hide Follows, KeyAt, Skip, AfterKey;
    KeyFollows(env, a);
    var f, r := KeyAt(Free(env), a), KeyAt(env, a);
    KeyIs(env, a);
    if f.Done? {
      SkipFollows(env, f.at);
      var s := Skip(env, f.at);
      if s.Done? { KeyedFollows(env, s.at, count); }
      var g := if s.Done? then AfterKey(Free(env), s.at, count) else s;
      var t := if s.Done? then AfterKey(env, s.at, count) else s;
      InTurn(env, f.at.out, s, s, g, t, g, t);
      InTurn(env, a.out, f, r, g, t, Members(Free(env), a, count), Members(env, a, count));
    } else {
      InTurn(env, a.out, f, r, f, r, Members(Free(env), a, count), Members(env, a, count));
    }
  }

  /** Where an outcome is reached at all, it is the free one. */
  lemma FollowedIs(env: Env, base: seq<Event>, f: Outcome, r: Outcome)
    requires Follows(env, base, f, r) && r.Done?
    ensures r == f
  {
  }

  lemma KeyIs(env: Env, a: At)
    ensures KeyAt(env, a).Done? ==> KeyAt(env, a) == KeyAt(Free(env), a)
  {
    KeyFollows(env, a);
    hide KeyAt;
    if KeyAt(env, a).Done? { FollowedIs(env, a.out, KeyAt(Free(env), a), KeyAt(env, a)); }
  }

  lemma {:induction false} KeyedFollows(env: Env, a: At, count: nat)
    ensures Follows(env, a.out, AfterKey(Free(env), a, count), AfterKey(env, a, count))
    decreases |env.s| - a.pos, 5
  {
    hide Follows, TakeSkip, AfterColon;
    if Here(env, a) == ':' as int {
      SkipFollows(env, a);
      var s := TakeSkip(env, a);
      if s.Done? { ColonFollows(env, s.at, count); }
      var g := if s.Done? then AfterColon(Free(env), s.at, count) else s;
      var t := if s.Done? then AfterColon(env, s.at, count) else s;
      InTurn(env, a.out, s, s, g, t, g, t);
    } else {
      Nothing(env, a.out, Failed(a.out));
    }
  }

  lemma {:induction false} ColonFollows(env: Env, a: At, count: nat)
    ensures Follows(env, a.out, AfterColon(Free(env), a, count), AfterColon(env, a, count))
    decreases |env.s| - a.pos, 4
  {
    hide Follows, ValueAt, Skip, AfterMember;
    ValueFollows(env, a);
    var f, r := ValueAt(Free(env), a), ValueAt(env, a);
    if r.Done? { FollowedIs(env, a.out, f, r); }
    if f.Done? {
      SkipFollows(env, f.at);
      var s := Skip(env, f.at);
      if s.Done? { MemberFollows(env, s.at, count); }
      var g := if s.Done? then AfterMember(Free(env), s.at, count) else s;
      var t := if s.Done? then AfterMember(env, s.at, count) else s;
      InTurn(env, f.at.out, s, s, g, t, g, t);
      InTurn(env, a.out, f, r, g, t, AfterColon(Free(env), a, count), AfterColon(env, a, count));
    } else {
      InTurn(env, a.out, f, r, f, r, AfterColon(Free(env), a, count), AfterColon(env, a, count));
    }
  }

  lemma {:induction false} MemberFollows(env: Env, a: At, count: nat)
    ensures Follows(env, a.out, AfterMember(Free(env), a, count), AfterMember(env, a, count))
    decreases |env.s| - a.pos, 4
  {
    hide Follows, TakeSkip, AfterMemberComma, Emit;
    if Here(env, a) == ',' as int {
      SkipFollows(env, a);
      var s := TakeSkip(env, a);
      if s.Done? { MemberCommaFollows(env, s.at, count + 1); }
      var g := if s.Done? then AfterMemberComma(Free(env), s.at, count + 1) else s;
      var t := if s.Done? then AfterMemberComma(env, s.at, count + 1) else s;
      InTurn(env, a.out, s, s, g, t, g, t);
    } else if Here(env, a) == '}' as int {
      EmitFollows(env, a.pos + 1, a.out, EndObject(count + 1));
    } else {
      Nothing(env, a.out, Failed(a.out));
    }
  }

  lemma {:induction false} MemberCommaFollows(env: Env, a: At, count: nat)
    ensures Follows(env, a.out, AfterMemberComma(Free(env), a, count), AfterMemberComma(env, a, count))
    decreases |env.s| - a.pos, 6
  {
    hide Follows, Members, Emit;
    if env.flags.trailingCommas && Here(env, a) == '}' as int {
      EmitFollows(env, a.pos + 1, a.out, EndObject(count));
    } else {
      MembersFollow(env, a, count);
    }
  }

  lemma {:induction false} ArrayFollows(env: Env, a: At)
    requires a.pos < |env.s|
    ensures Follows(env, a.out, ArrayAt(Free(env), a), ArrayAt(env, a))
    decreases |env.s| - a.pos, 2
  {
    hide Follows, Skip, ArrayInside, Emit, TakeSkip;
    var f, r := Emit(Free(env), a.pos, a.out, StartArray), Emit(env, a.pos, a.out, StartArray);
    EmitFollows(env, a.pos, a.out, StartArray);
    EmitIs(env, a.pos, a.out, StartArray);
    var b := At(a.pos, a.out + [StartArray]);
    SkipFollows(env, b);
    var s := TakeSkip(env, b);
    if s.Done? { InsideArrayFollows(env, s.at); }
    var g := if s.Done? then ArrayInside(Free(env), s.at) else s;
    var t := if s.Done? then ArrayInside(env, s.at) else s;
    InTurn(env, b.out, s, s, g, t, g, t);
    InTurn(env, a.out, f, r, g, t, ArrayAt(Free(env), a), ArrayAt(env, a));
  }

  lemma {:induction false} InsideArrayFollows(env: Env, a: At)
    ensures Follows(env, a.out, ArrayInside(Free(env), a), ArrayInside(env, a))
    decreases |env.s| - a.pos, 6
  {
    hide Follows, Elements, Emit;
    if Here(env, a) == ']' as int { EmitFollows(env, a.pos + 1, a.out, EndArray(0)); } else { ElementsFollow(env, a, 0); }
  }

  lemma {:induction false} ElementsFollow(env: Env, a: At, count: nat)
    ensures Follows(env, a.out, Elements(Free(env), a, count), Elements(env, a, count))
    decreases |env.s| - a.pos, 5
  {
    hide Follows, ValueAt, Skip, AfterElement;
    ValueFollows(env, a);
    var f, r := ValueAt(Free(env), a), ValueAt(env, a);
    if r.Done? { FollowedIs(env, a.out, f, r); }
    if f.Done? {
      SkipFollows(env, f.at);
      var s := Skip(env, f.at);
      if s.Done? { ElementFollows(env, s.at, count); }
      var g := if s.Done? then AfterElement(Free(env), s.at, count) else s;
      var t := if s.Done? then AfterElement(env, s.at, count) else s;
      InTurn(env, f.at.out, s, s, g, t, g, t);
      InTurn(env, a.out, f, r, g, t, Elements(Free(env), a, count), Elements(env, a, count));
    } else {
      InTurn(env, a.out, f, r, f, r, Elements(Free(env), a, count), Elements(env, a, count));
    }
  }

  lemma {:induction false} ElementFollows(env: Env, a: At, count: nat)
    ensures Follows(env, a.out, AfterElement(Free(env), a, count), AfterElement(env, a, count))
    decreases |env.s| - a.pos, 4
  {
    hide Follows, TakeSkip, AfterElementComma, Emit;
    if Here(env, a) == ',' as int {
      SkipFollows(env, a);
      var s := TakeSkip(env, a);
      if s.Done? { ElementCommaFollows(env, s.at, count + 1); }
      var g := if s.Done? then AfterElementComma(Free(env), s.at, count + 1) else s;
      var t := if s.Done? then AfterElementComma(env, s.at, count + 1) else s;
      InTurn(env, a.out, s, s, g, t, g, t);
    } else if Here(env, a) == ']' as int {
      EmitFollows(env, a.pos + 1, a.out, EndArray(count + 1));
    } else {
      Nothing(env, a.out, Failed(a.out));
    }
  }

  lemma {:induction false} ElementCommaFollows(env: Env, a: At, count: nat)
    ensures Follows(env, a.out, AfterElementComma(Free(env), a, count), AfterElementComma(env, a, count))
    decreases |env.s| - a.pos, 6
  {
    hide Follows, Elements, Emit;
    if env.flags.trailingCommas && Here(env, a) == ']' as int {
      EmitFollows(env, a.pos + 1, a.out, EndArray(count));
    } else {
      ElementsFollow(env, a, count);
    }
  }

  // ---------------------------------------------------------------- documents

  lemma RootFollows(env: Env, a: At)
    ensures Follows(env, a.out, Root(Free(env), a), Root(env, a))
  {
    hide Follows, ValueAt, AfterRoot;
    if Here(env, a) == 0 {
      Nothing(env, a.out, Failed(a.out));
    } else {
      ValueFollows(env, a);
      var f, r := ValueAt(Free(env), a), ValueAt(env, a);
      if r.Done? { FollowedIs(env, a.out, f, r); }
      if f.Done? { RestFollows(env, f.at); }
      var g, t := if f.Done? then AfterRoot(Free(env), f.at) else f, if f.Done? then AfterRoot(env, f.at) else f;
      InTurn(env, a.out, f, r, g, t, Root(Free(env), a), Root(env, a));
    }
  }

  lemma RestFollows(env: Env, a: At)
    ensures Follows(env, a.out, AfterRoot(Free(env), a), AfterRoot(env, a))
  {
    hide Follows, Skip;
    SkipFollows(env, a);
    SkipKeeps(env, a);
    Nothing(env, a.out, AfterRoot(env, a));
  }

  lemma SkipKeeps(env: Env, a: At)
    ensures Out(Skip(env, a)) == a.out
  {
  }

  /** A handler that stops gets the events of the language up to there, and the parse fails; any
      other outcome is that of a handler that never stops. */
  lemma HandlerStops(env: Env)
    ensures Follows(env, [], WholeDocument(Free(env)), WholeDocument(env))
  {
    hide Follows, Skip, Root;
    SkipFollows(env, At(0, []));
    var s := Skip(env, At(0, []));
    if s.Done? {
      SkipKeeps(env, At(0, []));
      RootFollows(env, s.at);
    }
  }
}
