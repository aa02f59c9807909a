/** Every document that the parser accepts builds exactly one value. */
module JsonAccepted {
  import opened Options
  import opened Bytes
  import opened JsonLexer
  import opened JsonParser
  import opened JsonValue
  import opened JsonDocument

  /** The events that `o2` has beyond `o1` push the values `vs` onto any stack. */
  ghost predicate Pushes(o1: seq<Event>, o2: seq<Event>, vs: seq<Json>) {
    o1 <= o2 && forall stack: seq<Json> :: Build(stack, o2[|o1|..]) == Some(stack + vs)
  }

  lemma PushesNothing(o: seq<Event>)
    ensures Pushes(o, o, [])
  {
    assert o[|o|..] == [];
    assert forall stack: seq<Json> :: stack + [] == stack;
  }

  /** One more event, whose effect on the values pushed so far is known. */
  lemma PushesMore(o: seq<Event>, o1: seq<Event>, vs: seq<Json>, e: Event, ws: seq<Json>)
    requires Pushes(o, o1, vs)
    requires forall stack: seq<Json> :: Handle(stack + vs, e) == Some(stack + ws)
    ensures Pushes(o, o1 + [e], ws)
  {
    var es := o1[|o|..];
    assert (o1 + [e])[|o|..] == es + [e];
    forall stack: seq<Json> ensures Build(stack, es + [e]) == Some(stack + ws) {
      BuildAppend(stack, es, [e]);
      BuildOne(stack + vs, e);
    }
  }

  lemma PushesBoth(o: seq<Event>, o1: seq<Event>, o2: seq<Event>, vs: seq<Json>, ws: seq<Json>)
    requires Pushes(o, o1, vs) && Pushes(o1, o2, ws)
    ensures Pushes(o, o2, vs + ws)
  {
    var a, b := o1[|o|..], o2[|o1|..];
    assert o2[|o|..] == a + b;
    forall stack: seq<Json> ensures Build(stack, a + b) == Some(stack + (vs + ws)) {
      BuildAppend(stack, a, b);
      assert stack + vs + ws == stack + (vs + ws);
    }
  }

  /** A push of one value. */
  lemma PushesOne(o: seq<Event>, o1: seq<Event>, vs: seq<Json>, e: Event, v: Json)
    requires Pushes(o, o1, vs)
    requires forall stack: seq<Json> :: Handle(stack, e) == Some(stack + [v])
    ensures Pushes(o, o1 + [e], vs + [v])
  {
    assert forall stack: seq<Json> :: stack + vs + [v] == stack + (vs + [v]);
    PushesMore(o, o1, vs, e, vs + [v]);
  }

  lemma ScalarSized(env: Env, a: At)
    requires ScalarAt(env.s, a.pos, env.tooBig).Some?
    ensures Sized(ScalarAt(env.s, a.pos, env.tooBig).value.0)
  {
  }

  lemma UnderTop(stack: seq<Json>, v: Json, vs: seq<Json>)
    ensures var s := stack + ([v] + vs);
      |s| == |stack| + 1 + |vs| && s[|stack| + 1..] == vs && s[|stack|] == v && s[..|stack|] == stack
  {
  }

  /** The end of an array takes exactly its elements. */
  lemma CloseArray(o: seq<Event>, o1: seq<Event>, vs: seq<Json>)
    requires Pushes(o, o1, [JArray([])] + vs)
    ensures Pushes(o, o1 + [EndArray(|vs|)], [JArray(vs)])
  {
    forall stack: seq<Json> ensures Handle(stack + ([JArray([])] + vs), EndArray(|vs|)) == Some(stack + [JArray(vs)]) {
      UnderTop(stack, JArray([]), vs);
    }
    PushesMore(o, o1, [JArray([])] + vs, EndArray(|vs|), [JArray(vs)]);
  }

  lemma CloseObject(o: seq<Event>, o1: seq<Event>, vs: seq<Json>, n: nat)
    requires Pushes(o, o1, [JObject([])] + vs) && |vs| == 2 * n && Pairs(vs).Some?
    ensures Pushes(o, o1 + [EndObject(n)], [JObject(Pairs(vs).value)])
  {
    hide Pairs;
    var r := [JObject(Pairs(vs).value)];
    forall stack: seq<Json> ensures Handle(stack + ([JObject([])] + vs), EndObject(n)) == Some(stack + r) {
      UnderTop(stack, JObject([]), vs);
    }
    PushesMore(o, o1, [JObject([])] + vs, EndObject(n), r);
  }

  lemma {:induction false} PairsPush(vs: seq<Json>, name: Text, v: Json)
    requires |vs| % 2 == 0 && Pairs(vs).Some?
    ensures Pairs(vs + [JString(name)] + [v]).Some?
    decreases |vs|
  {
    var ws := vs + [JString(name)] + [v];
    if vs == [] {
      assert ws[2..] == [];
    } else {
      assert ws[2..] == vs[2..] + [JString(name)] + [v];
      PairsPush(vs[2..], name, v);
    }
  }

  /** Some value was pushed. */
  ghost predicate Pushed(o: seq<Event>, r: Outcome) {
    r.Done? ==> exists v :: Pushes(o, r.at.out, [v])
  }

  lemma {:induction false} ValuePushes(env: Env, a: At)
    ensures Pushed(a.out, ValueAt(env, a))
    decreases |env.s| - a.pos, 5
  {
    hide Build, Handle, Pushes;
    if ValueAt(env, a).Done? {
      PushesNothing(a.out);
      if Here(env, a) == '{' as int {
        BracketPushes(a.out);
        assert ValueAt(env, a) == ObjectAt(env, a);
        var b := Emit(env, a.pos, a.out, StartObject).at;
        var c := TakeSkip(env, b).at;
        assert [JObject([])] + [] == [JObject([])];
        ObjectPushes(env, c, a.out, [], 0);
      } else if Here(env, a) == '[' as int {
        BracketPushes(a.out);
        assert ValueAt(env, a) == ArrayAt(env, a);
        var b := Emit(env, a.pos, a.out, StartArray).at;
        var c := TakeSkip(env, b).at;
        assert [JArray([])] + [] == [JArray([])];
        ArrayPushes(env, c, a.out, []);
      } else {
        ScalarSized(env, a);
        var v := ScalarAt(env.s, a.pos, env.tooBig).value.0;
        ScalarPushes(a.out, v);
      }
    }
  }

  lemma StartPushes(o: seq<Event>, e: Event, v: Json)
    requires forall stack: seq<Json> :: Handle(stack, e) == Some(stack + [v])
    ensures Pushes(o, o + [e], [v])
  {
    PushesNothing(o);
    PushesOne(o, o, [], e, v);
    assert [] + [v] == [v];
  }

  lemma BracketPushes(o: seq<Event>)
    ensures Pushes(o, o + [StartObject], [JObject([])]) && Pushes(o, o + [StartArray], [JArray([])])
  {
    StartPushes(o, StartObject, JObject([]));
    StartPushes(o, StartArray, JArray([]));
  }

  lemma ScalarPushes(o: seq<Event>, v: Scalar)
    requires Sized(v)
    ensures Pushes(o, o + [Value(v)], [ScalarJson(v)])
  {
    StartPushes(o, Value(v), ScalarJson(v));
  }

  /** Inside an array that started after the events `o`. */
  lemma {:induction false} ArrayPushes(env: Env, a: At, o: seq<Event>, vs: seq<Json>)
    requires Pushes(o, a.out, [JArray([])] + vs)
    ensures vs == [] ==> Pushed(o, ArrayInside(env, a))
    ensures Pushed(o, Elements(env, a, |vs|)) && Pushed(o, AfterElementComma(env, a, |vs|))
    decreases |env.s| - a.pos, 8
  {
    hide Build, Handle, Pushes;
    CloseArray(o, a.out, vs);
    ElementsPush(env, a, o, vs);
  }

  lemma {:induction false} ElementsPush(env: Env, a: At, o: seq<Event>, vs: seq<Json>)
    requires Pushes(o, a.out, [JArray([])] + vs)
    ensures Pushed(o, Elements(env, a, |vs|))
    decreases |env.s| - a.pos, 7, 1
  {
    hide Build, Handle, Pushes;
    if Elements(env, a, |vs|).Done? {
      var b := ValueAt(env, a).at;
      var c := Skip(env, b).at;
      assert Elements(env, a, |vs|) == AfterElement(env, c, |vs|);
      ValuePushes(env, a);
      var v :| Pushes(a.out, b.out, [v]);
      PushesBoth(o, a.out, b.out, [JArray([])] + vs, [v]);
      var ws := vs + [v];
      assert [JArray([])] + vs + [v] == [JArray([])] + ws;
      CloseArray(o, c.out, ws);
      if Here(env, c) == ',' as int { ArrayPushes(env, TakeSkip(env, c).at, o, ws); }
    }
  }

  lemma {:induction false} ObjectPushes(env: Env, a: At, o: seq<Event>, vs: seq<Json>, n: nat)
    requires |vs| == 2 * n && Pairs(vs).Some? && Pushes(o, a.out, [JObject([])] + vs)
    ensures n == 0 ==> Pushed(o, ObjectInside(env, a))
    ensures Pushed(o, Members(env, a, n)) && Pushed(o, AfterMemberComma(env, a, n))
    decreases |env.s| - a.pos, 8
  {
    hide Build, Handle, Pushes, Pairs;
    CloseObject(o, a.out, vs, n);
    if Members(env, a, n).Done? {
      var d, name := KeyAndColon(env, a, n);
      ColonPushes(env, d, o, a.out, vs, n, name);
    }
  }

  /** After the colon of a member. */
  lemma {:induction false} ColonPushes(env: Env, d: At, o: seq<Event>, o1: seq<Event>, vs: seq<Json>, n: nat, name: Text)
    requires |vs| == 2 * n && Pairs(vs).Some? && Pushes(o, o1, [JObject([])] + vs) && d.out == o1 + [Key(name)]
    ensures Pushed(o, AfterColon(env, d, n))
    decreases |env.s| - d.pos, 7
  {
    hide Build, Handle, Pushes, Pairs;
    if AfterColon(env, d, n).Done? {
      var e := ValueAt(env, d).at;
      var f := Skip(env, e).at;
      assert AfterColon(env, d, n) == AfterMember(env, f, n);
      ValuePushes(env, d);
      var v :| Pushes(d.out, e.out, [v]);
      MemberPushes(o, o1, d.out, e.out, vs, name, v);
      var ws := vs + [JString(name)] + [v];
      CloseObject(o, f.out, ws, n + 1);
      if Here(env, f) == ',' as int { ObjectPushes(env, TakeSkip(env, f).at, o, ws, n + 1); }
    }
  }

  /** A member that is accepted starts with a name and a colon. */
  lemma KeyAndColon(env: Env, a: At, n: nat) returns (d: At, name: Text)
    requires Members(env, a, n).Done?
    ensures a.pos < d.pos && d.out == a.out + [Key(name)] && Members(env, a, n) == AfterColon(env, d, n)
  {
    name := StringAt(env.s, a.pos + 1).value.0;
    var b := KeyAt(env, a).at;
    var c := Skip(env, b).at;
    assert Members(env, a, n) == AfterKey(env, c, n);
    d := TakeSkip(env, c).at;
  }

  lemma MemberPushes(o: seq<Event>, o1: seq<Event>, o2: seq<Event>, o3: seq<Event>, vs: seq<Json>, name: Text, v: Json)
    requires |vs| % 2 == 0 && Pairs(vs).Some? && Pushes(o, o1, [JObject([])] + vs)
    requires o2 == o1 + [Key(name)] && Pushes(o2, o3, [v])
    ensures Pairs(vs + [JString(name)] + [v]).Some? && Pushes(o, o3, [JObject([])] + (vs + [JString(name)] + [v]))
  {
    hide Pairs, Pushes, Build, Handle;
    KeyPushes(o, o1, [JObject([])] + vs, name);
    PushesBoth(o, o2, o3, [JObject([])] + vs + [JString(name)], [v]);
    assert [JObject([])] + vs + [JString(name)] + [v] == [JObject([])] + (vs + [JString(name)] + [v]);
    PairsPush(vs, name, v);
  }

  lemma KeyPushes(o: seq<Event>, o1: seq<Event>, vs: seq<Json>, name: Text)
    requires Pushes(o, o1, vs)
    ensures Pushes(o, o1 + [Key(name)], vs + [JString(name)])
  {
    PushesOne(o, o1, vs, Key(name), JString(name));
  }

  /** The events of an accepted document leave one value on the document's stack: brackets
      close in order, counts are right and every member has a name. */
  lemma AcceptedBuilds(env: Env) returns (v: Json)
    requires WholeDocument(env).Done?
    ensures Build([], WholeDocument(env).at.out) == Some([v])
  {
    hide Build, Pushes;
    var a := Skip(env, At(0, [])).at;
    var b := ValueAt(env, a).at;
    ValuePushes(env, a);
    v :| Pushes(a.out, b.out, [v]);
    Single(b.out, v);
  }

  lemma Single(o: seq<Event>, v: Json)
    requires Pushes([], o, [v])
    ensures Build([], o) == Some([v])
  {
    assert o[0..] == o;
    assert [] + [v] == [v];
  }
}
