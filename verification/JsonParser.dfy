/** The JSON grammar as the recursive parser reads it: for each place in the grammar, what
    the parser does from there, with the events it reports. */
module JsonParser {
  import opened Options
  import opened Bytes
  import opened JsonLexer

  datatype Event =
    | Value(v: Scalar)
    | Key(name: Text)
    | StartObject
    | EndObject(members: nat)
    | StartArray
    | EndArray(elements: nat)

  /** The text, the flags and the two outside parties: whether a double is too big, and
      whether the handler goes on after the events reported so far. */
  datatype Env = Env(s: Text, flags: Flags, tooBig: Text -> bool, goOn: seq<Event> -> bool)

  /** A place in the text and the events reported up to there. */
  datatype At = At(pos: nat, out: seq<Event>)

  datatype Outcome = Done(at: At) | Failed(out: seq<Event>) {
    predicate IsFailure() {
      Failed?
    }
    function PropagateFailure(): Outcome
      requires IsFailure()
    {
      this
    }
    function Extract(): At
      requires !IsFailure()
    {
      at
    }
  }

  /** The handler never stops the parser. */
  ghost predicate GoesOn(env: Env) {
    forall out :: env.goOn(out)
  }

  function Here(env: Env, a: At): Byte {
    Peek(env.s, a.pos)
  }

  function Emit(env: Env, pos: nat, out: seq<Event>, e: Event): (r: Outcome)
    ensures r.Done? ==> r.at.pos == pos
  {
    if env.goOn(out + [e]) then Done(At(pos, out + [e])) else Failed(out + [e])
  }

  function Skip(env: Env, a: At): (r: Outcome)
    ensures r.Done? ==> a.pos <= r.at.pos && (a.pos <= |env.s| ==> r.at.pos <= |env.s|)
  {
    match SkipAt(env.s, a.pos, env.flags.comments)
    case None => Failed(a.out)
    case Some(j) => Done(a.(pos := j))
  }

  /** Takes the byte and skips. */
  function TakeSkip(env: Env, a: At): (r: Outcome)
    requires a.pos < |env.s|
    ensures r.Done? ==> a.pos < r.at.pos <= |env.s|
  {
    Skip(env, a.(pos := a.pos + 1))
  }

  function ScalarValue(env: Env, a: At): (r: Outcome)
    ensures r.Done? ==> a.pos < r.at.pos <= |env.s|
  {
    match ScalarAt(env.s, a.pos, env.tooBig)
    case None => Failed(a.out)
    case Some((v, j)) => Emit(env, j, a.out, Value(v))
  }

  /** The name of a member. */
  function KeyAt(env: Env, a: At): (r: Outcome)
    ensures r.Done? ==> a.pos < r.at.pos <= |env.s|
  {
    if Here(env, a) != '"' as int then Failed(a.out)
    else match StringAt(env.s, a.pos + 1)
      case None => Failed(a.out)
      case Some((name, j)) => Emit(env, j, a.out, Key(name))
  }

  function ValueAt(env: Env, a: At): (r: Outcome)
    ensures r.Done? ==> a.pos < r.at.pos <= |env.s|
    decreases |env.s| - a.pos, 3
  {
    if Here(env, a) == '{' as int then ObjectAt(env, a)
    else if Here(env, a) == '[' as int then ArrayAt(env, a)
    else ScalarValue(env, a)
  }

  function ObjectAt(env: Env, a: At): (r: Outcome)
    requires a.pos < |env.s|
    ensures r.Done? ==> a.pos < r.at.pos <= |env.s|
    decreases |env.s| - a.pos, 2
  {
    var b :- Emit(env, a.pos, a.out, StartObject);
    var c :- TakeSkip(env, b);
    ObjectInside(env, c)
  }

  /** After the opening bracket. */
  function ObjectInside(env: Env, a: At): (r: Outcome)
    ensures r.Done? ==> a.pos < r.at.pos <= |env.s|
    decreases |env.s| - a.pos, 6
  {
    if Here(env, a) == '}' as int then Emit(env, a.pos + 1, a.out, EndObject(0)) else Members(env, a, 0)
  }

  /** At a member, `count` members before it. */
  function Members(env: Env, a: At, count: nat): (r: Outcome)
    ensures r.Done? ==> a.pos < r.at.pos <= |env.s|
    decreases |env.s| - a.pos, 5
  {
    var b :- KeyAt(env, a);
    var c :- Skip(env, b);
    AfterKey(env, c, count)
  }

  function AfterKey(env: Env, a: At, count: nat): (r: Outcome)
    ensures r.Done? ==> a.pos < r.at.pos <= |env.s|
    decreases |env.s| - a.pos, 5
  {
    if Here(env, a) != ':' as int then Failed(a.out)
    else
      var b :- TakeSkip(env, a);
      AfterColon(env, b, count)
  }

  function AfterColon(env: Env, a: At, count: nat): (r: Outcome)
    ensures r.Done? ==> a.pos < r.at.pos <= |env.s|
    decreases |env.s| - a.pos, 4
  {
    var b :- ValueAt(env, a);
    var c :- Skip(env, b);
    AfterMember(env, c, count)
  }

  /** After a member, `count` members before it. */
  function AfterMember(env: Env, a: At, count: nat): (r: Outcome)
    ensures r.Done? ==> a.pos < r.at.pos <= |env.s|
    decreases |env.s| - a.pos, 4
  {
    if Here(env, a) == ',' as int then
      var b :- TakeSkip(env, a);
      AfterMemberComma(env, b, count + 1)
    else if Here(env, a) == '}' as int then Emit(env, a.pos + 1, a.out, EndObject(count + 1))
    else Failed(a.out)
  }

  function AfterMemberComma(env: Env, a: At, count: nat): (r: Outcome)
    ensures r.Done? ==> a.pos < r.at.pos <= |env.s|
    decreases |env.s| - a.pos, 6
  {
    if env.flags.trailingCommas && Here(env, a) == '}' as int then Emit(env, a.pos + 1, a.out, EndObject(count))
    else Members(env, a, count)
  }

  function ArrayAt(env: Env, a: At): (r: Outcome)
    requires a.pos < |env.s|
    ensures r.Done? ==> a.pos < r.at.pos <= |env.s|
    decreases |env.s| - a.pos, 2
  {
    var b :- Emit(env, a.pos, a.out, StartArray);
    var c :- TakeSkip(env, b);
    ArrayInside(env, c)
  }

  function ArrayInside(env: Env, a: At): (r: Outcome)
    ensures r.Done? ==> a.pos < r.at.pos <= |env.s|
    decreases |env.s| - a.pos, 6
  {
    if Here(env, a) == ']' as int then Emit(env, a.pos + 1, a.out, EndArray(0)) else Elements(env, a, 0)
  }

  /** At an element, `count` elements before it. */
  function Elements(env: Env, a: At, count: nat): (r: Outcome)
    ensures r.Done? ==> a.pos < r.at.pos <= |env.s|
    decreases |env.s| - a.pos, 5
  {
    var b :- ValueAt(env, a);
    var c :- Skip(env, b);
    AfterElement(env, c, count)
  }

  function AfterElement(env: Env, a: At, count: nat): (r: Outcome)
    ensures r.Done? ==> a.pos < r.at.pos <= |env.s|
    decreases |env.s| - a.pos, 4
  {
    if Here(env, a) == ',' as int then
      var b :- TakeSkip(env, a);
      AfterElementComma(env, b, count + 1)
    else if Here(env, a) == ']' as int then Emit(env, a.pos + 1, a.out, EndArray(count + 1))
    else Failed(a.out)
  }

  function AfterElementComma(env: Env, a: At, count: nat): (r: Outcome)
    ensures r.Done? ==> a.pos < r.at.pos <= |env.s|
    decreases |env.s| - a.pos, 6
  {
    if env.flags.trailingCommas && Here(env, a) == ']' as int then Emit(env, a.pos + 1, a.out, EndArray(count))
    else Elements(env, a, count)
  }

  /** After the root value. */
  function AfterRoot(env: Env, a: At): Outcome {
    if env.flags.stopWhenDone then Done(a)
    else
      var b :- Skip(env, a);
      if Here(env, b) == 0 then Done(b) else Failed(b.out)
  }

  /** The root value. */
  function Root(env: Env, a: At): Outcome {
    if Here(env, a) == 0 then Failed(a.out)
    else
      var b :- ValueAt(env, a);
      AfterRoot(env, b)
  }

  /** A whole document. */
  function WholeDocument(env: Env): Outcome {
    var a :- Skip(env, At(0, []));
    Root(env, a)
  }
}
