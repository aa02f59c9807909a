/** The document object as the handler of parser events: a stack of values. */
module JsonDocument {
  import opened Options
  import opened Bytes
  import opened JsonLexer
  import opened JsonParser
  import opened JsonValue

  /** The value that a scalar event pushes. */
  function ScalarJson(v: Scalar): Json
    requires Sized(v)
  {
    match v
    case Null => JNull
    case Bool(b) => JBool(b)
    case Int(i) => JNumber(OfInt(i))
    case Uint(u) => JNumber(OfUint(u))
    case Int64(i64) => JNumber(OfInt64(i64))
    case Uint64(u64) => JNumber(OfUint64(u64))
    case Double(text) => JDouble(text)
    case String(t) => JString(t)
  }

  /** Each integer event carries an integer of its type. */
  predicate Sized(v: Scalar) {
    match v
    case Int(i) => -TWO31 <= i < TWO31
    case Uint(u) => 0 <= u < TWO32
    case Int64(i64) => -TWO63 <= i64 < TWO63
    case Uint64(u64) => 0 <= u64 < TWO64
    case _ => true
  }

  /** Names and values in turn, as they lie on the stack, taken as members. */
  function Pairs(vs: seq<Json>): (r: Option<seq<Member>>)
    requires |vs| % 2 == 0
    decreases |vs|
  {
    if vs == [] then Some([])
    else if !vs[0].JString? then None
    else match Pairs(vs[2..])
      case None => None
      case Some(ms) => Some([Member(vs[0].t, vs[1])] + ms)
  }

  /** Names and values in turn, as the members lie on the stack. */
  function Flat(ms: seq<Member>): seq<Json> {
    if ms == [] then [] else [JString(ms[0].name), ms[0].value] + Flat(ms[1..])
  }

  lemma {:induction false} FlatPairs(ms: seq<Member>)
    ensures |Flat(ms)| == 2 * |ms| && Pairs(Flat(ms)) == Some(ms)
  {
    if ms != [] {
      FlatPairs(ms[1..]);
      var first := [JString(ms[0].name), ms[0].value];
      assert (first + Flat(ms[1..]))[2..] == Flat(ms[1..]);
      assert [Member(ms[0].name, ms[0].value)] + ms[1..] == ms;
    }
  }

  /** One event. It fails where the original would pop more than the stack holds, or take a
      value that is no string for a name. */
  function Handle(stack: seq<Json>, e: Event): Option<seq<Json>> {
    match e
    case Value(v) => if Sized(v) then Some(stack + [ScalarJson(v)]) else None
    case Key(name) => Some(stack + [JString(name)])
    case StartObject => Some(stack + [JObject([])])
    case EndObject(n) =>
      var k := |stack| - 2 * n;
      if k < 1 then None
      else (match Pairs(stack[k..])
            case None => None
            case Some(ms) => Some(stack[..k - 1] + [JObject(ms)]))
    case StartArray => Some(stack + [JArray([])])
    case EndArray(n) =>
      var k := |stack| - n;
      if k < 1 then None else Some(stack[..k - 1] + [JArray(stack[k..])])
  }

  function Build(stack: seq<Json>, es: seq<Event>): Option<seq<Json>>
    decreases |es|
  {
    if es == [] then Some(stack)
    else match Handle(stack, es[0])
      case None => None
      case Some(stack') => Build(stack', es[1..])
  }

  lemma {:induction false} BuildAppend(stack: seq<Json>, a: seq<Event>, b: seq<Event>)
    ensures Build(stack, a + b) == match Build(stack, a) case None => None case Some(mid) => Build(mid, b)
    decreases |a|
  {
    if a == [] {
      assert a + b == b;
    } else {
      assert (a + b)[1..] == a[1..] + b;
      if Handle(stack, a[0]).Some? { BuildAppend(Handle(stack, a[0]).value, a[1..], b); }
    }
  }

  lemma BuildOne(stack: seq<Json>, e: Event)
    ensures Build(stack, [e]) == Handle(stack, e)
  {
    assert [e][1..] == [];
    if Handle(stack, e).Some? { assert Build(Handle(stack, e).value, []) == Handle(stack, e); }
  }

  /** The stack of a document. */
  class Document {
    var stack: seq<Json>

    constructor ()
      ensures stack == []
    {
      stack := [];
    }

    method Value(v: Scalar)
      requires Sized(v)
      modifies this
      ensures Some(stack) == Handle(old(stack), Event.Value(v))
    {
      stack := stack + [ScalarJson(v)];
    }

    method Key(name: Text)
      modifies this
      ensures Some(stack) == Handle(old(stack), Event.Key(name))
    {
      stack := stack + [JString(name)];
    }

    method Start(object_: bool)
      modifies this
      ensures Some(stack) == Handle(old(stack), if object_ then StartObject else StartArray)
    {
      stack := stack + [if object_ then JObject([]) else JArray([])];
    }

    /** Moves the top `memberCount` pairs into the object below them. */
    method EndObject(memberCount: nat)
      requires Handle(stack, Event.EndObject(memberCount)).Some?
      modifies this
      ensures Some(stack) == Handle(old(stack), Event.EndObject(memberCount))
    {
      var k := |stack| - 2 * memberCount;
      ghost var vs := stack[k..];
      var ms: seq<Member>, i := [], 0;
      assert vs[0..] == vs && [] + Pairs(vs).value == Pairs(vs).value;
      while i < memberCount
        invariant i <= memberCount && |ms| == i
        invariant match Pairs(vs[2 * i..]) case None => false case Some(rest) => Pairs(vs) == Some(ms + rest)
      {
        assert vs[2 * i..][2..] == vs[2 * (i + 1)..];
        var m := Member(stack[k + 2 * i].t, stack[k + 2 * i + 1]);
        ghost var rest := Pairs(vs[2 * (i + 1)..]).value;
        assert (ms + [m]) + rest == ms + ([m] + rest);
        ms := ms + [m];
        i := i + 1;
      }
      assert vs[2 * i..] == [] && ms + [] == ms;
      stack := stack[..k];
      stack := stack[|stack| - 1 := JObject(ms)];
      assert stack == old(stack)[..k - 1] + [JObject(ms)];
    }

    method EndArray(elementCount: nat)
      requires Handle(stack, Event.EndArray(elementCount)).Some?
      modifies this
      ensures Some(stack) == Handle(old(stack), Event.EndArray(elementCount))
    {
      var k := |stack| - elementCount;
      var elements := stack[k..];
      stack := stack[..k];
      stack := stack[|stack| - 1 := JArray(elements)];
      assert stack == old(stack)[..k - 1] + [JArray(elements)];
    }

    /** The events of a parse, one after the other. */
    method Populate(es: seq<Event>)
      requires Build(stack, es).Some?
      modifies this
      ensures Some(stack) == Build(old(stack), es)
    {
      var i := 0;
      while i < |es|
        invariant i <= |es| && Build(stack, es[i..]) == Build(old(stack), es)
      {
        assert es[i..][1..] == es[i + 1..];
        match es[i] {
          case Value(v) => this.Value(v);
          case Key(name) => this.Key(name);
          case StartObject => Start(true);
          case EndObject(n) => EndObject(n);
          case StartArray => Start(false);
          case EndArray(n) => EndArray(n);
        }
        i := i + 1;
      }
    }
  }
}
