/** Resolving and creating values by a list of pointer tokens. */
module PointerTree {
  import opened Options
  import opened Bytes
  import opened JsonValue

  /** A token by its two readings: the name of a member, and, unless invalid, the index of an
      element. */
  datatype Token = Token(name: Text, index: nat)

  const INVALID_INDEX: nat := 0xFFFF_FFFF

  /** The first member of that name; the number of members if there is none. */
  function FindMember(ms: seq<Member>, name: Text): (i: nat)
    ensures i <= |ms| && (i < |ms| ==> ms[i].name == name)
    ensures forall k :: 0 <= k < i ==> ms[k].name != name
  {
    if ms == [] then 0 else if ms[0].name == name then 0 else FindMember(ms[1..], name) + 1
  }

  lemma {:induction false} FindAt(ms: seq<Member>, name: Text, i: nat)
    requires i < |ms| && ms[i].name == name && forall k :: 0 <= k < i ==> ms[k].name != name
    ensures FindMember(ms, name) == i
  {
  }

  /** One token from a value: the child it leads to. */
  function Child(v: Json, t: Token): Option<Json> {
    match v
    case JObject(ms) => if FindMember(ms, t.name) < |ms| then Some(ms[FindMember(ms, t.name)].value) else None
    case JArray(es) => if t.index != INVALID_INDEX && t.index < |es| then Some(es[t.index]) else None
    case _ => None
  }

  /** The value that a list of tokens leads to. */
  function Resolved(v: Json, ts: seq<Token>): Option<Json> {
    if ts == [] then Some(v)
    else match Child(v, ts[0])
      case None => None
      case Some(c) => Resolved(c, ts[1..])
  }

  /** Follows the tokens from the root; without a value it gives the index of the first token
      that does not resolve. */
  method Get(root: Json, ts: seq<Token>) returns (r: Option<Json>, unresolved: nat)
    ensures r == Resolved(root, ts)
    ensures r.None? ==> unresolved < |ts| && Resolved(root, ts[..unresolved]).Some? && Resolved(root, ts[..unresolved + 1]).None?
  {
    var v := root;
    unresolved := 0;
    assert ts[0..] == ts && ts[..0] == [];
    while unresolved < |ts|
      invariant unresolved <= |ts| && Resolved(v, ts[unresolved..]) == Resolved(root, ts)
      invariant Resolved(root, ts[..unresolved]) == Some(v)
    {
      var t := ts[unresolved];
      assert ts[unresolved..][0] == t && ts[unresolved..][1..] == ts[unresolved + 1..];
      ResolvedPush(root, ts[..unresolved], t);
      assert ts[..unresolved] + [t] == ts[..unresolved + 1];
      var found := false;
      match v {
        case JObject(ms) =>
          var m := FindMember(ms, t.name);
          if m != |ms| { v, found := ms[m].value, true; }
        case JArray(es) =>
          if t.index != INVALID_INDEX && t.index < |es| { v, found := es[t.index], true; }
        case _ =>
      }
      if !found { return None, unresolved; }
      unresolved := unresolved + 1;
    }
    r := Some(v);
  }

  lemma {:induction false} ResolvedPush(v: Json, ts: seq<Token>, t: Token)
    ensures Resolved(v, ts + [t]) == match Resolved(v, ts) case None => None case Some(w) => Child(w, t)
    decreases |ts|
  {
    if ts != [] {
      assert (ts + [t])[1..] == ts[1..] + [t];
      if Child(v, ts[0]).Some? { ResolvedPush(Child(v, ts[0]).value, ts[1..], t); }
    } else {
      assert (ts + [t])[1..] == [];
    }
  }

  // ---------------------------------------------------------------- creation

  function Nulls(n: nat): (es: seq<Json>)
    ensures |es| == n
  {
    seq(n, _ => JNull)
  }

  predicate IsDash(t: Token) {
    t.name == ['-' as int]
  }

  /** The value that takes the place of `v` before a token is followed: it may have to become
      an object or an array. */
  function Container(v: Json, t: Token): (w: Json)
    ensures w.JArray? || w.JObject?
  {
    if v.JArray? && IsDash(t) then v
    else if t.index == INVALID_INDEX then (if v.JObject? then v else JObject([]))
    else if v.JArray? || v.JObject? then v
    else JArray([])
  }

  /** The token that finds what the given one creates: a dash stands for the end of an array. */
  function Actual(v: Json, t: Token): Token {
    if v.JArray? && IsDash(t) then Token(t.name, |v.elements|) else t
  }

  /** The value with room for the child of a token, which is null if it is new. */
  function WithChild(v: Json, t: Token): Json {
    var w := Container(v, t);
    var a := Actual(v, t);
    match w
    case JArray(es) => if a.index < |es| then w else JArray(es + Nulls(a.index + 1 - |es|))
    case JObject(ms) => if FindMember(ms, t.name) < |ms| then w else JObject(ms + [Member(t.name, JNull)])
    case _ => w
  }

  /** The value with a child replaced. */
  function Replace(w: Json, t: Token, c: Json): Json
    requires Child(w, t).Some?
  {
    match w
    case JArray(es) => JArray(es[t.index := c])
    case JObject(ms) =>
      var m := FindMember(ms, t.name);
      JObject(ms[m := ms[m].(value := c)])
  }

  /** Whether the child of a token is there before: no append, no growth, no new member. */
  predicate ExistsStep(v: Json, t: Token) {
    !(v.JArray? && IsDash(t))
    && match Container(v, t)
       case JArray(es) => t.index < |es|
       case JObject(ms) => FindMember(ms, t.name) < |ms|
       case _ => false
  }

  /** The tokens that parsing makes: a dash has no index. */
  predicate Proper(t: Token) {
    IsDash(t) ==> t.index == INVALID_INDEX
  }

  /** Arrays whose elements 32-bit indices can count. */
  ghost predicate Countable(v: Json) {
    match v
    case JArray(es) => |es| < INVALID_INDEX && forall i :: 0 <= i < |es| ==> Countable(es[i])
    case JObject(ms) => forall i :: 0 <= i < |ms| ==> Countable(ms[i].value)
    case _ => true
  }

  lemma ChildMade(v: Json, t: Token)
    requires Proper(t) && Countable(v)
    ensures Child(WithChild(v, t), Actual(v, t)).Some?
    ensures ExistsStep(v, t) <==> Child(v, t).Some?
    ensures Child(v, t).Some? ==> WithChild(v, t) == v && Actual(v, t) == t && Countable(Child(v, t).value)
    ensures Child(v, t).None? ==> Child(WithChild(v, t), Actual(v, t)) == Some(JNull)
  {
    var w := Container(v, t);
    if w.JObject? && FindMember(w.members, t.name) == |w.members| {
      FindAt(w.members + [Member(t.name, JNull)], t.name, |w.members|);
    }
  }

  /** Replacing a child leaves the others, and the new one is found. */
  lemma ReplaceFound(w: Json, t: Token, c: Json)
    requires Child(w, t).Some?
    ensures Child(Replace(w, t, c), t) == Some(c)
    ensures Child(w, t) == Some(c) ==> Replace(w, t, c) == w
  {
    if w.JObject? {
      var ms, m := w.members, FindMember(w.members, t.name);
      FindAt(ms[m := ms[m].(value := c)], t.name, m);
    }
  }

  datatype Creation = Creation(root: Json, exist: bool, path: seq<Token>, value: Json)

  /** Creates what the tokens lead to: the new root, whether it was there before, the tokens
      that lead to it now, and the value itself. */
  function Create(v: Json, ts: seq<Token>): Creation
    requires (forall t :: t in ts ==> Proper(t)) && Countable(v)
    decreases |ts|
  {
    if ts == [] then Creation(v, true, [], v)
    else
      var t := ts[0];
      ChildMade(v, t);
      var w, a := WithChild(v, t), Actual(v, t);
      var c := Create(Child(w, a).value, ts[1..]);
      Creation(Replace(w, a, c.root), ExistsStep(v, t) && c.exist, [a] + c.path, c.value)
  }

  /** `alreadyExist` is reported exactly if the tokens resolved before. In that case nothing
      changes; else the value created is null. */
  lemma {:induction false} CreateExist(v: Json, ts: seq<Token>)
    requires (forall t :: t in ts ==> Proper(t)) && Countable(v)
    ensures Create(v, ts).exist <==> Resolved(v, ts).Some?
    ensures Create(v, ts).exist ==> Create(v, ts).root == v && Create(v, ts).path == ts && Resolved(v, ts) == Some(Create(v, ts).value)
    ensures !Create(v, ts).exist ==> Create(v, ts).value == JNull
    decreases |ts|
  {
    if ts != [] {
      var t := ts[0];
      ChildMade(v, t);
      var w, a := WithChild(v, t), Actual(v, t);
      var child := Child(w, a).value;
      CreateExist(child, ts[1..]);
      var c := Create(child, ts[1..]);
      if c.exist { ReplaceFound(w, a, c.root); }
      if Child(v, t).None? && c.exist { OnlyRoot(child, ts[1..]); }
    }
  }

  /** A new null value resolves no further tokens. */
  lemma OnlyRoot(c: Json, ts: seq<Token>)
    ensures c == JNull && Resolved(c, ts).Some? ==> ts == []
  {
  }

  /** After creation the value is found by the tokens that lead to it now. */
  lemma {:induction false} CreateFound(v: Json, ts: seq<Token>)
    requires (forall t :: t in ts ==> Proper(t)) && Countable(v)
    ensures Resolved(Create(v, ts).root, Create(v, ts).path) == Some(Create(v, ts).value)
    ensures |Create(v, ts).path| == |ts|
    decreases |ts|
  {
    if ts != [] {
      var t := ts[0];
      ChildMade(v, t);
      var w, a := WithChild(v, t), Actual(v, t);
      var c := Create(Child(w, a).value, ts[1..]);
      CreateFound(Child(w, a).value, ts[1..]);
      ReplaceFound(w, a, c.root);
      assert ([a] + c.path)[1..] == c.path;
    }
  }

  /** Some dash among the tokens meets an array that is there. */
  predicate DashAtArray(v: Json, ts: seq<Token>) {
    ts != [] && ((v.JArray? && IsDash(ts[0])) || (Child(v, ts[0]).Some? && DashAtArray(Child(v, ts[0]).value, ts[1..])))
  }

  /** Those are the given tokens exactly when no dash meets an array that was there: a new child
      is null, and a dash makes a null value an object. */
  lemma {:induction false} CreatePath(v: Json, ts: seq<Token>)
    requires (forall t :: t in ts ==> Proper(t)) && Countable(v)
    ensures Create(v, ts).path == ts <==> !DashAtArray(v, ts)
    decreases |ts|
  {
    if ts != [] {
      var t := ts[0];
      ChildMade(v, t);
      var w, a := WithChild(v, t), Actual(v, t);
      var child := Child(w, a).value;
      var c := Create(child, ts[1..]);
      CreatePath(child, ts[1..]);
      assert ([a] + c.path)[1..] == c.path && ([a] + c.path)[0] == a && ts == [t] + ts[1..];
      assert a == t <==> !(v.JArray? && IsDash(t));
      if Child(v, t).None? { NoArrayInNull(child, ts[1..]); }
    }
  }

  lemma NoArrayInNull(v: Json, ts: seq<Token>)
    ensures v == JNull ==> !DashAtArray(v, ts)
  {
  }

  /** Token by token: a dash that appended became the index of the new element. */
  lemma {:induction false} CreateToken(v: Json, ts: seq<Token>, k: nat)
    requires (forall t :: t in ts ==> Proper(t)) && Countable(v) && k < |ts|
    ensures |Create(v, ts).path| == |ts|
    ensures Create(v, ts).path[k].name == ts[k].name
    ensures Create(v, ts).path[k] == ts[k] || (IsDash(ts[k]) && Create(v, ts).path[k].index != INVALID_INDEX)
    decreases |ts|
  {
    var t := ts[0];
    ChildMade(v, t);
    var child := Child(WithChild(v, t), Actual(v, t)).value;
    CreateFound(child, ts[1..]);
    if k > 0 { CreateToken(child, ts[1..], k - 1); }
  }

  /** The given tokens find the created value exactly when no dash meets an array that was
      there; else they find nothing. */
  lemma {:induction false} CreateThenGet(v: Json, ts: seq<Token>)
    requires (forall t :: t in ts ==> Proper(t)) && Countable(v)
    ensures Resolved(Create(v, ts).root, ts) == if DashAtArray(v, ts) then None else Some(Create(v, ts).value)
    decreases |ts|
  {
    if ts != [] {
      var t := ts[0];
      ChildMade(v, t);
      var w, a := WithChild(v, t), Actual(v, t);
      var child := Child(w, a).value;
      var c := Create(child, ts[1..]);
      CreateThenGet(child, ts[1..]);
      ReplaceFound(w, a, c.root);
      if Child(v, t).None? { NoArrayInNull(child, ts[1..]); }
    }
  }

  // ---------------------------------------------------------------- what creation leaves alone

  /** What a value becomes before a token is followed: an array keeps its elements, and nulls
      fill up the places to the one wanted; an object keeps its members, and a null of the
      wanted name comes last; anything else becomes an array of nulls if the token has an
      index, and an object of one null if not. So does an array, at a token that is neither. */
  lemma ChildAdded(v: Json, t: Token)
    requires Proper(t) && Countable(v)
    ensures v.JArray? && (IsDash(t) || t.index != INVALID_INDEX) ==>
      var place := if IsDash(t) then |v.elements| else t.index;
      var w := WithChild(v, t);
      && w.JArray? && |w.elements| == (if place < |v.elements| then |v.elements| else place + 1)
      && v.elements <= w.elements && forall k :: |v.elements| <= k < |w.elements| ==> w.elements[k] == JNull
    ensures v.JObject? ==> WithChild(v, t) == if exists m :: m in v.members && m.name == t.name then v else JObject(v.members + [Member(t.name, JNull)])
    ensures !v.JArray? && !v.JObject? && t.index != INVALID_INDEX ==>
      var w := WithChild(v, t);
      w.JArray? && |w.elements| == t.index + 1 && forall k :: 0 <= k <= t.index ==> w.elements[k] == JNull
    ensures !v.JObject? && t.index == INVALID_INDEX && !(v.JArray? && IsDash(t)) ==> WithChild(v, t) == JObject([Member(t.name, JNull)])
  {
    if v.JObject? && FindMember(v.members, t.name) < |v.members| { assert v.members[FindMember(v.members, t.name)] in v.members; }
  }

  /** Replacing a child changes that one only: elements stay in their places, and members keep
      their names and order. */
  lemma ReplacedOnly(w: Json, t: Token, c: Json)
    requires Child(w, t).Some?
    ensures w.JArray? ==>
      var r := Replace(w, t, c);
      r.JArray? && |r.elements| == |w.elements| && forall k :: 0 <= k < |w.elements| ==> r.elements[k] == if k == t.index then c else w.elements[k]
    ensures w.JObject? ==>
      var r, m := Replace(w, t, c), FindMember(w.members, t.name);
      r.JObject? && |r.members| == |w.members| && forall k :: 0 <= k < |w.members| ==> r.members[k] == if k == m then Member(t.name, c) else w.members[k]
  {
  }

  /** Two tokens lead to the same child of a value. */
  predicate SameChild(v: Json, t: Token, u: Token) {
    if v.JArray? then t.index == u.index else t.name == u.name
  }

  /** Neither way is the beginning of the other. */
  predicate Diverges(v: Json, us: seq<Token>, ts: seq<Token>) {
    && us != [] && ts != []
    && (SameChild(v, us[0], ts[0]) ==> Child(v, us[0]).Some? && Diverges(Child(v, us[0]).value, us[1..], ts[1..]))
  }

  /** Some array with elements has to become an object. */
  predicate LosesElements(v: Json, ts: seq<Token>) {
    ts != [] &&
      (|| (v.JArray? && v.elements != [] && ts[0].index == INVALID_INDEX && !IsDash(ts[0]))
       || (Child(v, ts[0]).Some? && LosesElements(Child(v, ts[0]).value, ts[1..])))
  }

  lemma {:induction false} FindInFront(ms: seq<Member>, more: seq<Member>, name: Text)
    requires FindMember(ms, name) < |ms|
    ensures FindMember(ms + more, name) == FindMember(ms, name)
  {
    FindAt(ms + more, name, FindMember(ms, name));
  }

  /** A child that is there stays when room is made for another. */
  lemma ChildStays(v: Json, t: Token, u: Token)
    requires Proper(t) && Countable(v) && Child(v, u).Some? && !(v.JArray? && t.index == INVALID_INDEX && !IsDash(t))
    ensures Child(WithChild(v, t), u) == Child(v, u) && (WithChild(v, t).JArray? <==> v.JArray?)
  {
    if v.JObject? && FindMember(v.members, t.name) == |v.members| { FindInFront(v.members, [Member(t.name, JNull)], u.name); }
  }

  /** Other children stay when one is replaced. */
  lemma OthersStay(w: Json, t: Token, u: Token, c: Json)
    requires Child(w, t).Some? && Child(w, u).Some?
    ensures Child(Replace(w, t, c), u) == if SameChild(w, u, t) then Some(c) else Child(w, u)
  {
    if w.JObject? {
      var ms, m, k := w.members, FindMember(w.members, t.name), FindMember(w.members, u.name);
      FindAt(ms[m := ms[m].(value := c)], u.name, k);
    }
  }

  /** What other tokens find stays the same, unless an array on the way loses its elements. */
  lemma {:induction false} CreateKeeps(v: Json, ts: seq<Token>, us: seq<Token>)
    requires (forall t :: t in ts ==> Proper(t)) && Countable(v) && !LosesElements(v, ts)
    requires Resolved(v, us).Some? && Diverges(v, us, Create(v, ts).path)
    ensures Resolved(Create(v, ts).root, us) == Resolved(v, us)
    decreases |ts|
  {
    var t, u := ts[0], us[0];
    ChildMade(v, t);
    var w, a := WithChild(v, t), Actual(v, t);
    var child := Child(w, a).value;
    var c := Create(child, ts[1..]);
    ChildStays(v, t, u);
    OthersStay(w, a, u, c.root);
    assert ([a] + c.path)[1..] == c.path;
    if SameChild(v, u, a) {
      assert Child(v, t) == Child(v, u);
      CreateKeeps(child, ts[1..], us[1..]);
    }
  }

  /** If one does, something that was found before is not found any more. */
  lemma {:induction false} CreateLoses(v: Json, ts: seq<Token>) returns (us: seq<Token>)
    requires (forall t :: t in ts ==> Proper(t)) && Countable(v) && LosesElements(v, ts)
    ensures Resolved(v, us).Some? && Diverges(v, us, Create(v, ts).path) && Resolved(Create(v, ts).root, us).None?
    decreases |ts|
  {
    var t := ts[0];
    ChildMade(v, t);
    var w, a := WithChild(v, t), Actual(v, t);
    var c := Create(Child(w, a).value, ts[1..]);
    assert ([a] + c.path)[1..] == c.path;
    if v.JArray? && t.index == INVALID_INDEX && !IsDash(t) {
      us := [Token(t.name + [0], 0)];
      assert us[1..] == [];
      assert |us[0].name| != |t.name|;
    } else {
      var rest := CreateLoses(Child(v, t).value, ts[1..]);
      us := [t] + rest;
      assert us[1..] == rest;
      ReplaceFound(w, a, c.root);
    }
  }

  /** Creation leaves everything else where it is exactly when no array on the way loses its
      elements. */
  lemma CreateKeepsExactly(v: Json, ts: seq<Token>)
    requires (forall t :: t in ts ==> Proper(t)) && Countable(v)
    ensures !LosesElements(v, ts) <==>
      forall us :: Resolved(v, us).Some? && Diverges(v, us, Create(v, ts).path) ==> Resolved(Create(v, ts).root, us) == Resolved(v, us)
  {
    if LosesElements(v, ts) {
      var us := CreateLoses(v, ts);
    } else {
      forall us | Resolved(v, us).Some? && Diverges(v, us, Create(v, ts).path) ensures Resolved(Create(v, ts).root, us) == Resolved(v, us) {
        CreateKeeps(v, ts, us);
      }
    }
  }
}
