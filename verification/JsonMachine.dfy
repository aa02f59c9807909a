/** The table of the iterative parser, and what the recursive parser would do from each of
    its configurations. */
module JsonMachine {
  import opened Bytes
  import opened JsonLexer
  import opened JsonParser

  datatype State =
    | Start | Finish | Error
    | ObjectInitial | MemberKey | KeyValueDelimiter | MemberValue | MemberDelimiter | ObjectFinish
    | ArrayInitial | Element | ElementDelimiter | ArrayFinish
    | SingleValue

  datatype Token =
    | LeftBracket | RightBracket | LeftCurly | RightCurly | Comma | Colon
    | StringToken | FalseToken | TrueToken | NullToken | NumberToken

  function Tokenize(c: Byte): Token {
    if c == '[' as int then LeftBracket
    else if c == ']' as int then RightBracket
    else if c == '{' as int then LeftCurly
    else if c == '}' as int then RightCurly
    else if c == ',' as int then Comma
    else if c == ':' as int then Colon
    else if c == '"' as int then StringToken
    else if c == 'f' as int then FalseToken
    else if c == 't' as int then TrueToken
    else if c == 'n' as int then NullToken
    else NumberToken
  }

  predicate IsSimple(t: Token) {
    t.StringToken? || t.FalseToken? || t.TrueToken? || t.NullToken? || t.NumberToken?
  }

  /** The table: current state and next token give the state to try. */
  function Predict(state: State, t: Token): State {
    match state
    case Start => PredictValue(t, SingleValue)
    case ObjectInitial => if t.RightCurly? then ObjectFinish else if t.StringToken? then MemberKey else Error
    case MemberKey => if t.Colon? then KeyValueDelimiter else Error
    case KeyValueDelimiter => PredictValue(t, MemberValue)
    case MemberValue => if t.RightCurly? then ObjectFinish else if t.Comma? then MemberDelimiter else Error
    case MemberDelimiter => if t.RightCurly? then ObjectFinish else if t.StringToken? then MemberKey else Error
    case ArrayInitial => if t.RightBracket? then ArrayFinish else PredictValue(t, Element)
    case Element => if t.RightBracket? then ArrayFinish else if t.Comma? then ElementDelimiter else Error
    case ElementDelimiter => if t.RightBracket? then ArrayFinish else PredictValue(t, Element)
    case _ => Error
  }

  /** Where a value may stand: an array or an object starts, or a simple value follows. */
  function PredictValue(t: Token, simple: State): State {
    if t.LeftBracket? then ArrayInitial
    else if t.LeftCurly? then ObjectInitial
    else if IsSimple(t) then simple
    else Error
  }

  /** An open bracket: the state to return to when it closes, and the count so far. */
  datatype Frame = Frame(state: State, count: nat)

  type Stack = seq<Frame>

  function Top(stack: Stack): Frame
    requires stack != []
  {
    stack[|stack| - 1]
  }

  function Pop(stack: Stack): Stack
    requires stack != []
  {
    stack[..|stack| - 1]
  }

  /** The state an opening bracket is to return to. */
  function ReturnState(src: State): State {
    if src.ArrayInitial? || src.ElementDelimiter? then Element
    else if src.KeyValueDelimiter? then MemberValue
    else src
  }

  // ---------------------------------------------------------------- the recursive parser's view

  predicate InObject(state: State) {
    state.ObjectInitial? || state.MemberKey? || state.KeyValueDelimiter? || state.MemberValue? || state.MemberDelimiter?
  }

  predicate InArray(state: State) {
    state.ArrayInitial? || state.Element? || state.ElementDelimiter?
  }

  /** The frames mirror the open brackets: the outermost returns to the start, each other one
      to a state inside the bracket around it. */
  predicate Nested(state: State, stack: Stack)
    decreases |stack|
  {
    if state.Start? || state.Finish? then stack == []
    else
      (InObject(state) || InArray(state)) && stack != []
      && (Top(stack).state.Start? || Top(stack).state.MemberValue? || Top(stack).state.Element?)
      && (state.ObjectInitial? || state.ArrayInitial? ==> Top(stack).count == 0)
      && Nested(Top(stack).state, Pop(stack))
  }

  /** What the recursive parser does inside the innermost bracket, up to its end. */
  function Inside(env: Env, state: State, count: nat, a: At): (r: Outcome)
    ensures r.Done? ==> a.pos < r.at.pos <= |env.s|
  {
    match state
    case ObjectInitial => ObjectInside(env, a)
    case MemberKey => AfterKey(env, a, count)
    case KeyValueDelimiter => AfterColon(env, a, count)
    case MemberValue => AfterMember(env, a, count)
    case MemberDelimiter => AfterMemberComma(env, a, count)
    case ArrayInitial => ArrayInside(env, a)
    case Element => AfterElement(env, a, count)
    case ElementDelimiter => AfterElementComma(env, a, count)
    case _ => Failed(a.out)
  }

  /** What the recursive parser does from a configuration of the machine to the end of the
      document. */
  function Resume(env: Env, state: State, stack: Stack, a: At): Outcome
    decreases |stack|, 0
  {
    if state.Start? then Root(env, a)
    else if state.Finish? then (if Here(env, a) == 0 then Done(a) else Failed(a.out))
    else if stack == [] then Failed(a.out)
    else
      var b :- Inside(env, state, Top(stack).count, a);
      Close(env, Top(stack).state, Pop(stack), b)
  }

  /** What it does after a bracket that returns to `state`. */
  function Close(env: Env, state: State, stack: Stack, a: At): Outcome
    decreases |stack|, 1
  {
    if state.Start? then AfterRoot(env, a)
    else
      var b :- Skip(env, a);
      Resume(env, state, stack, b)
  }

  /** What it does after the machine has moved to `state`, before blanks are skipped. */
  function Landed(env: Env, state: State, stack: Stack, a: At): Outcome {
    if state.Finish? then AfterRoot(env, a)
    else
      var b :- Skip(env, a);
      Resume(env, state, stack, b)
  }

  function TokenAt(env: Env, a: At): Token {
    Tokenize(Here(env, a))
  }

  /** No value starts with a bracket, a comma, a colon or the end. */
  lemma NoScalar(env: Env, a: At)
    requires Here(env, a) == 0 || !IsSimple(TokenAt(env, a))
    ensures ScalarValue(env, a) == Failed(a.out)
  {
  }

  /** The state after a value. */
  function ValueState(state: State): State {
    if state.KeyValueDelimiter? then MemberValue else Element
  }

  /** Where a value is read inside a bracket. */
  lemma InsideValue(env: Env, state: State, count: nat, a: At)
    requires state.KeyValueDelimiter? || state.ArrayInitial? || state.ElementDelimiter?
    requires state.ArrayInitial? ==> count == 0 && Here(env, a) != ']' as int
    requires state.ElementDelimiter? && env.flags.trailingCommas ==> Here(env, a) != ']' as int
    ensures Inside(env, state, count, a) ==
      var b :- ValueAt(env, a);
      var c :- Skip(env, b);
      Inside(env, ValueState(state), count, c)
  {
    if !state.KeyValueDelimiter? { assert Inside(env, state, count, a) == Elements(env, a, count); }
  }

  /** What the recursive parser does after a value that is read in `state`. */
  function AfterValue(env: Env, state: State, stack: Stack, a: At): Outcome {
    Landed(env, if state.Start? then Finish else ValueState(state), stack, a)
  }

  /** Wherever a value is read, the rest follows from where it ends. */
  lemma ReadValue(env: Env, state: State, stack: Stack, a: At)
    requires Nested(state, stack) && Here(env, a) != 0
    requires state.Start? || state.KeyValueDelimiter? || state.ArrayInitial? || state.ElementDelimiter?
    requires state.ArrayInitial? ==> Here(env, a) != ']' as int
    requires state.ElementDelimiter? && env.flags.trailingCommas ==> Here(env, a) != ']' as int
    ensures Resume(env, state, stack, a) ==
      var b :- ValueAt(env, a);
      AfterValue(env, state, stack, b)
  {
    hide ValueAt, Inside;
    if !state.Start? { InsideValue(env, state, Top(stack).count, a); }
  }

  lemma ValueFails(env: Env, a: At)
    requires Here(env, a) == 0 || (!IsSimple(TokenAt(env, a)) && !TokenAt(env, a).LeftBracket? && !TokenAt(env, a).LeftCurly?)
    ensures ValueAt(env, a) == Failed(a.out)
  {
    NoScalar(env, a);
  }

  /** At the end of the text nothing but a finished document is accepted. */
  lemma EndFails(env: Env, state: State, stack: Stack, a: At)
    requires Nested(state, stack) && Here(env, a) == 0 && !state.Finish?
    ensures Resume(env, state, stack, a) == Failed(a.out)
  {
    ValueFails(env, a);
    if state.KeyValueDelimiter? || state.ArrayInitial? || state.ElementDelimiter? {
      InsideValue(env, state, Top(stack).count, a);
    }
    if state.ObjectInitial? || state.MemberDelimiter? { assert Members(env, a, Top(stack).count) == Failed(a.out); }
  }

  /** Where the table has an error the recursive parser fails too, reporting nothing. */
  lemma ErrorFails(env: Env, state: State, stack: Stack, a: At)
    requires Nested(state, stack) && Here(env, a) != 0 && Predict(state, TokenAt(env, a)).Error?
    ensures Resume(env, state, stack, a) == Failed(a.out)
  {
    if state.Start? || state.KeyValueDelimiter? || state.ArrayInitial? || state.ElementDelimiter? {
      ValueFails(env, a);
      ReadValue(env, state, stack, a);
    }
    if state.ObjectInitial? || state.MemberDelimiter? { assert Members(env, a, Top(stack).count) == Failed(a.out); }
  }

  /** The event of an opening bracket. */
  function Opening(dst: State): Event {
    if dst.ObjectInitial? then StartObject else StartArray
  }

  lemma OpenNested(src: State, stack: Stack, t: Token, dst: State)
    requires Nested(src, stack) && dst == Predict(src, t) && (dst.ObjectInitial? || dst.ArrayInitial?)
    ensures Nested(dst, stack + [Frame(ReturnState(src), 0)])
  {
    assert src.Start? || src.KeyValueDelimiter? || src.ArrayInitial? || src.ElementDelimiter?;
    hide Predict, PredictValue;
    assert Pop(stack + [Frame(ReturnState(src), 0)]) == stack;
    if !src.Start? {
      assert ReturnState(src).Element? || ReturnState(src).MemberValue?;
    }
  }

  lemma OpenValue(env: Env, a: At, dst: State)
    requires Here(env, a) != 0 && dst == PredictValue(TokenAt(env, a), Error) && (dst.ObjectInitial? || dst.ArrayInitial?)
    ensures ValueAt(env, a) ==
      var b :- Emit(env, a.pos, a.out, Opening(dst));
      var c :- TakeSkip(env, b);
      Inside(env, dst, 0, c)
  {
    assert ValueAt(env, a) == if dst.ObjectInitial? then ObjectAt(env, a) else ArrayAt(env, a);
  }

  lemma OpenClose(env: Env, src: State, stack: Stack, dst: State, c: At)
    requires src.Start? ==> stack == []
    requires src.Start? || src.KeyValueDelimiter? || src.ArrayInitial? || src.ElementDelimiter?
    requires dst.ObjectInitial? || dst.ArrayInitial?
    ensures Resume(env, dst, stack + [Frame(ReturnState(src), 0)], c) ==
      var d :- Inside(env, dst, 0, c);
      AfterValue(env, src, stack, d)
  {
    var stack' := stack + [Frame(ReturnState(src), 0)];
    assert Pop(stack') == stack && Top(stack').count == 0 && Top(stack').state == ReturnState(src);
    assert !dst.Start? && !dst.Finish? && stack' != [];
    hide Inside;
    if src.Start? {
      assert ReturnState(src).Start?;
    } else {
      assert ReturnState(src) == ValueState(src) && !ReturnState(src).Start? && !ReturnState(src).Finish?;
    }
  }

  /** An opening bracket. */
  lemma OpenStep(env: Env, src: State, stack: Stack, a: At, dst: State)
    requires Nested(src, stack) && Here(env, a) != 0 && dst == Predict(src, TokenAt(env, a))
    requires dst.ObjectInitial? || dst.ArrayInitial?
    ensures Nested(dst, stack + [Frame(ReturnState(src), 0)])
    ensures Resume(env, src, stack, a) ==
      var b :- Emit(env, a.pos, a.out, Opening(dst));
      Landed(env, dst, stack + [Frame(ReturnState(src), 0)], b.(pos := a.pos + 1))
  {
    hide ValueAt, Inside, Resume, AfterValue, SkipAt, Emit;
    OpenNested(src, stack, TokenAt(env, a), dst);
    ReadValue(env, src, stack, a);
    OpenValue(env, a, dst);
    hide Nested, Predict, PredictValue;
    var r := Emit(env, a.pos, a.out, Opening(dst));
    if r.Done? {
      var q := TakeSkip(env, r.at);
      if q.Done? { OpenClose(env, src, stack, dst, q.at); }
    }
  }

  /** The name of a member. */
  lemma KeyStep(env: Env, src: State, stack: Stack, a: At)
    requires Nested(src, stack) && Here(env, a) != 0 && Predict(src, TokenAt(env, a)).MemberKey?
    ensures Nested(MemberKey, stack) && Here(env, a) == '"' as int
    ensures Resume(env, src, stack, a) ==
      var b :- KeyAt(env, a);
      Landed(env, MemberKey, stack, b)
  {
    var count := Top(stack).count;
    assert Inside(env, src, count, a) == Members(env, a, count);
    assert Members(env, a, count) ==
      var b :- KeyAt(env, a);
      var c :- Skip(env, b);
      Inside(env, MemberKey, count, c);
    hide Inside, Members, KeyAt;
  }

  lemma ColonStep(env: Env, src: State, stack: Stack, a: At)
    requires Nested(src, stack) && Here(env, a) != 0 && Predict(src, TokenAt(env, a)).KeyValueDelimiter?
    ensures Nested(KeyValueDelimiter, stack)
    ensures Resume(env, src, stack, a) == Landed(env, KeyValueDelimiter, stack, a.(pos := a.pos + 1))
  {
    assert src.MemberKey? && Here(env, a) == ':' as int;
    hide Predict, TokenAt, ValueAt, Members, Elements, Skip, KeyAt;
  }

  /** A value that is neither an object nor an array. */
  lemma SimpleStep(env: Env, src: State, stack: Stack, a: At, dst: State)
    requires Nested(src, stack) && Here(env, a) != 0 && dst == Predict(src, TokenAt(env, a))
    requires dst.MemberValue? || dst.Element? || dst.SingleValue?
    ensures IsSimple(TokenAt(env, a))
    ensures Nested(if dst.SingleValue? then Finish else dst, stack)
    ensures Resume(env, src, stack, a) ==
      match ScalarValue(env, a)
      case Failed(o) => Failed(o)
      case Done(b) => Landed(env, if dst.SingleValue? then Finish else dst, stack, b)
  {
    ReadValue(env, src, stack, a);
  }

  function Counted(stack: Stack): Stack
    requires stack != []
  {
    stack[|stack| - 1 := Top(stack).(count := Top(stack).count + 1)]
  }

  lemma CommaInside(env: Env, src: State, count: nat, a: At, dst: State)
    requires Here(env, a) != 0 && dst == Predict(src, TokenAt(env, a))
    requires dst.MemberDelimiter? || dst.ElementDelimiter?
    ensures Inside(env, src, count, a) ==
      var b :- TakeSkip(env, a);
      Inside(env, dst, count + 1, b)
  {
  }

  lemma CommaStep(env: Env, src: State, stack: Stack, a: At, dst: State)
    requires Nested(src, stack) && Here(env, a) != 0 && dst == Predict(src, TokenAt(env, a))
    requires dst.MemberDelimiter? || dst.ElementDelimiter?
    ensures stack != [] && Nested(dst, Counted(stack))
    ensures Resume(env, src, stack, a) == Landed(env, dst, Counted(stack), a.(pos := a.pos + 1))
  {
    CommaInside(env, src, Top(stack).count, a, dst);
    var stack' := Counted(stack);
    assert Pop(stack') == Pop(stack) && Top(stack') == Frame(Top(stack).state, Top(stack).count + 1);
    hide Inside;
  }

  /** The state after a closing bracket. */
  function Closed(state: State): State {
    if state.Start? then Finish else state
  }

  /** The count reported by a closing bracket. */
  function Reported(src: State, count: nat): nat {
    if src.MemberValue? || src.Element? then count + 1 else count
  }

  lemma ClosedFits(src: State, stack: Stack)
    requires Nested(src, stack) && stack != []
    ensures !Closed(Top(stack).state).Error?
  {
  }

  lemma CloseInside(env: Env, src: State, count: nat, a: At, dst: State)
    requires Here(env, a) != 0 && dst == Predict(src, TokenAt(env, a)) && (dst.ObjectFinish? || dst.ArrayFinish?)
    requires src.ObjectInitial? || src.ArrayInitial? ==> count == 0
    requires src.MemberDelimiter? || src.ElementDelimiter? ==> env.flags.trailingCommas
    ensures
      var count' := Reported(src, count);
      Inside(env, src, count, a) == Emit(env, a.pos + 1, a.out, if dst.ObjectFinish? then EndObject(count') else EndArray(count'))
  {
  }

  /** A closing bracket; after a comma it is an error unless trailing commas are allowed. */
  lemma CloseStep(env: Env, src: State, stack: Stack, a: At, dst: State)
    requires Nested(src, stack) && Here(env, a) != 0 && dst == Predict(src, TokenAt(env, a))
    requires dst.ObjectFinish? || dst.ArrayFinish?
    ensures stack != [] && Nested(Closed(Top(stack).state), Pop(stack))
    ensures
      var count := Reported(src, Top(stack).count);
      Resume(env, src, stack, a) ==
        if !env.flags.trailingCommas && (src.MemberDelimiter? || src.ElementDelimiter?) then Failed(a.out)
        else match Emit(env, a.pos, a.out, if dst.ObjectFinish? then EndObject(count) else EndArray(count))
          case Failed(o) => Failed(o)
          case Done(b) => Landed(env, Closed(Top(stack).state), Pop(stack), b.(pos := a.pos + 1))
  {
    if src.ElementDelimiter? && !env.flags.trailingCommas {
      ValueFails(env, a);
      ReadValue(env, src, stack, a);
    } else if src.MemberDelimiter? && !env.flags.trailingCommas {
      assert Members(env, a, Top(stack).count) == Failed(a.out);
    } else {
      CloseInside(env, src, Top(stack).count, a, dst);
      hide Inside;
    }
  }

  /** The machine starts as the recursive parser does. */
  lemma Starting(env: Env, a: At)
    ensures Resume(env, Start, [], a) == Root(env, a) && Nested(Start, [])
  {
  }

  lemma Finishing(env: Env, stack: Stack, a: At)
    ensures Resume(env, Finish, stack, a) == if Here(env, a) == 0 then Done(a) else Failed(a.out)
  {
  }

  // ---------------------------------------------------------------- frames and open brackets

  /** The brackets that the events have opened and not closed. */
  function Unclosed(es: seq<Event>): seq<Event> {
    if es == [] then []
    else
      var open, e := Unclosed(es[..|es| - 1]), es[|es| - 1];
      if e.StartObject? || e.StartArray? then open + [e]
      else if e.EndObject? || e.EndArray? then (if open == [] then [] else open[..|open| - 1])
      else open
  }

  lemma UnclosedPush(es: seq<Event>, e: Event)
    ensures Unclosed(es + [e]) ==
      var open := Unclosed(es);
      if e.StartObject? || e.StartArray? then open + [e]
      else if e.EndObject? || e.EndArray? then (if open == [] then [] else open[..|open| - 1])
      else open
  {
    assert (es + [e])[..|es|] == es;
  }

  /** Frame by frame, the stack mirrors the open brackets, each of the kind that the state
      inside it says. */
  predicate Mirrors(state: State, stack: Stack, open: seq<Event>)
    decreases |stack|
  {
    if state.Start? || state.Finish? then stack == [] && open == []
    else
      stack != [] && open != []
      && (InObject(state) || InArray(state))
      && open[|open| - 1] == (if InObject(state) then StartObject else StartArray)
      && Mirrors(Top(stack).state, Pop(stack), open[..|open| - 1])
  }

  /** States inside the same bracket are alike; a change of the count is not seen. */
  lemma MirrorsAlike(src: State, dst: State, stack: Stack, stack': Stack, open: seq<Event>)
    requires Mirrors(src, stack, open) && InObject(src) == InObject(dst) && InArray(src) == InArray(dst) && src != Start && src != Finish
    requires stack != [] && stack' != [] && Pop(stack') == Pop(stack) && Top(stack').state == Top(stack).state
    ensures Mirrors(dst, stack', open)
  {
  }

  /** Every move of the table keeps the mirror. */
  lemma MirrorsMove(src: State, t: Token, stack: Stack, open: seq<Event>)
    requires Mirrors(src, stack, open) && !Predict(src, t).Error?
    ensures
      var dst := Predict(src, t);
      if dst.ObjectInitial? || dst.ArrayInitial? then Mirrors(dst, stack + [Frame(ReturnState(src), 0)], open + [Opening(dst)])
      else if dst.SingleValue? then Mirrors(Finish, stack, open)
      else if dst.ObjectFinish? || dst.ArrayFinish? then stack != [] && open != [] && Mirrors(Closed(Top(stack).state), Pop(stack), open[..|open| - 1])
      else Mirrors(dst, stack, open) && stack != [] && Mirrors(dst, Counted(stack), open)
  {
    var dst := Predict(src, t);
    if dst.ObjectInitial? || dst.ArrayInitial? {
      MirrorsOpen(src, t, stack, open);
    } else if dst.SingleValue? || dst.ObjectFinish? || dst.ArrayFinish? {
      MirrorsEnd(src, t, stack, open);
    } else {
      MirrorsInside(src, t, stack, open);
    }
  }

  lemma MirrorsOpen(src: State, t: Token, stack: Stack, open: seq<Event>)
    requires Mirrors(src, stack, open) && (Predict(src, t).ObjectInitial? || Predict(src, t).ArrayInitial?)
    ensures Mirrors(Predict(src, t), stack + [Frame(ReturnState(src), 0)], open + [Opening(Predict(src, t))])
  {
    var dst := Predict(src, t);
    assert src.Start? || src.KeyValueDelimiter? || src.ArrayInitial? || src.ElementDelimiter?;
    hide Predict, PredictValue, Mirrors;
    ReturnMirrors(src, stack, open);
    MirrorsNext(dst, Frame(ReturnState(src), 0), stack, open);
  }

  lemma ReturnMirrors(src: State, stack: Stack, open: seq<Event>)
    requires Mirrors(src, stack, open)
    ensures Mirrors(ReturnState(src), stack, open)
  {
  }

  /** One more frame and one more bracket. */
  lemma MirrorsNext(dst: State, f: Frame, stack: Stack, open: seq<Event>)
    requires Mirrors(f.state, stack, open) && (dst.ObjectInitial? || dst.ArrayInitial?)
    ensures Mirrors(dst, stack + [f], open + [Opening(dst)])
  {
    assert Pop(stack + [f]) == stack && Top(stack + [f]) == f && (open + [Opening(dst)])[..|open|] == open;
  }

  lemma MirrorsEnd(src: State, t: Token, stack: Stack, open: seq<Event>)
    requires Mirrors(src, stack, open)
    ensures Predict(src, t).SingleValue? ==> Mirrors(Finish, stack, open)
    ensures Predict(src, t).ObjectFinish? || Predict(src, t).ArrayFinish? ==>
      stack != [] && open != [] && Mirrors(Closed(Top(stack).state), Pop(stack), open[..|open| - 1])
  {
  }

  lemma MirrorsInside(src: State, t: Token, stack: Stack, open: seq<Event>)
    requires Mirrors(src, stack, open)
    requires var dst := Predict(src, t);
      !dst.Error? && !dst.ObjectInitial? && !dst.ArrayInitial? && !dst.SingleValue? && !dst.ObjectFinish? && !dst.ArrayFinish?
    ensures stack != [] && Mirrors(Predict(src, t), stack, open) && Mirrors(Predict(src, t), Counted(stack), open)
  {
    var dst := Predict(src, t);
    assert Pop(Counted(stack)) == Pop(stack);
    MirrorsAlike(src, dst, stack, stack, open);
    MirrorsAlike(src, dst, stack, Counted(stack), open);
  }
}
