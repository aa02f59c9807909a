/** From pattern text to operand operations: the tokens of a pattern, its grammar as trees,
    and the operator-precedence machine that the compiler runs over the tokens. */
module RegexMachine {
  import opened Options
  import opened RegexSyntax

  datatype Token =
    | SymToken(sym: Sym)
    | OpenToken
    | CloseToken
    | BarToken
    | QuantifierToken(min: nat, max: Bound)
    | AnchorToken(begin: bool)

  datatype Operator = ZeroOrOne | ZeroOrMore | OneOrMore | Concatenation | Alternation | LeftParenthesis

  // ---------------------------------------------------------------- grammar

  /** A pattern: alternatives of concatenations of items; an item is a symbol, a group or a
      quantified item. */
  datatype Alternatives = OneAlternative(first: Sequence) | MoreAlternatives(first: Sequence, rest: Alternatives)
  datatype Sequence = OneItem(item: Item) | MoreItems(item: Item, rest: Sequence)
  datatype Item = Symbol(sym: Sym) | Group(body: Alternatives) | Quantified(operand: Item, min: nat, max: Bound)

  function AltTokens(a: Alternatives): seq<Token> {
    match a
    case OneAlternative(s) => SeqTokens(s)
    case MoreAlternatives(s, rest) => SeqTokens(s) + [BarToken] + AltTokens(rest)
  }

  function SeqTokens(s: Sequence): seq<Token> {
    match s
    case OneItem(i) => ItemTokens(i)
    case MoreItems(i, rest) => ItemTokens(i) + SeqTokens(rest)
  }

  function ItemTokens(i: Item): seq<Token> {
    match i
    case Symbol(y) => [SymToken(y)]
    case Group(a) => [OpenToken] + AltTokens(a) + [CloseToken]
    case Quantified(j, min, max) => ItemTokens(j) + [QuantifierToken(min, max)]
  }

  function AltRe(a: Alternatives): Re {
    match a
    case OneAlternative(s) => SeqRe(s)
    case MoreAlternatives(s, rest) => Alt(SeqRe(s), AltRe(rest))
  }

  function SeqRe(s: Sequence): Re {
    match s
    case OneItem(i) => ItemRe(i)
    case MoreItems(i, rest) => Cat(ItemRe(i), SeqRe(rest))
  }

  function ItemRe(i: Item): Re {
    match i
    case Symbol(y) => Atom(y)
    case Group(a) => AltRe(a)
    case Quantified(j, min, max) => Repeat(ItemRe(j), min, max)
  }

  /** Quantifiers `{n,m}` have `n <= m` and `m` is not zero. */
  predicate BoundOk(min: nat, max: Bound) {
    max.Upto? ==> min <= max.n && 1 <= max.n
  }

  predicate AltOk(a: Alternatives) {
    match a
    case OneAlternative(s) => SeqOk(s)
    case MoreAlternatives(s, rest) => SeqOk(s) && AltOk(rest)
  }

  predicate SeqOk(s: Sequence) {
    match s
    case OneItem(i) => ItemOk(i)
    case MoreItems(i, rest) => ItemOk(i) && SeqOk(rest)
  }

  predicate ItemOk(i: Item) {
    match i
    case Symbol(_) => true
    case Group(a) => AltOk(a)
    case Quantified(j, min, max) => ItemOk(j) && BoundOk(min, max)
  }

  // ---------------------------------------------------------------- the machine

  /** The operand stack, as patterns; the operator stack; and atom counts per parenthesis. */
  datatype Config = Config(operands: seq<Re>, operators: seq<Operator>, atomCounts: seq<nat>)

  const START: Config := Config([], [], [0])

  /** The effect of one operator on the operand stack. */
  function Apply(rs: seq<Re>, op: Operator): Option<seq<Re>> {
    var n := |rs|;
    match op
    case Concatenation => if n < 2 then None else Some(rs[..n - 2] + [Cat(rs[n - 2], rs[n - 1])])
    case Alternation => if n < 2 then None else Some(rs[..n - 2] + [Alt(rs[n - 2], rs[n - 1])])
    case ZeroOrOne => if n < 1 then None else Some(rs[..n - 1] + [Opt(rs[n - 1])])
    case ZeroOrMore => if n < 1 then None else Some(rs[..n - 1] + [Star(rs[n - 1])])
    case OneOrMore => if n < 1 then None else Some(rs[..n - 1] + [Plus(rs[n - 1])])
    case LeftParenthesis => None
  }

  /** Where popping operators stops: before `|`, at a parenthesis, or at the end. */
  datatype Stop = AtAlternation | AtParenthesis | AtEnd

  predicate Pops(stop: Stop, op: Operator) {
    match stop
    case AtAlternation => !op.Alternation? && !op.LeftParenthesis?
    case AtParenthesis => !op.LeftParenthesis?
    case AtEnd => true
  }

  function Reduce(rs: seq<Re>, ops: seq<Operator>, stop: Stop): Option<(seq<Re>, seq<Operator>)>
    decreases |ops|
  {
    var n := |ops|;
    if n == 0 || !Pops(stop, ops[n - 1]) then Some((rs, ops))
    else match Apply(rs, ops[n - 1])
      case None => None
      case Some(rs') => Reduce(rs', ops[..n - 1], stop)
  }

  /** One round of reduction. */
  lemma ReduceStep(rs: seq<Re>, ops: seq<Operator>, stop: Stop)
    ensures |ops| == 0 || !Pops(stop, ops[|ops| - 1]) ==> Reduce(rs, ops, stop) == Some((rs, ops))
    ensures |ops| > 0 && Pops(stop, ops[|ops| - 1]) && Reduce(rs, ops, stop).Some? ==>
      var op := ops[|ops| - 1];
      Apply(rs, op).Some? && !op.LeftParenthesis? && (op.Concatenation? ==> |rs| >= 2)
      && Reduce(rs, ops, stop) == Reduce(Apply(rs, op).value, ops[..|ops| - 1], stop)
  {
  }

  function ImplicitConcatenation(c: Config): Option<Config> {
    var n := |c.atomCounts|;
    if n == 0 then None
    else
      var k := c.atomCounts[n - 1];
      Some(Config(c.operands, if k > 0 then c.operators + [Concatenation] else c.operators, c.atomCounts[n - 1 := k + 1]))
  }

  /** One token. `None` is a rejected pattern or one that the engine does not support. */
  function Step(c: Config, t: Token): Option<Config> {
    match t
    case AnchorToken(_) => Some(c)
    case SymToken(y) => ImplicitConcatenation(c.(operands := c.operands + [Atom(y)]))
    case OpenToken => Some(Config(c.operands, c.operators + [LeftParenthesis], c.atomCounts + [0]))
    case BarToken =>
      if |c.atomCounts| == 0 then None
      else (match Reduce(c.operands, c.operators, AtAlternation)
        case None => None
        case Some((rs, ops)) => Some(Config(rs, ops + [Alternation], c.atomCounts[|c.atomCounts| - 1 := 0])))
    case CloseToken =>
      (match Reduce(c.operands, c.operators, AtParenthesis)
        case None => None
        case Some((rs, ops)) =>
          if |ops| == 0 || |c.atomCounts| == 0 then None
          else ImplicitConcatenation(Config(rs, ops[..|ops| - 1], c.atomCounts[..|c.atomCounts| - 1])))
    case QuantifierToken(min, max) =>
      var n := |c.operands|;
      if n == 0 || !BoundOk(min, max) then None
      else Some(c.(operands := c.operands[..n - 1] + [Repeat(c.operands[n - 1], min, max)]))
  }

  function Run(c: Config, ts: seq<Token>): Option<Config>
    decreases |ts|
  {
    if ts == [] then Some(c)
    else match Step(c, ts[0])
      case None => None
      case Some(c') => Run(c', ts[1..])
  }

  /** What is left at the end of the pattern must reduce to one operand. */
  function Finish(c: Config): Option<Re> {
    match Reduce(c.operands, c.operators, AtEnd)
    case None => None
    case Some((rs, ops)) => if |rs| == 1 then Some(rs[0]) else None
  }

  function Compile(ts: seq<Token>): Option<Re> {
    match Run(START, ts)
    case None => None
    case Some(c) => Finish(c)
  }

  // ---------------------------------------------------------------- precedence parsing is right

  lemma {:induction false} RunAppend(c: Config, a: seq<Token>, b: seq<Token>)
    ensures Run(c, a + b) == match Run(c, a) case None => None case Some(c') => Run(c', b)
    decreases |a|
  {
    if a == [] {
      assert a + b == b;
    } else {
      assert (a + b)[1..] == a[1..] + b;
      if Step(c, a[0]).Some? { RunAppend(Step(c, a[0]).value, a[1..], b); }
    }
  }

  /** The operands and operators that an unfinished sequence or alternation leaves. */
  function SeqOperands(s: Sequence): seq<Re> {
    match s
    case OneItem(i) => [ItemRe(i)]
    case MoreItems(i, rest) => [ItemRe(i)] + SeqOperands(rest)
  }

  function SeqLength(s: Sequence): nat {
    match s
    case OneItem(_) => 1
    case MoreItems(_, rest) => 1 + SeqLength(rest)
  }

  function Concatenations(n: nat): seq<Operator> {
    seq(n, i => Concatenation)
  }

  function AltOperands(a: Alternatives): seq<Re> {
    match a
    case OneAlternative(s) => SeqOperands(s)
    case MoreAlternatives(s, rest) => [SeqRe(s)] + AltOperands(rest)
  }

  function AltOperators(a: Alternatives): seq<Operator> {
    match a
    case OneAlternative(s) => Concatenations(SeqLength(s) - 1)
    case MoreAlternatives(_, rest) => [Alternation] + AltOperators(rest)
  }

  lemma {:induction false} ReduceSequence(s: Sequence, rs: seq<Re>, ops: seq<Operator>, stop: Stop)
    ensures Reduce(rs + SeqOperands(s), ops + Concatenations(SeqLength(s) - 1), stop) == Reduce(rs + [SeqRe(s)], ops, stop)
  {
    match s
    case OneItem(i) =>
      assert ops + Concatenations(0) == ops;
    case MoreItems(i, rest) =>
      var n := SeqLength(rest);
      assert ops + Concatenations(n) == (ops + [Concatenation]) + Concatenations(n - 1);
      assert rs + SeqOperands(s) == (rs + [ItemRe(i)]) + SeqOperands(rest);
      ReduceSequence(rest, rs + [ItemRe(i)], ops + [Concatenation], stop);
      var both := rs + [ItemRe(i)] + [SeqRe(rest)];
      assert both[..|both| - 2] == rs;
      assert (ops + [Concatenation])[..|ops|] == ops;
      assert Apply(both, Concatenation) == Some(rs + [SeqRe(s)]);
  }

  lemma {:induction false} ReduceAlternatives(a: Alternatives, rs: seq<Re>, ops: seq<Operator>, stop: Stop)
    requires !stop.AtAlternation?
    ensures Reduce(rs + AltOperands(a), ops + AltOperators(a), stop) == Reduce(rs + [AltRe(a)], ops, stop)
  {
    match a
    case OneAlternative(s) =>
      ReduceSequence(s, rs, ops, stop);
    case MoreAlternatives(s, rest) =>
      assert ops + AltOperators(a) == (ops + [Alternation]) + AltOperators(rest);
      assert rs + AltOperands(a) == (rs + [SeqRe(s)]) + AltOperands(rest);
      ReduceAlternatives(rest, rs + [SeqRe(s)], ops + [Alternation], stop);
      var both := rs + [SeqRe(s)] + [AltRe(rest)];
      assert both[..|both| - 2] == rs;
      assert (ops + [Alternation])[..|ops|] == ops;
      assert Apply(both, Alternation) == Some(rs + [AltRe(a)]);
  }

  /** The operator pushed for the `k+1`st atom of a sequence. */
  function Joiner(k: nat): seq<Operator> {
    if k > 0 then [Concatenation] else []
  }

  /** The closing parenthesis reduces the group to one operand and counts it as an atom. */
  lemma CloseGroup(a: Alternatives, rs: seq<Re>, ops: seq<Operator>, cs: seq<nat>, k: nat, j: nat)
    ensures Run(Config(rs + AltOperands(a), ops + [LeftParenthesis] + AltOperators(a), cs + [k] + [j]), [CloseToken])
         == Some(Config(rs + [AltRe(a)], ops + Joiner(k), cs + [k + 1]))
  {
    var c := Config(rs + AltOperands(a), ops + [LeftParenthesis] + AltOperators(a), cs + [k] + [j]);
    hide Reduce, Run, AltOperands, AltOperators, AltRe;
    ReduceAlternatives(a, rs, ops + [LeftParenthesis], AtParenthesis);
    StopsAtParenthesis(rs + [AltRe(a)], ops);
    assert (ops + [LeftParenthesis])[..|ops|] == ops;
    assert (cs + [k] + [j])[..|cs| + 1] == cs + [k];
    assert (cs + [k])[|cs| := k + 1] == cs + [k + 1];
    assert ops + [] == ops;
    assert Step(c, CloseToken) == Some(Config(rs + [AltRe(a)], ops + Joiner(k), cs + [k + 1]));
    RunOne(c, CloseToken);
  }

  lemma StopsAtParenthesis(rs: seq<Re>, ops: seq<Operator>)
    ensures Reduce(rs, ops + [LeftParenthesis], AtParenthesis) == Some((rs, ops + [LeftParenthesis]))
  {
  }

  lemma RunOne(c: Config, t: Token)
    ensures Run(c, [t]) == Step(c, t)
  {
    hide Step;
  }

  /** A bar reduces the sequence before it to one operand. */
  lemma BarAfterSequence(s: Sequence, rs: seq<Re>, ops: seq<Operator>, cs: seq<nat>)
    requires ops == [] || ops[|ops| - 1].LeftParenthesis? || ops[|ops| - 1].Alternation?
    ensures Step(Config(rs + SeqOperands(s), ops + Concatenations(SeqLength(s) - 1), cs + [SeqLength(s)]), BarToken)
         == Some(Config(rs + [SeqRe(s)], ops + [Alternation], cs + [0]))
  {
    ReduceSequence(s, rs, ops, AtAlternation);
    assert (cs + [SeqLength(s)])[|cs| := 0] == cs + [0];
  }

  lemma {:induction false} RunItem(i: Item, rs: seq<Re>, ops: seq<Operator>, cs: seq<nat>, k: nat)
    requires ItemOk(i)
    ensures Run(Config(rs, ops, cs + [k]), ItemTokens(i)) == Some(Config(rs + [ItemRe(i)], ops + Joiner(k), cs + [k + 1]))
    decreases i
  {
    var c := Config(rs, ops, cs + [k]);
    assert (cs + [k])[|cs| := k + 1] == cs + [k + 1];
    assert ops + [] == ops;
    match i
    case Symbol(y) =>
      assert Run(Step(c, SymToken(y)).value, []) == Step(c, SymToken(y));
    case Group(a) =>
      var c1 := Config(rs, ops + [LeftParenthesis], cs + [k] + [0]);
      assert ItemTokens(i)[1..] == AltTokens(a) + [CloseToken];
      assert Step(c, OpenToken) == Some(c1);
      RunAppend(c1, AltTokens(a), [CloseToken]);
      var j := RunAlternatives(a, rs, ops + [LeftParenthesis], cs + [k]);
      CloseGroup(a, rs, ops, cs, k, j);
    case Quantified(p, min, max) =>
      RunAppend(c, ItemTokens(p), [QuantifierToken(min, max)]);
      RunItem(p, rs, ops, cs, k);
      var c1 := Config(rs + [ItemRe(p)], ops + Joiner(k), cs + [k + 1]);
      assert c1.operands[..|rs|] == rs;
      assert Run(Step(c1, QuantifierToken(min, max)).value, []) == Step(c1, QuantifierToken(min, max));
  }

  lemma {:induction false} RunSequence(s: Sequence, rs: seq<Re>, ops: seq<Operator>, cs: seq<nat>, k: nat)
    requires SeqOk(s)
    ensures Run(Config(rs, ops, cs + [k]), SeqTokens(s))
         == Some(Config(rs + SeqOperands(s), ops + Joiner(k) + Concatenations(SeqLength(s) - 1), cs + [k + SeqLength(s)]))
    decreases s, 0
  {
    hide Step, Reduce;
    match s
    case OneItem(i) =>
      RunItem(i, rs, ops, cs, k);
      assert ops + Joiner(k) + Concatenations(0) == ops + Joiner(k);
    case MoreItems(i, rest) =>
      RunAppend(Config(rs, ops, cs + [k]), ItemTokens(i), SeqTokens(rest));
      RunItem(i, rs, ops, cs, k);
      RunSequence(rest, rs + [ItemRe(i)], ops + Joiner(k), cs, k + 1);
      assert rs + [ItemRe(i)] + SeqOperands(rest) == rs + SeqOperands(s);
      JoinConcatenations(ops + Joiner(k), SeqLength(rest));
  }

  lemma JoinConcatenations(ops: seq<Operator>, n: nat)
    requires n > 0
    ensures ops + [Concatenation] + Concatenations(n - 1) == ops + Concatenations(n)
  {
  }

  /** A sequence and the bar after it leave one operand. */
  lemma RunToBar(s: Sequence, rs: seq<Re>, ops: seq<Operator>, cs: seq<nat>, ts: seq<Token>)
    requires SeqOk(s) && (ops == [] || ops[|ops| - 1].LeftParenthesis? || ops[|ops| - 1].Alternation?)
    ensures Run(Config(rs, ops, cs + [0]), SeqTokens(s) + [BarToken] + ts)
         == Run(Config(rs + [SeqRe(s)], ops + [Alternation], cs + [0]), ts)
    decreases s, 1
  {
    RunSequence(s, rs, ops, cs, 0);
    assert ops + Joiner(0) == ops;
    BarAfterSequence(s, rs, ops, cs);
    var tail := [BarToken] + ts;
    assert SeqTokens(s) + [BarToken] + ts == SeqTokens(s) + tail;
    assert tail[1..] == ts;
    RunAppend(Config(rs, ops, cs + [0]), SeqTokens(s), tail);
  }

  lemma {:induction false} RunAlternatives(a: Alternatives, rs: seq<Re>, ops: seq<Operator>, cs: seq<nat>) returns (j: nat)
    requires AltOk(a) && (ops == [] || ops[|ops| - 1].LeftParenthesis? || ops[|ops| - 1].Alternation?)
    ensures Run(Config(rs, ops, cs + [0]), AltTokens(a))
         == Some(Config(rs + AltOperands(a), ops + AltOperators(a), cs + [j]))
    decreases a
  {
    hide Run, Step, Reduce;
    match a
    case OneAlternative(s) =>
      RunSequence(s, rs, ops, cs, 0);
      assert ops + Joiner(0) == ops;
      j := SeqLength(s);
    case MoreAlternatives(s, rest) =>
      RunToBar(s, rs, ops, cs, AltTokens(rest));
      j := RunAlternatives(rest, rs + [SeqRe(s)], ops + [Alternation], cs);
      assert rs + [SeqRe(s)] + AltOperands(rest) == rs + AltOperands(a);
      assert ops + [Alternation] + AltOperators(rest) == ops + AltOperators(a);
  }

  /** The machine gives every well-formed pattern the meaning its grammar gives it. */
  lemma CompileMeaning(a: Alternatives)
    requires AltOk(a)
    ensures Compile(AltTokens(a)) == Some(AltRe(a))
  {
    assert START == Config([], [], [] + [0]);
    var j := RunAlternatives(a, [], [], []);
    ReduceAlternatives(a, [], [], AtEnd);
  }

  function StripAnchors(ts: seq<Token>): seq<Token> {
    if ts == [] then []
    else if ts[0].AnchorToken? then StripAnchors(ts[1..])
    else [ts[0]] + StripAnchors(ts[1..])
  }

  lemma {:induction false} RunIgnoresAnchors(c: Config, ts: seq<Token>)
    ensures Run(c, ts) == Run(c, StripAnchors(ts))
    decreases |ts|
  {
    if ts != [] {
      if ts[0].AnchorToken? {
        RunIgnoresAnchors(c, ts[1..]);
      } else {
        assert StripAnchors(ts)[1..] == StripAnchors(ts[1..]);
        if Step(c, ts[0]).Some? { RunIgnoresAnchors(Step(c, ts[0]).value, ts[1..]); }
      }
    }
  }

  // ---------------------------------------------------------------- automaton size

  function Total(rs: seq<Re>): nat {
    if rs == [] then 0 else Total(rs[..|rs| - 1]) + Size(rs[|rs| - 1])
  }

  lemma TotalPush(rs: seq<Re>, r: Re)
    ensures Total(rs + [r]) == Total(rs) + Size(r)
  {
    assert (rs + [r])[..|rs|] == rs;
  }

  lemma {:induction false} TotalAppend(a: seq<Re>, b: seq<Re>)
    ensures Total(a + b) == Total(a) + Total(b)
  {
    if b == [] {
      assert a + b == a;
    } else {
      assert (a + b)[..|a + b| - 1] == a + b[..|b| - 1];
      TotalAppend(a, b[..|b| - 1]);
    }
  }

  /** No construction step removes a state. */
  lemma ApplyGrows(rs: seq<Re>, op: Operator)
    requires Apply(rs, op).Some?
    ensures Total(Apply(rs, op).value) >= Total(rs)
  {
    var n := |rs|;
    if op.Concatenation? || op.Alternation? {
      TotalPush(rs[..n - 2], Apply(rs, op).value[n - 2]);
      assert rs[..n - 1][..n - 2] == rs[..n - 2];
    } else {
      RepeatGrows(rs[n - 1], 0, Upto(1));
      RepeatGrows(rs[n - 1], 0, Unlimited);
      RepeatGrows(rs[n - 1], 1, Unlimited);
      TotalPush(rs[..n - 1], Apply(rs, op).value[n - 1]);
    }
  }

  lemma RepeatGrows(r: Re, min: nat, max: Bound)
    requires BoundOk(min, max)
    ensures Size(Repeat(r, min, max)) >= Size(r)
  {
  }

  lemma {:induction false} ReduceGrows(rs: seq<Re>, ops: seq<Operator>, stop: Stop)
    requires Reduce(rs, ops, stop).Some?
    ensures Total(Reduce(rs, ops, stop).value.0) >= Total(rs)
    decreases |ops|
  {
    var n := |ops|;
    if n > 0 && Pops(stop, ops[n - 1]) {
      ApplyGrows(rs, ops[n - 1]);
      ReduceGrows(Apply(rs, ops[n - 1]).value, ops[..n - 1], stop);
    }
  }

  lemma StepGrows(c: Config, t: Token)
    requires Step(c, t).Some?
    ensures Total(Step(c, t).value.operands) >= Total(c.operands)
  {
    match t
    case AnchorToken(_) =>
    case OpenToken =>
    case SymToken(y) => TotalPush(c.operands, Atom(y));
    case BarToken => ReduceGrows(c.operands, c.operators, AtAlternation);
    case CloseToken => ReduceGrows(c.operands, c.operators, AtParenthesis);
    case QuantifierToken(min, max) =>
      var n := |c.operands|;
      RepeatGrows(c.operands[n - 1], min, max);
      TotalPush(c.operands[..n - 1], Repeat(c.operands[n - 1], min, max));
  }

  lemma {:induction false} RunGrows(c: Config, ts: seq<Token>)
    requires Run(c, ts).Some?
    ensures Total(Run(c, ts).value.operands) >= Total(c.operands)
    decreases |ts|
  {
    if ts != [] {
      StepGrows(c, ts[0]);
      RunGrows(Step(c, ts[0]).value, ts[1..]);
    }
  }

  lemma FinishGrows(c: Config, r: Re)
    requires Finish(c) == Some(r)
    ensures Total(c.operands) <= Size(r)
  {
    ReduceGrows(c.operands, c.operators, AtEnd);
    TotalPush([], r);
    assert [] + [r] == [r];
  }
}
