/** The regular expression matcher: it simulates the automaton on sets of states, each set a
    list of states guarded by a bit set. */
module RegexSearch {
  import opened Options
  import opened RegexSyntax
  import opened RegexNfa
  import opened RegexFragment
  import opened RegexMachine
  import opened RegexLexer
  import opened RegexCompiler

  // ---------------------------------------------------------------- bit sets

  function Bit(k: nat): bv32
    requires k < 32
  {
    (1 as bv32) << k
  }

  predicate HasBit(words: seq<bv32>, i: nat)
    requires i / 32 < |words|
  {
    words[i / 32] & Bit(i % 32) != 0
  }

  function WithBit(words: seq<bv32>, i: nat): (r: seq<bv32>)
    requires i / 32 < |words|
    ensures |r| == |words|
  {
    words[i / 32 := words[i / 32] | Bit(i % 32)]
  }

  lemma OrBit(x: bv32, j: nat, k: nat)
    requires j < 32 && k < 32
    ensures (x | Bit(k)) & Bit(j) != 0 <==> j == k || x & Bit(j) != 0
  {
  }

  lemma SetBit(words: seq<bv32>, i: nat, j: nat)
    requires i / 32 < |words| && j / 32 < |words|
    ensures HasBit(WithBit(words, i), j) <==> i == j || HasBit(words, j)
  {
    if i / 32 == j / 32 { OrBit(words[i / 32], j % 32, i % 32); }
  }

  // ---------------------------------------------------------------- sets of states

  /** Some state of the list accepts `w`. */
  ghost predicate AnyAccepts(N: Net, xs: seq<nat>, w: Word)
    requires RangesOk(N.ranges)
  {
    exists i :: 0 <= i < |xs| && Accepts(N, xs[i], w)
  }

  lemma AnyAcceptsPush(N: Net, xs: seq<nat>, x: nat, w: Word)
    requires RangesOk(N.ranges)
    ensures AnyAccepts(N, xs + [x], w) <==> AnyAccepts(N, xs, w) || Accepts(N, x, w)
  {
    var ys := xs + [x];
    if AnyAccepts(N, xs, w) {
      var i :| 0 <= i < |xs| && Accepts(N, xs[i], w);
      assert ys[i] == xs[i];
    }
    if Accepts(N, x, w) { assert ys[|xs|] == x; }
    if AnyAccepts(N, ys, w) {
      var i :| 0 <= i < |ys| && Accepts(N, ys[i], w);
      assert i < |xs| ==> xs[i] == ys[i];
    }
  }

  /** `ys` accepts what `xs` or the state `x` accepts. */
  ghost predicate Adds(N: Net, xs: seq<nat>, ys: seq<nat>, x: nat)
    requires RangesOk(N.ranges)
  {
    forall w: Word :: AnyAccepts(N, ys, w) <==> AnyAccepts(N, xs, w) || Accepts(N, x, w)
  }

  lemma AddsMember(N: Net, xs: seq<nat>, x: nat)
    requires RangesOk(N.ranges) && x in xs
    ensures Adds(N, xs, xs, x)
  {
    var i :| 0 <= i < |xs| && xs[i] == x;
    assert forall w: Word :: Accepts(N, x, w) ==> Accepts(N, xs[i], w);
  }

  lemma AddsPush(N: Net, xs: seq<nat>, x: nat)
    requires RangesOk(N.ranges)
    ensures Adds(N, xs, xs + [x], x)
  {
    forall w: Word { AnyAcceptsPush(N, xs, x, w); }
  }

  /** At a split state both successors are added. */
  lemma AddsSplit(N: Net, xs: seq<nat>, ys: seq<nat>, zs: seq<nat>, p: nat)
    requires RangesOk(N.ranges) && p < |N.states| && p !in N.exits
    requires N.states[p].out1 != INVALID && N.states[p].out != INVALID
    requires Adds(N, xs, ys, N.states[p].out) && Adds(N, ys, zs, N.states[p].out1)
    ensures Adds(N, xs, zs, p)
    ensures Accepts(N, p, []) <==> Accepts(N, N.states[p].out, []) || Accepts(N, N.states[p].out1, [])
  {
    AcceptsSplit(N, p, []);
    forall w: Word ensures AnyAccepts(N, zs, w) <==> AnyAccepts(N, xs, w) || Accepts(N, p, w) {
      AcceptsSplit(N, p, w);
    }
  }

  ghost predicate Distinct(xs: seq<nat>, n: nat) {
    (forall i :: 0 <= i < |xs| ==> xs[i] < n) && (forall i, j :: 0 <= i < j < |xs| ==> xs[i] != xs[j])
  }

  /** A list of distinct states fits the space reserved for one entry per state. */
  lemma {:induction false} DistinctFits(xs: seq<nat>, n: nat)
    requires Distinct(xs, n)
    ensures |xs| <= n
    decreases n
  {
    if |xs| > 0 {
      var last := xs[|xs| - 1];
      var ys := seq(|xs| - 1, i requires 0 <= i < |xs| - 1 => if xs[i] == n - 1 then last else xs[i]);
      DistinctFits(ys, n - 1);
    }
  }

  ghost predicate Marked(g: seq<State>, words: seq<bv32>, xs: seq<nat>) {
    |words| == (|g| + 31) / 32
    && Distinct(xs, |g|)
    && (forall i :: 0 <= i < |g| ==> (HasBit(words, i) <==> i in xs))
    && (forall i :: 0 <= i < |xs| ==> g[xs[i]].out1 == INVALID)
  }

  lemma MarkOne(g: seq<State>, words: seq<bv32>, xs: seq<nat>, x: nat)
    requires Marked(g, words, xs) && x < |g| && g[x].out1 == INVALID && !HasBit(words, x)
    ensures |xs| < |g| && x / 32 < |words|
    ensures Marked(g, WithBit(words, x), xs + [x])
  {
    var words' := WithBit(words, x);
    assert x !in xs;
    DistinctFits(xs + [x], |g|);
    forall i | 0 <= i < |g| ensures HasBit(words', i) <==> i in xs + [x] {
      SetBit(words, x, i);
    }
  }

  /** The list of states of one step, in space reserved for one entry per state. */
  class StateList {
    const items: array<nat>
    var count: nat

    constructor (capacity: nat)
      ensures fresh(items) && items.Length == capacity && count == 0
    {
      items := new nat[capacity];
      count := 0;
    }

    ghost predicate Valid()
      reads this
    {
      count <= items.Length
    }

    ghost function Contents(): seq<nat>
      requires Valid()
      reads this, items
    {
      items[..count]
    }

    method Clear()
      modifies this`count
      ensures count == 0
    {
      count := 0;
    }
  }

  // ---------------------------------------------------------------- what a search looks for

  /** The engine finds a part of a non-empty subject that is itself not empty, begins at the
      beginning if `b`, and ends at the end if `e`; in an empty subject, the empty string. */
  ghost predicate Found(r: Re, s: Word, b: bool, e: bool) {
    if s == [] then [] in Denote(r)
    else exists j: nat, k: nat :: FoundAt(r, s, b, e, j, k)
  }

  ghost predicate FoundAt(r: Re, s: Word, b: bool, e: bool, j: nat, k: nat) {
    j < k <= |s| && (b ==> j == 0) && (e ==> k == |s|) && s[j..k] in Denote(r)
  }

  /** Fully anchored, the search decides membership in the language. */
  lemma FoundAnchored(r: Re, s: Word)
    ensures Found(r, s, true, true) <==> s in Denote(r)
  {
    assert s[0..|s|] == s;
    if s != [] && s in Denote(r) { assert FoundAt(r, s, true, true, 0, |s|); }
  }

  /** What an unanchored search is usually taken to mean: some part, possibly empty, matches. */
  ghost predicate SomePartMatches(r: Re, s: Word, b: bool, e: bool) {
    exists j: nat, k: nat :: PartMatches(r, s, b, e, j, k)
  }

  ghost predicate PartMatches(r: Re, s: Word, b: bool, e: bool, j: nat, k: nat) {
    j <= k <= |s| && (b ==> j == 0) && (e ==> k == |s|) && s[j..k] in Denote(r)
  }

  ghost predicate SomeNonEmptyPart(r: Re, s: Word, b: bool, e: bool) {
    exists j: nat, k: nat :: j < k && PartMatches(r, s, b, e, j, k)
  }

  /** The engine agrees with that meaning exactly when the subject is empty, or the pattern
      does not match the empty string, or both ends are anchored, or some non-empty part is in
      the language. */
  lemma FoundVersusParts(r: Re, s: Word, b: bool, e: bool)
    ensures (Found(r, s, b, e) <==> SomePartMatches(r, s, b, e))
       <==> s == [] || [] !in Denote(r) || (b && e) || SomeNonEmptyPart(r, s, b, e)
  {
    if s == [] {
      assert s[0..0] == [];
      if [] in Denote(r) { assert PartMatches(r, s, b, e, 0, 0); }
    } else {
      if Found(r, s, b, e) {
        var j: nat, k: nat :| FoundAt(r, s, b, e, j, k);
        assert PartMatches(r, s, b, e, j, k);
      }
      if SomeNonEmptyPart(r, s, b, e) {
        var j: nat, k: nat :| j < k && PartMatches(r, s, b, e, j, k);
        assert FoundAt(r, s, b, e, j, k);
      }
      if SomePartMatches(r, s, b, e) && !Found(r, s, b, e) {
        var j: nat, k: nat :| PartMatches(r, s, b, e, j, k);
        assert FoundAt(r, s, b, e, j, k) <==> j < k;
        assert s[j..k] == [];
      }
      if [] in Denote(r) && !(b && e) {
        var j := if b then 0 else |s|;
        assert s[j..j] == [];
        assert PartMatches(r, s, b, e, j, j);
      }
    }
  }

  /** The pattern `a?` searched for in "b": the empty part matches, but is not found. */
  lemma EmptyPartMissed()
    ensures var r := Repeat(Atom(Literal(97)), 0, Upto(1));
      SomePartMatches(r, [98], false, false) && !Found(r, [98], false, false)
  {
    var a := Atom(Literal(97));
    var r := Repeat(a, 0, Upto(1));
    var s: Word := [98];
    assert s[0..0] in Power(Denote(a), 0);
    assert PartMatches(r, s, false, false, 0, 0);
    forall j: nat, k: nat | j < k <= |s| ensures s[j..k] !in Denote(r) {
      assert s[j..k] == s;
      assert s !in Power(Denote(a), 0);
      OneOfA(s);
      assert Power(Denote(a), 1) == Conc(Denote(a), Power(Denote(a), 0));
    }
  }

  lemma OneOfA(s: Word)
    requires s == [98]
    ensures s !in Conc(Denote(Atom(Literal(97))), iset{[]})
  {
    assert s[..1] == s;
  }

  /** Some non-empty part that ends at `k` matches; for `k` zero, the empty string does. */
  ghost predicate EndsAt(r: Re, s: Word, b: bool, k: nat)
    requires k <= |s|
  {
    if k == 0 then [] in Denote(r)
    else exists j: nat :: j < k && (b ==> j == 0) && s[j..k] in Denote(r)
  }

  lemma FoundByEnds(r: Re, s: Word, b: bool, e: bool)
    ensures s == [] || e ==> (Found(r, s, b, e) <==> EndsAt(r, s, b, |s|))
    ensures s != [] && !e ==> (Found(r, s, b, e) <==> exists k: nat :: 0 < k <= |s| && EndsAt(r, s, b, k))
  {
    if s != [] {
      if Found(r, s, b, e) {
        var j: nat, k: nat :| FoundAt(r, s, b, e, j, k);
        assert EndsAt(r, s, b, k);
      }
      if e && EndsAt(r, s, b, |s|) {
        var j: nat :| j < |s| && (b ==> j == 0) && s[j..|s|] in Denote(r);
        assert FoundAt(r, s, b, e, j, |s|);
      }
      if !e && exists k: nat :: 0 < k <= |s| && EndsAt(r, s, b, k) {
        var k: nat :| 0 < k <= |s| && EndsAt(r, s, b, k);
        var j: nat :| j < k && (b ==> j == 0) && s[j..k] in Denote(r);
        assert FoundAt(r, s, b, e, j, k);
      }
    }
  }

  /** From the root, the part of `s` between `j` and `i` followed by `w` is accepted. */
  ghost predicate Begun(N: Net, root: nat, s: Word, b: bool, i: nat, j: nat, w: Word)
    requires RangesOk(N.ranges)
  {
    j <= i <= |s| && (b ==> j == 0) && Accepts(N, root, s[j..i] + w)
  }

  /** The states `xs` are those reached after the first `i` characters of `s`. */
  ghost predicate Live(N: Net, root: nat, s: Word, b: bool, i: nat, xs: seq<nat>)
    requires RangesOk(N.ranges)
  {
    forall w: Word :: AnyAccepts(N, xs, w) <==> exists j: nat :: Begun(N, root, s, b, i, j, w)
  }

  lemma LiveStart(N: Net, root: nat, s: Word, b: bool, xs: seq<nat>)
    requires RangesOk(N.ranges) && Adds(N, [], xs, root)
    ensures Live(N, root, s, b, 0, xs)
  {
    forall w: Word ensures AnyAccepts(N, xs, w) <==> exists j: nat :: Begun(N, root, s, b, 0, j, w) {
      assert s[0..0] + w == w;
      if Accepts(N, root, w) { assert Begun(N, root, s, b, 0, 0, w); }
      assert AnyAccepts(N, xs, w) <==> AnyAccepts(N, [], w) || Accepts(N, root, w);
    }
  }

  /** What one character makes of a set of states. */
  ghost predicate Advanced(N: Net, root: nat, b: bool, c: Code, xs: seq<nat>, ys: seq<nat>)
    requires RangesOk(N.ranges)
  {
    forall w: Word :: AnyAccepts(N, ys, w) <==> AnyAccepts(N, xs, [c] + w) || (!b && xs != [] && Accepts(N, root, w))
  }

  lemma AdvanceOne(N: Net, root: nat, b: bool, c: Code, xs: seq<nat>, q: nat, out: nat, hit: bool,
                   ys0: seq<nat>, ys1: seq<nat>, ys2: seq<nat>)
    requires RangesOk(N.ranges) && Advanced(N, root, b, c, xs, ys0)
    requires forall w: Word :: Accepts(N, q, [c] + w) <==> hit && Accepts(N, out, w)
    requires if hit then Adds(N, ys0, ys1, out) else ys1 == ys0
    requires if b then ys2 == ys1 else Adds(N, ys1, ys2, root)
    ensures Advanced(N, root, b, c, xs + [q], ys2)
  {
    forall w: Word ensures AnyAccepts(N, ys2, w) <==> AnyAccepts(N, xs + [q], [c] + w) || (!b && Accepts(N, root, w)) {
      AnyAcceptsPush(N, xs, q, [c] + w);
    }
  }

  lemma AdvanceMatch(N: Net, xs: seq<nat>, q: nat, c: Code, out: nat, hit: bool)
    requires RangesOk(N.ranges)
    requires forall w: Word :: Accepts(N, q, [c] + w) <==> hit && Accepts(N, out, w)
    ensures AnyAccepts(N, xs + [q], [c]) <==> AnyAccepts(N, xs, [c]) || (hit && Accepts(N, out, []))
  {
    AnyAcceptsPush(N, xs, q, [c]);
    assert [c] + [] == [c];
    assert Accepts(N, q, [c] + []) <==> hit && Accepts(N, out, []);
  }

  lemma AdvanceNone(N: Net, root: nat, b: bool, c: Code)
    requires RangesOk(N.ranges)
    ensures Advanced(N, root, b, c, [], []) && !AnyAccepts(N, [], [c])
  {
  }

  lemma AnyAcceptsPrefix(N: Net, xs: seq<nat>, n: nat, w: Word)
    requires RangesOk(N.ranges) && n <= |xs| && AnyAccepts(N, xs[..n], w)
    ensures AnyAccepts(N, xs, w)
  {
    var i :| 0 <= i < n && Accepts(N, xs[..n][i], w);
    assert xs[i] == xs[..n][i];
  }

  lemma LiveStep(N: Net, root: nat, s: Word, b: bool, i: nat, xs: seq<nat>, ys: seq<nat>)
    requires RangesOk(N.ranges) && i < |s| && xs != []
    requires Live(N, root, s, b, i, xs) && Advanced(N, root, b, s[i], xs, ys)
    ensures Live(N, root, s, b, i + 1, ys)
  {
    var k := i + 1;
    forall w: Word ensures AnyAccepts(N, ys, w) <==> exists j: nat :: Begun(N, root, s, b, k, j, w) {
      var cw := [s[i]] + w;
      assert AnyAccepts(N, ys, w) <==> AnyAccepts(N, xs, cw) || (!b && Accepts(N, root, w));
      assert AnyAccepts(N, xs, cw) <==> exists j: nat :: Begun(N, root, s, b, i, j, cw);
      forall j: nat | j <= i ensures Begun(N, root, s, b, i, j, cw) <==> Begun(N, root, s, b, k, j, w) {
        assert s[j..i] + cw == s[j..k] + w;
      }
      assert s[k..k] + w == w;
      assert Begun(N, root, s, b, k, k, w) <==> !b && Accepts(N, root, w);
      if j: nat :| Begun(N, root, s, b, k, j, w) {
        assert j <= i ==> Begun(N, root, s, b, i, j, cw);
      }
    }
  }

  /** The parts that end at the next character, from the states before it. */
  lemma LiveEnds(N: Net, r: Re, root: nat, s: Word, b: bool, i: nat, xs: seq<nat>)
    requires RangesOk(N.ranges) && i < |s| && Live(N, root, s, b, i, xs) && Recognises(N, root, r)
    ensures AnyAccepts(N, xs, [s[i]]) <==> EndsAt(r, s, b, i + 1)
  {
    var k, c := i + 1, [s[i]];
    forall j: nat | j <= i && (b ==> j == 0) ensures Begun(N, root, s, b, i, j, c) <==> s[j..k] in Denote(r) {
      assert s[j..i] + c == s[j..k];
    }
    assert AnyAccepts(N, xs, c) <==> exists j: nat :: Begun(N, root, s, b, i, j, c);
    if AnyAccepts(N, xs, c) {
      var j: nat :| Begun(N, root, s, b, i, j, c);
      assert s[j..k] in Denote(r);
    }
    if EndsAt(r, s, b, k) {
      var j: nat :| j < k && (b ==> j == 0) && s[j..k] in Denote(r);
      assert Begun(N, root, s, b, i, j, c);
    }
  }

  /** Once no state is left, no later part matches. */
  lemma LiveDead(N: Net, r: Re, root: nat, s: Word, b: bool, i: nat, k: nat)
    requires RangesOk(N.ranges) && i <= k <= |s| && Live(N, root, s, b, i, []) && Recognises(N, root, r)
    ensures !EndsAt(r, s, b, k)
  {
    forall w: Word, j: nat ensures !Begun(N, root, s, b, i, j, w) {
      assert !AnyAccepts(N, [], w);
    }
    forall j: nat | j <= k && (b ==> j == 0) ensures s[j..k] !in Denote(r) {
      var w := if j <= i then s[i..k] else s[j..k];
      var from := if j <= i then j else i;
      assert !Begun(N, root, s, b, i, from, w);
      assert s[j..k] == s[from..i] + w;
    }
    assert s[0..0] == [];
  }

  // ---------------------------------------------------------------- the simulation

  class RegexSearcher {
    const states: seq<State>
    const ranges: seq<Range>
    const root: nat
    const anchorBegin: bool
    const anchorEnd: bool
    ghost const re: Re
    const stateSet: array<bv32>
    const state0: StateList
    const state1: StateList

    ghost predicate Valid()
      reads this, state0, state1
    {
      Finished(states, ranges, root, re) && LoopsOk(re)
      && stateSet.Length == (|states| + 31) / 32
      && stateSet as object != state0.items && stateSet as object != state1.items
      && state0 != state1 && state0.items != state1.items
      && state0.items.Length == |states| == state1.items.Length
      && state0.Valid() && state1.Valid()
    }

    /** Reserves room for the sets of states of a compiled pattern. */
    constructor (regex: Regex, ghost re: Re)
      requires Finished(regex.states, regex.ranges, regex.root, re) && LoopsOk(re)
      ensures Valid() && this.re == re && anchorBegin == regex.anchorBegin && anchorEnd == regex.anchorEnd
      ensures fresh(stateSet) && fresh(state0) && fresh(state1) && fresh(state0.items) && fresh(state1.items)
    {
      states, ranges, root := regex.states, regex.ranges, regex.root;
      anchorBegin, anchorEnd := regex.anchorBegin, regex.anchorEnd;
      this.re := re;
      stateSet := new bv32[(|regex.states| + 31) / 32];
      state0 := new StateList(|regex.states|);
      state1 := new StateList(|regex.states|);
    }

    ghost function Automaton(): Net {
      Net(states, ranges, {})
    }

    lemma Parts()
      requires Finished(states, ranges, root, re)
      ensures RangesOk(ranges) && root < |states|
    {
    }

    /** The list holds distinct states that read characters or match, exactly those whose
        bit is set. */
    ghost predicate Holds(l: StateList)
      reads this, l, l.items, stateSet
    {
      l.Valid() && Marked(states, stateSet[..], l.Contents())
    }

    method ClearSet()
      modifies stateSet
      ensures forall i :: 0 <= i < stateSet.Length ==> stateSet[i] == 0
    {
      for i := 0 to stateSet.Length
        invariant forall j :: 0 <= j < i ==> stateSet[j] == 0
      {
        stateSet[i] := 0;
      }
    }

    /** Adds the states reachable from `index` without reading a character, and says whether
        the matching state is among them. */
    method AddState(l: StateList, index: nat, ghost steps: nat) returns (matched: bool)
      requires Valid() && Holds(l) && index < |states| && Shallow(Automaton(), index, steps)
      requires (l == state0 || l == state1)
      modifies l`count, l.items, stateSet
      ensures Holds(l)
      ensures Adds(Automaton(), old(l.Contents()), l.Contents(), index)
      ensures matched <==> Accepts(Automaton(), index, [])
      decreases steps
    {
      assert RangesOk(ranges);
      hide Accepts, Finished, LoopsOk, Bit, Adds;
      var s := states[index];
      ghost var xs := l.Contents();
      StateShape(index);
      if s.out1 != INVALID {
        matched := AddState(l, s.out, steps - 1);
        ghost var ys := l.Contents();
        var other := AddState(l, s.out1, steps - 1);
        AddsSplit(Automaton(), xs, ys, l.Contents(), index);
        matched := matched || other;
        return;
      }
      if stateSet[index / 32] & Bit(index % 32) == 0 {
        Insert(l, index);
      } else {
        assert HasBit(stateSet[..], index);
        AddsMember(Automaton(), xs, index);
      }
      matched := s.out == INVALID;
      ReaderEmpty(index);
    }

    /** Every state of a pattern without empty loops settles. */
    method AddFrom(l: StateList, index: nat) returns (matched: bool)
      requires Valid() && Holds(l) && index < |states| && (l == state0 || l == state1)
      modifies l`count, l.items, stateSet
      ensures Holds(l) && Adds(Automaton(), old(l.Contents()), l.Contents(), index)
      ensures matched <==> Accepts(Automaton(), index, [])
    {
      assert Settles(Automaton(), index);
      ghost var steps: nat :| Shallow(Automaton(), index, steps);
      hide Finished, LoopsOk, Holds, Shallow, Accepts, Adds;
      matched := AddState(l, index, steps);
    }

    /** The automaton's states, seen one at a time. */
    lemma StateShape(p: nat)
      requires Finished(states, ranges, root, re) && p < |states|
      ensures var st := states[p];
        (st.out1 != INVALID ==> st.out != INVALID && st.out < |states| && st.out1 < |states|)
        && (st.out != INVALID ==> st.out < |states|)
        && (st.out == INVALID ==> st == MATCH)
        && (st.codepoint == RANGE_CLASS ==> st.rangeStart < |ranges|)
    {
      if p < |states| - 1 { assert Local(states[p], false, 0, |states|, |ranges|); }
    }

    /** A state that reads or matches accepts the empty string only if it matches. */
    lemma ReaderEmpty(p: nat)
      requires Finished(states, ranges, root, re) && p < |states| && states[p].out1 == INVALID
      ensures Accepts(Automaton(), p, []) <==> states[p].out == INVALID
    {
      if states[p].out == INVALID {
        AcceptsMatching(Automaton(), p, []);
      } else {
        AcceptsChar(Automaton(), p, []);
      }
    }

    /** Appends a state that is not yet in the set. */
    method Insert(l: StateList, index: nat)
      requires Valid() && Holds(l) && index < |states| && states[index].out1 == INVALID
      requires (l == state0 || l == state1) && !HasBit(stateSet[..], index)
      modifies l`count, l.items, stateSet
      ensures Holds(l) && l.Contents() == old(l.Contents()) + [index]
      ensures Adds(Automaton(), old(l.Contents()), l.Contents(), index)
    {
      assert RangesOk(ranges);
      ghost var xs, words := l.Contents(), stateSet[..];
      AddsPush(Automaton(), xs, index);
      MarkOne(states, words, xs, index);
      hide Accepts, Finished, LoopsOk, Adds, HasBit, Marked, WithBit;
      Mark(index);
      l.items[l.count] := index;
      l.count := l.count + 1;
      assert l.Contents() == xs + [index];
    }

    method Mark(index: nat)
      requires index / 32 < stateSet.Length
      modifies stateSet
      ensures stateSet[..] == WithBit(old(stateSet[..]), index)
    {
      stateSet[index / 32] := stateSet[index / 32] | Bit(index % 32);
    }

    method MatchRange(rangeIndex: nat, codepoint: Code) returns (r: bool)
      requires RangesOk(ranges) && rangeIndex < |ranges|
      ensures r <==> ClassMatches(ranges, rangeIndex, codepoint)
    {
      var yes := ranges[rangeIndex].start / NEGATION % 2 == 0;
      var i := rangeIndex;
      while i != INVALID
        invariant i == INVALID || i < |ranges|
        invariant RangeHit(ranges, rangeIndex, codepoint) <==> RangeHit(ranges, i, codepoint)
        decreases if i == INVALID then 0 else |ranges| - i
      {
        if ranges[i].start % NEGATION <= codepoint <= ranges[i].end { return yes; }
        i := ranges[i].next;
      }
      return !yes;
    }

    /** The two lists take turns. */
    ghost predicate Pair(current: StateList, next: StateList) {
      (current == state0 && next == state1) || (current == state1 && next == state0)
    }

    ghost predicate Readers(xs: seq<nat>) {
      forall i :: 0 <= i < |xs| ==> xs[i] < |states| && states[xs[i]].out1 == INVALID
    }

    /** What a reading state contributes to the next set. */
    lemma ReaderStep(p: nat, c: Code)
      requires Finished(states, ranges, root, re) && p < |states| && states[p].out1 == INVALID
      ensures states[p].codepoint == RANGE_CLASS ==> states[p].rangeStart < |ranges|
      ensures StateMatches(states[p], ranges, c) ==> states[p].out < |states|
      ensures forall w: Word :: Accepts(Automaton(), p, [c] + w) <==> StateMatches(states[p], ranges, c) && Accepts(Automaton(), states[p].out, w)
    {
      StateShape(p);
      forall w: Word ensures Accepts(Automaton(), p, [c] + w) <==> StateMatches(states[p], ranges, c) && Accepts(Automaton(), states[p].out, w) {
        assert ([c] + w)[1..] == w;
        if states[p].out == INVALID {
          AcceptsMatching(Automaton(), p, [c] + w);
        } else {
          AcceptsChar(Automaton(), p, [c] + w);
        }
      }
    }

    /** One state and one character: what they add to the next set. */
    method AdvanceState(q: nat, next: StateList, codepoint: Code, anchorBegin: bool, anchorEnd: bool, matched: bool, ghost xs: seq<nat>)
      returns (found: bool, matched': bool)
      requires Valid() && (next == state0 || next == state1) && Holds(next) && q < |states| && states[q].out1 == INVALID
      requires Advanced(Automaton(), root, anchorBegin, codepoint, xs, next.Contents())
      requires (matched <==> AnyAccepts(Automaton(), xs, [codepoint])) && (!anchorEnd ==> !matched)
      modifies next`count, next.items, stateSet
      ensures Valid() && Holds(next) && (matched' <==> AnyAccepts(Automaton(), xs + [q], [codepoint]))
      ensures found <==> matched' && !anchorEnd
      ensures !found ==> Advanced(Automaton(), root, anchorBegin, codepoint, xs + [q], next.Contents())
    {
      assert RangesOk(ranges) && root < |states|;
      hide Finished, LoopsOk, Marked, Advanced, Adds, Accepts, AnyAccepts;
      found, matched' := false, matched;
      var st := states[q];
      ReaderStep(q, codepoint);
      ghost var ys0 := next.Contents();
      var hit := st.codepoint == codepoint || st.codepoint == ANY_CLASS;
      if !hit && st.codepoint == RANGE_CLASS { hit := MatchRange(st.rangeStart, codepoint); }
      if hit {
        var m := AddFrom(next, st.out);
        matched' := m || matched;
        found := !anchorEnd && matched';
      }
      ghost var ys1 := next.Contents();
      AdvanceMatch(Automaton(), xs, q, codepoint, st.out, hit);
      if !found {
        if !anchorBegin { var m := AddFrom(next, root); }
        AdvanceOne(Automaton(), root, anchorBegin, codepoint, xs, q, st.out, hit, ys0, ys1, next.Contents());
      }
    }

    /** The `i`th state of the current set and one character. */
    method AdvanceAt(current: StateList, i: nat, next: StateList, codepoint: Code, anchorBegin: bool, anchorEnd: bool, matched: bool, ghost xs: seq<nat>)
      returns (found: bool, matched': bool)
      requires Valid() && Pair(current, next) && Holds(next)
      requires current.Contents() == xs && Readers(xs) && i < |xs|
      requires Advanced(Automaton(), root, anchorBegin, codepoint, xs[..i], next.Contents())
      requires (matched <==> AnyAccepts(Automaton(), xs[..i], [codepoint])) && (!anchorEnd ==> !matched)
      modifies next`count, next.items, stateSet
      ensures Valid() && Holds(next)
      ensures matched' <==> AnyAccepts(Automaton(), xs[..i + 1], [codepoint])
      ensures found <==> matched' && !anchorEnd
      ensures found ==> AnyAccepts(Automaton(), xs, [codepoint])
      ensures !found ==> Advanced(Automaton(), root, anchorBegin, codepoint, xs[..i + 1], next.Contents())
    {
      assert RangesOk(ranges);
      assert current.items[i] == xs[i] < |states| && states[xs[i]].out1 == INVALID;
      assert xs[..i] + [xs[i]] == xs[..i + 1];
      hide Finished, LoopsOk, Holds, Advanced, AnyAccepts, Readers;
      found, matched' := AdvanceState(current.items[i], next, codepoint, anchorBegin, anchorEnd, matched, xs[..i]);
      if found { AnyAcceptsPrefix(Automaton(), xs, i + 1, [codepoint]); }
    }

    /** One character: the states that read it lead to the next set. `found` reports a match
        that ends the search early. */
    method Advance(current: StateList, next: StateList, codepoint: Code, anchorBegin: bool, anchorEnd: bool)
      returns (found: bool, matched: bool)
      requires Valid() && Pair(current, next) && current.Valid() && Readers(current.Contents())
      requires Holds(next) && next.Contents() == []
      modifies next`count, next.items, stateSet
      ensures Valid() && Holds(next)
      ensures !found ==> (matched <==> AnyAccepts(Automaton(), old(current.Contents()), [codepoint]))
      ensures found ==> !anchorEnd && AnyAccepts(Automaton(), old(current.Contents()), [codepoint])
      ensures !found ==> Advanced(Automaton(), root, anchorBegin, codepoint, old(current.Contents()), next.Contents())
      ensures !found && !anchorEnd ==> !matched
    {
      hide Finished, LoopsOk, Holds, Marked, Advanced, AnyAccepts, Accepts, Adds, Readers, RangesOk;
      Parts();
      ghost var xs := current.Contents();
      found, matched := false, false;
      AdvanceNone(Automaton(), root, anchorBegin, codepoint);
      assert xs[..0] == [];
      var i := 0;
      while i < current.count
        invariant i <= current.count && current.Contents() == xs && Holds(next) && Valid()
        invariant Advanced(Automaton(), root, anchorBegin, codepoint, xs[..i], next.Contents())
        invariant matched <==> AnyAccepts(Automaton(), xs[..i], [codepoint])
        invariant !anchorEnd ==> !matched
      {
        found, matched := AdvanceAt(current, i, next, codepoint, anchorBegin, anchorEnd, matched, xs);
        if found { return; }
        i := i + 1;
      }
      assert xs[..i] == xs;
    }

    /** Where a search stands after `i` characters: its states, whether a part has just
        ended, and, if any end will do, that none has ended before. */
    ghost predicate Running(s: Word, b: bool, e: bool, i: nat, xs: seq<nat>, matched: bool)
      requires RangesOk(ranges)
    {
      i <= |s| && Live(Automaton(), root, s, b, i, xs)
      && (matched <==> EndsAt(re, s, b, i))
      && (!e ==> forall k: nat :: 0 < k <= i ==> !EndsAt(re, s, b, k))
    }

    lemma RunningStep(s: Word, b: bool, e: bool, i: nat, xs: seq<nat>, ys: seq<nat>, before: bool, matched: bool)
      requires Finished(states, ranges, root, re) && Running(s, b, e, i, xs, before) && i < |s| && xs != []
      requires Advanced(Automaton(), root, b, s[i], xs, ys)
      requires (matched <==> AnyAccepts(Automaton(), xs, [s[i]])) && (!e ==> !matched)
      ensures Running(s, b, e, i + 1, ys, matched)
    {
      hide EndsAt, Accepts, AnyAccepts, Advanced, Live;
      LiveEnds(Automaton(), re, root, s, b, i, xs);
      LiveStep(Automaton(), root, s, b, i, xs, ys);
    }

    lemma RunningFound(s: Word, b: bool, e: bool, i: nat, xs: seq<nat>, before: bool)
      requires Finished(states, ranges, root, re) && Running(s, b, e, i, xs, before) && i < |s| && !e
      requires AnyAccepts(Automaton(), xs, [s[i]])
      ensures Found(re, s, b, e)
    {
      hide EndsAt, Accepts, AnyAccepts, Live;
      LiveEnds(Automaton(), re, root, s, b, i, xs);
      FoundByEnds(re, s, b, e);
    }

    lemma RunningEnd(s: Word, b: bool, e: bool, i: nat, xs: seq<nat>, matched: bool)
      requires Finished(states, ranges, root, re) && Running(s, b, e, i, xs, matched) && (i == |s| || xs == [])
      ensures matched <==> Found(re, s, b, e)
    {
      hide EndsAt, Live, Found;
      FoundByEnds(re, s, b, e);
      if xs == [] {
        forall k: nat | i <= k <= |s| ensures !EndsAt(re, s, b, k) {
          LiveDead(Automaton(), re, root, s, b, i, k);
        }
      }
    }

    /** Reads one character. */
    method TakeOne(ds: CodeStream, current: StateList, next: StateList, anchorBegin: bool, anchorEnd: bool, ghost before: bool)
      returns (found: bool, matched: bool)
      requires Valid() && ds.Valid() && ds.pos < |ds.source| && Pair(current, next)
      requires current.count != 0 && Readers(current.Contents())
      requires Running(ds.source, anchorBegin, anchorEnd, ds.pos, current.Contents(), before)
      modifies next`count, next.items, stateSet, ds
      ensures Valid() && ds.Valid() && ds.pos == old(ds.pos) + 1
      ensures found ==> Found(re, ds.source, anchorBegin, anchorEnd)
      ensures Readers(next.Contents())
      ensures !found ==> Running(ds.source, anchorBegin, anchorEnd, ds.pos, next.Contents(), matched)
    {
      hide Finished, LoopsOk, Marked, Running, Accepts, AnyAccepts, Advanced, Found, Readers, RangesOk;
      Parts();
      ghost var i, xs := ds.pos, current.Contents();
      var codepoint := ds.Take();
      Empty(next);
      found, matched := Advance(current, next, codepoint, anchorBegin, anchorEnd);
      AreReaders(stateSet[..], next.Contents());
      if found {
        RunningFound(ds.source, anchorBegin, anchorEnd, i, xs, before);
      } else {
        RunningStep(ds.source, anchorBegin, anchorEnd, i, xs, next.Contents(), before, matched);
      }
    }

    /** Decides whether the pattern is found in the subject, anchored as asked. */
    method SearchWithAnchoring(ds: CodeStream, anchorBegin: bool, anchorEnd: bool) returns (r: bool)
      requires Valid() && ds.Valid() && ds.pos == 0
      modifies state0`count, state0.items, state1`count, state1.items, stateSet, ds
      ensures Valid() && (r <==> Found(re, ds.source, anchorBegin, anchorEnd))
    {
      hide Finished, LoopsOk, Marked, Running, Accepts, AnyAccepts, Adds, Found, RangesOk, Readers;
      Parts();
      var current, next := state0, state1;
      Empty(current);
      r := AddFrom(current, root);
      Started(ds.source, anchorBegin, anchorEnd, current.Contents(), r);
      AreReaders(stateSet[..], current.Contents());
      while current.count != 0 && ds.Peek() != 0
        invariant Valid() && ds.Valid() && Pair(current, next) && Readers(current.Contents())
        invariant Running(ds.source, anchorBegin, anchorEnd, ds.pos, current.Contents(), r)
        decreases |ds.source| - ds.pos
      {
        var found;
        found, r := TakeOne(ds, current, next, anchorBegin, anchorEnd, r);
        if found { return true; }
        current, next := next, current;
      }
      RunningEnd(ds.source, anchorBegin, anchorEnd, ds.pos, current.Contents(), r);
    }

    method Match(subject: seq<Code>) returns (r: bool)
      requires Valid()
      modifies state0`count, state0.items, state1`count, state1.items, stateSet
      ensures r <==> subject in Denote(re)
    {
      var ds := new CodeStream(subject);
      r := SearchWithAnchoring(ds, true, true);
      FoundAnchored(re, subject);
    }

    /** Searches with the anchors of the pattern. */
    method Search(subject: seq<Code>) returns (r: bool)
      requires Valid()
      modifies state0`count, state0.items, state1`count, state1.items, stateSet
      ensures r <==> Found(re, subject, anchorBegin, anchorEnd)
    {
      hide Found;
      var ds := new CodeStream(subject);
      r := SearchWithAnchoring(ds, anchorBegin, anchorEnd);
    }

    /** Empties a list and the bit set. */
    method Empty(l: StateList)
      requires Valid() && (l == state0 || l == state1)
      modifies l`count, stateSet
      ensures Valid() && Holds(l) && l.Contents() == []
    {
      ClearSet();
      l.Clear();
      forall i | 0 <= i < |states| ensures !HasBit(stateSet[..], i) { }
    }

    lemma Started(s: Word, b: bool, e: bool, xs: seq<nat>, matched: bool)
      requires Finished(states, ranges, root, re) && Adds(Automaton(), [], xs, root)
      requires matched <==> Accepts(Automaton(), root, [])
      ensures Running(s, b, e, 0, xs, matched)
    {
      LiveStart(Automaton(), root, s, b, xs);
    }

    lemma AreReaders(words: seq<bv32>, xs: seq<nat>)
      requires Marked(states, words, xs)
      ensures Readers(xs)
    {
    }
  }
}
