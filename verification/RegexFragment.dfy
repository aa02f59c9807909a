/** Fragments of the automaton under construction: what the compiler keeps true of each
    operand, and how every construction step carries it to the next operand. */
module RegexFragment {
  import opened RegexSyntax
  import opened RegexNfa

  /** An operand: its entry state, the head of its list of dangling edges, its first state. */
  datatype Frag = Frag(start: nat, out: nat, minIndex: nat)

  /** The pattern an operand stands for, and its list of dangling edges in order. */
  datatype Part = Part(re: Re, outs: seq<nat>)

  function Exits(outs: seq<nat>): set<nat> {
    set o | o in outs
  }

  /** `outs` is the acyclic list threaded through the `out` fields from `l` on. */
  ghost predicate OutList(g: seq<State>, l: nat, outs: seq<nat>) {
    |outs| > 0 && outs[0] == l
    && (forall i :: 0 <= i < |outs| ==> outs[i] < |g|)
    && (forall i, j :: 0 <= i < j < |outs| ==> outs[i] != outs[j])
    && (forall i, j :: 0 <= i < j < |outs| && j == i + 1 ==> g[outs[i]].out == outs[j])
    && g[outs[|outs| - 1]].out == INVALID
  }

  /** The fragment `f` owns the states `[f.minIndex, hi)`; `outs` lists its dangling edges. */
  ghost predicate Shaped(g: seq<State>, rs: seq<Range>, f: Frag, hi: nat, outs: seq<nat>) {
    && RangesOk(rs) && |g| < INVALID
    && f.minIndex <= f.start < hi <= |g|
    && OutList(g, f.out, outs)
    && (forall i :: 0 <= i < |outs| ==> f.minIndex <= outs[i] < hi)
    && Closed(Net(g, rs, Exits(outs)), f.minIndex, hi)
  }

  /** The strings read from state `p` on are those of the pattern `r`. */
  ghost predicate Recognises(N: Net, p: nat, r: Re)
    requires RangesOk(N.ranges)
  {
    forall w: Word :: Accepts(N, p, w) <==> w in Denote(r)
  }

  lemma RecognisesLanguage(N: Net, p: nat, r: Re)
    requires RangesOk(N.ranges)
    ensures Recognises(N, p, r) <==> Language(N, p) == Denote(r)
  {
    if Language(N, p) == Denote(r) {
      forall w: Word ensures Accepts(N, p, w) <==> w in Denote(r) {
        assert w in Language(N, p) <==> Accepts(N, p, w);
      }
    }
  }

  /** The fragment `f` recognises exactly the language of `part.re`. */
  ghost predicate FragOk(g: seq<State>, rs: seq<Range>, f: Frag, hi: nat, part: Part) {
    var N := Net(g, rs, Exits(part.outs));
    && Shaped(g, rs, f, hi, part.outs)
    && hi - f.minIndex == Size(part.re)
    && Recognises(N, f.start, part.re)
    && (LoopsOk(part.re) <==> AllSettle(N, f.minIndex, hi))
  }

  function PatchStates(g: seq<State>, outs: seq<nat>, q: nat): (g': seq<State>)
    ensures |g'| == |g|
    ensures forall i :: 0 <= i < |g| ==> g'[i] == if i in outs then g[i].(out := q) else g[i]
  {
    seq(|g|, i requires 0 <= i < |g| => if i in outs then g[i].(out := q) else g[i])
  }

  lemma LanguageCopied(N: Net, N': Net, lo: nat, hi: nat, k: nat, p: nat)
    requires Closed(N, lo, hi) && Copied(N, N', lo, hi, k) && lo <= p < hi
    ensures Language(N, p) == Language(N', p + k)
  {
    forall w ensures w in Language(N, p) <==> w in Language(N', p + k) {
      AcceptsCopied(N, N', lo, hi, k, p, w);
    }
  }

  // ---------------------------------------------------------------- framing

  /** Nothing a fragment depends on has changed. */
  ghost predicate SameStates(g: seq<State>, rs: seq<Range>, g': seq<State>, rs': seq<Range>, lo: nat, hi: nat) {
    RangesOk(rs) && RangesOk(rs') && rs <= rs'
    && hi <= |g| < INVALID && hi <= |g'| < INVALID
    && forall i :: lo <= i < hi ==> g'[i] == g[i]
  }

  lemma FragFrame(g: seq<State>, rs: seq<Range>, g': seq<State>, rs': seq<Range>, f: Frag, hi: nat, part: Part)
    requires FragOk(g, rs, f, hi, part) && SameStates(g, rs, g', rs', f.minIndex, hi)
    ensures FragOk(g', rs', f, hi, part)
  {
    var N, N' := Net(g, rs, Exits(part.outs)), Net(g', rs', Exits(part.outs));
    forall p | f.minIndex <= p < hi
      ensures CopiedState(N, N', p, 0) && Local(g'[p], p in N'.exits, f.minIndex, hi, |rs'|)
    {
      assert Local(g[p], p in N.exits, f.minIndex, hi, |rs|);
    }
    CopyRecognises(N, N', f.minIndex, hi, 0, f.start, part.re);
    SettlesCopied(N, N', f.minIndex, hi, 0);
  }

  lemma CopyRecognises(N: Net, N': Net, lo: nat, hi: nat, k: nat, p: nat, r: Re)
    requires Closed(N, lo, hi) && Copied(N, N', lo, hi, k) && lo <= p < hi && Recognises(N, p, r)
    ensures Recognises(N', p + k, r)
  {
    forall w: Word { AcceptsCopied(N, N', lo, hi, k, p, w); }
  }

  // ---------------------------------------------------------------- atoms

  /** A single character state. */
  lemma AtomFrag(g: seq<State>, rs: seq<Range>, st: State, sym: Sym)
    requires RangesOk(rs) && |g| + 1 < INVALID
    requires st.out == INVALID && st.out1 == INVALID
    requires st.codepoint == RANGE_CLASS ==> st.rangeStart < |rs|
    requires forall c: Code :: StateMatches(st, rs, c) <==> SymMatches(sym, c)
    ensures FragOk(g + [st], rs, Frag(|g|, |g|, |g|), |g| + 1, Part(Atom(sym), [|g|]))
  {
    var N := Net(g + [st], rs, Exits([|g|]));
    assert Shallow(N, |g|, 1);
    forall s: Word ensures Accepts(N, |g|, s) <==> s in Denote(Atom(sym)) {
      AcceptsChar(N, |g|, s);
    }
  }

  // ---------------------------------------------------------------- concatenation

  lemma CatShape(g: seq<State>, rs: seq<Range>, f1: Frag, outs1: seq<nat>, f2: Frag, outs2: seq<nat>, hi: nat)
    requires Shaped(g, rs, f1, f2.minIndex, outs1) && Shaped(g, rs, f2, hi, outs2)
    ensures Shaped(PatchStates(g, outs1, f2.start), rs, Frag(f1.start, f2.out, f1.minIndex), hi, outs2)
  {
    var g' := PatchStates(g, outs1, f2.start);
    assert OutList(g', f2.out, outs2);
    forall i | f1.minIndex <= i < hi ensures Local(g'[i], i in Exits(outs2), f1.minIndex, hi, |rs|) {
      if i < f2.minIndex {
        assert Local(g[i], i in Exits(outs1), f1.minIndex, f2.minIndex, |rs|);
      } else {
        assert Local(g[i], i in Exits(outs2), f2.minIndex, hi, |rs|);
      }
    }
  }

  lemma CatPatched(g: seq<State>, rs: seq<Range>, f1: Frag, outs1: seq<nat>, f2: Frag, outs2: seq<nat>, hi: nat)
    requires Shaped(g, rs, f1, f2.minIndex, outs1) && Shaped(g, rs, f2, hi, outs2)
    ensures
      var N' := Net(PatchStates(g, outs1, f2.start), rs, Exits(outs2));
      Patched(Net(g, rs, Exits(outs1)), N', f1.minIndex, f2.minIndex, f2.start)
      && Copied(Net(g, rs, Exits(outs2)), N', f2.minIndex, hi, 0)
  {
    var N2 := Net(g, rs, Exits(outs2));
    var N' := Net(PatchStates(g, outs1, f2.start), rs, Exits(outs2));
    forall p | f2.minIndex <= p < hi ensures CopiedState(N2, N', p, 0) { }
  }

  lemma CatFrag(g: seq<State>, rs: seq<Range>, f1: Frag, p1: Part, f2: Frag, p2: Part, hi: nat)
    requires FragOk(g, rs, f1, f2.minIndex, p1) && FragOk(g, rs, f2, hi, p2)
    ensures FragOk(PatchStates(g, p1.outs, f2.start), rs,
                   Frag(f1.start, f2.out, f1.minIndex), hi, Part(Cat(p1.re, p2.re), p2.outs))
  {
    hide Recognises, AllSettle;
    var N' := Net(PatchStates(g, p1.outs, f2.start), rs, Exits(p2.outs));
    CatShape(g, rs, f1, p1.outs, f2, p2.outs, hi);
    CatPatched(g, rs, f1, p1.outs, f2, p2.outs, hi);
    CatRecognises(Net(g, rs, Exits(p1.outs)), Net(g, rs, Exits(p2.outs)), N', f1, p1.re, f2, p2.re, hi);
  }

  lemma CatRecognises(N1: Net, N2: Net, N': Net, f1: Frag, r1: Re, f2: Frag, r2: Re, hi: nat)
    requires Closed(N1, f1.minIndex, f2.minIndex) && Patched(N1, N', f1.minIndex, f2.minIndex, f2.start)
    requires Closed(N2, f2.minIndex, hi) && Copied(N2, N', f2.minIndex, hi, 0)
    requires f1.minIndex <= f1.start < f2.minIndex <= f2.start < hi
    requires Recognises(N1, f1.start, r1) && Recognises(N2, f2.start, r2)
    ensures Recognises(N', f1.start, Cat(r1, r2))
    ensures AllSettle(N1, f1.minIndex, f2.minIndex) && AllSettle(N2, f2.minIndex, hi) <==> AllSettle(N', f1.minIndex, hi)
  {
    RecognisesLanguage(N1, f1.start, r1);
    RecognisesLanguage(N2, f2.start, r2);
    RecognisesLanguage(N', f1.start, Cat(r1, r2));
    LanguageCopied(N2, N', f2.minIndex, hi, 0, f2.start);
    PatchLanguage(N1, N', f1.minIndex, f2.minIndex, f2.start, f1.start);
    SettlesCopied(N2, N', f2.minIndex, hi, 0);
    SettlesPatched(N1, N', f1.minIndex, f2.minIndex, f2.start);
    AllSettleSplit(N', f1.minIndex, f2.minIndex, hi);
  }

  // ---------------------------------------------------------------- alternation

  /** Two operands side by side, their out-lists appended, under a new split state. */
  function AltStates(g: seq<State>, f1: Frag, outs1: seq<nat>, f2: Frag): seq<State>
    requires |outs1| > 0 && outs1[|outs1| - 1] < |g|
  {
    var last := outs1[|outs1| - 1];
    g[last := g[last].(out := f2.out)] + [State(f1.start, f2.start, INVALID, 0)]
  }

  lemma AltShape(g: seq<State>, rs: seq<Range>, f1: Frag, outs1: seq<nat>, f2: Frag, outs2: seq<nat>)
    requires Shaped(g, rs, f1, f2.minIndex, outs1) && Shaped(g, rs, f2, |g|, outs2)
    requires |g| + 1 < INVALID
    ensures Shaped(AltStates(g, f1, outs1, f2), rs, Frag(|g|, f1.out, f1.minIndex), |g| + 1, outs1 + outs2)
  {
    var g', outs := AltStates(g, f1, outs1, f2), outs1 + outs2;
    var last := outs1[|outs1| - 1];
    assert last in outs1;
    assert OutList(g', f1.out, outs) by {
      forall i | 0 <= i < |outs| - 1 ensures g'[outs[i]].out == outs[i + 1] {
        if i < |outs1| - 1 {
          assert outs[i] == outs1[i] != last;
        }
      }
    }
    assert forall o :: o in outs <==> o in outs1 || o in outs2;
  }

  lemma AltCopied(g: seq<State>, rs: seq<Range>, f1: Frag, outs1: seq<nat>, f2: Frag, outs2: seq<nat>)
    requires Shaped(g, rs, f1, f2.minIndex, outs1) && Shaped(g, rs, f2, |g|, outs2)
    requires |g| + 1 < INVALID
    ensures
      var N' := Net(AltStates(g, f1, outs1, f2), rs, Exits(outs1 + outs2));
      Copied(Net(g, rs, Exits(outs1)), N', f1.minIndex, f2.minIndex, 0)
      && Copied(Net(g, rs, Exits(outs2)), N', f2.minIndex, |g|, 0) && |g| !in N'.exits
  {
    assert outs1[|outs1| - 1] in outs1;
    assert forall o :: o in outs1 + outs2 <==> o in outs1 || o in outs2;
  }

  lemma AltFrag(g: seq<State>, rs: seq<Range>, f1: Frag, p1: Part, f2: Frag, p2: Part)
    requires FragOk(g, rs, f1, f2.minIndex, p1) && FragOk(g, rs, f2, |g|, p2)
    requires |g| + 1 < INVALID
    ensures FragOk(AltStates(g, f1, p1.outs, f2), rs, Frag(|g|, f1.out, f1.minIndex), |g| + 1,
                   Part(Alt(p1.re, p2.re), p1.outs + p2.outs))
  {
    hide Recognises, AllSettle;
    var N' := Net(AltStates(g, f1, p1.outs, f2), rs, Exits(p1.outs + p2.outs));
    AltShape(g, rs, f1, p1.outs, f2, p2.outs);
    AltCopied(g, rs, f1, p1.outs, f2, p2.outs);
    AltRecognises(Net(g, rs, Exits(p1.outs)), Net(g, rs, Exits(p2.outs)), N', f1, p1.re, f2, p2.re, |g|);
  }

  lemma AltRecognises(N1: Net, N2: Net, N': Net, f1: Frag, r1: Re, f2: Frag, r2: Re, s: nat)
    requires Closed(N1, f1.minIndex, f2.minIndex) && Copied(N1, N', f1.minIndex, f2.minIndex, 0)
    requires Closed(N2, f2.minIndex, s) && Copied(N2, N', f2.minIndex, s, 0)
    requires f1.minIndex <= f1.start < f2.minIndex <= f2.start < s < |N'.states|
    requires s !in N'.exits && N'.states[s] == State(f1.start, f2.start, INVALID, 0)
    requires Recognises(N1, f1.start, r1) && Recognises(N2, f2.start, r2)
    ensures Recognises(N', s, Alt(r1, r2))
    ensures AllSettle(N1, f1.minIndex, f2.minIndex) && AllSettle(N2, f2.minIndex, s) <==> AllSettle(N', f1.minIndex, s + 1)
  {
    CopyRecognises(N1, N', f1.minIndex, f2.minIndex, 0, f1.start, r1);
    CopyRecognises(N2, N', f2.minIndex, s, 0, f2.start, r2);
    forall w: Word { AcceptsSplit(N', s, w); }
    SettlesCopied(N1, N', f1.minIndex, f2.minIndex, 0);
    SettlesCopied(N2, N', f2.minIndex, s, 0);
    AllSettleSplit(N', f1.minIndex, f2.minIndex, s);
    AllSettleSplit(N', f1.minIndex, s, s + 1);
    if AllSettle(N', f1.minIndex, s) { SplitSettles(N', s); }
  }

  lemma SplitSettles(N: Net, p: nat)
    requires p < |N.states| && N.states[p].out1 != INVALID
    requires Settles(N, N.states[p].out1) && (p in N.exits || Settles(N, N.states[p].out))
    ensures Settles(N, p)
  {
    var n: nat :| Shallow(N, N.states[p].out1, n);
    var m: nat := 0;
    if p !in N.exits {
      m :| Shallow(N, N.states[p].out, m);
      ShallowGrows(N, N.states[p].out, m, n + m);
    }
    ShallowGrows(N, N.states[p].out1, n, n + m);
    assert Shallow(N, p, n + m + 1);
  }

  // ---------------------------------------------------------------- optional operand

  /** The operand and, beside it, an edge of a new split state that dangles. */
  function OptStates(g: seq<State>, f: Frag, outs: seq<nat>): seq<State>
    requires |outs| > 0 && outs[|outs| - 1] < |g|
  {
    var last := outs[|outs| - 1];
    g[last := g[last].(out := |g|)] + [State(INVALID, f.start, INVALID, 0)]
  }

  lemma OptShape(g: seq<State>, rs: seq<Range>, f: Frag, outs: seq<nat>)
    requires Shaped(g, rs, f, |g|, outs) && |g| + 1 < INVALID
    ensures Shaped(OptStates(g, f, outs), rs, Frag(|g|, f.out, f.minIndex), |g| + 1, outs + [|g|])
  {
    var g', outs' := OptStates(g, f, outs), outs + [|g|];
    var last := outs[|outs| - 1];
    assert last in outs;
    assert OutList(g', f.out, outs') by {
      forall i | 0 <= i < |outs'| - 1 ensures g'[outs'[i]].out == outs'[i + 1] {
        if i < |outs| - 1 {
          assert outs'[i] == outs[i] != last;
        }
      }
    }
    assert forall o :: o in outs' <==> o in outs || o == |g|;
  }

  lemma OptCopied(g: seq<State>, rs: seq<Range>, f: Frag, outs: seq<nat>)
    requires Shaped(g, rs, f, |g|, outs) && |g| + 1 < INVALID
    ensures
      var N' := Net(OptStates(g, f, outs), rs, Exits(outs + [|g|]));
      Copied(Net(g, rs, Exits(outs)), N', f.minIndex, |g|, 0) && |g| in N'.exits
  {
    assert outs[|outs| - 1] in outs;
    assert forall o :: o in outs + [|g|] <==> o in outs || o == |g|;
  }

  lemma OptFrag(g: seq<State>, rs: seq<Range>, f: Frag, p: Part)
    requires FragOk(g, rs, f, |g|, p) && |g| + 1 < INVALID
    ensures FragOk(OptStates(g, f, p.outs), rs, Frag(|g|, f.out, f.minIndex), |g| + 1, Part(Opt(p.re), p.outs + [|g|]))
  {
    OptShape(g, rs, f, p.outs);
    OptCopied(g, rs, f, p.outs);
    var N, N' := Net(g, rs, Exits(p.outs)), Net(OptStates(g, f, p.outs), rs, Exits(p.outs + [|g|]));
    OptRecognises(N, N', f, p.re, |g|);
    OptSettles(N, N', f, |g|);
    OptSize(p.re);
  }

  lemma OptRecognises(N: Net, N': Net, f: Frag, r: Re, s: nat)
    requires Closed(N, f.minIndex, s) && Copied(N, N', f.minIndex, s, 0)
    requires f.minIndex <= f.start < s < |N'.states|
    requires s in N'.exits && N'.states[s] == State(INVALID, f.start, INVALID, 0)
    requires Recognises(N, f.start, r)
    ensures Recognises(N', s, Opt(r))
  {
    CopyRecognises(N, N', f.minIndex, s, 0, f.start, r);
    OptSplit(N', s, r);
  }

  lemma OptSplit(N: Net, s: nat, r: Re)
    requires RangesOk(N.ranges) && s < |N.states| && s in N.exits && N.states[s].out1 != INVALID
    requires Recognises(N, N.states[s].out1, r)
    ensures Recognises(N, s, Opt(r))
  {
    OptDenote(r);
    forall w: Word { AcceptsSplit(N, s, w); }
  }

  lemma OptSettles(N: Net, N': Net, f: Frag, s: nat)
    requires Closed(N, f.minIndex, s) && Copied(N, N', f.minIndex, s, 0)
    requires f.minIndex <= f.start < s < |N'.states|
    requires s in N'.exits && N'.states[s] == State(INVALID, f.start, INVALID, 0)
    ensures AllSettle(N, f.minIndex, s) <==> AllSettle(N', f.minIndex, s + 1)
  {
    SettlesCopied(N, N', f.minIndex, s, 0);
    AllSettleSplit(N', f.minIndex, s, s + 1);
    if AllSettle(N', f.minIndex, s) { SplitSettles(N', s); }
  }

  lemma OptDenote(r: Re)
    ensures Denote(Opt(r)) == iset{[]} + Denote(r)
  {
    OptWords(Denote(r));
  }

  lemma OptWords(a: Words)
    ensures Powers(a, 0, Upto(1)) == iset{[]} + a
  {
    PowerOne(a);
    forall w: Word ensures w in Powers(a, 0, Upto(1)) <==> w == [] || w in a {
      if w in Powers(a, 0, Upto(1)) {
        var k: nat :| k <= 1 && w in Power(a, k);
        assert k == 0 || k == 1;
      } else {
        if w == [] { PowersHas(a, 0, 1, w); }
        if w in a { PowersHas(a, 1, 1, w); }
      }
    }
  }

  lemma OptSize(r: Re)
    ensures Size(Opt(r)) == Size(r) + 1
  {
    assert Copies(1, Size(r) + 1) == Size(r) + 1 + Copies(0, Size(r) + 1);
  }

  // ---------------------------------------------------------------- loops

  /** The automaton after `*` or `+`: the operand's exits lead to a new split state. */
  function LoopStates(g: seq<State>, f: Frag, outs: seq<nat>): seq<State> {
    PatchStates(g, outs, |g|) + [State(INVALID, f.start, INVALID, 0)]
  }

  lemma LoopShape(g: seq<State>, rs: seq<Range>, f: Frag, outs: seq<nat>)
    requires Shaped(g, rs, f, |g|, outs) && |g| + 1 < INVALID
    ensures Shaped(LoopStates(g, f, outs), rs, Frag(|g|, |g|, f.minIndex), |g| + 1, [|g|])
    ensures Shaped(LoopStates(g, f, outs), rs, Frag(f.start, |g|, f.minIndex), |g| + 1, [|g|])
    ensures Looped(Net(g, rs, Exits(outs)), Net(LoopStates(g, f, outs), rs, Exits([|g|])), f.minIndex, |g|, f.start, |g|)
  {
    var g' := LoopStates(g, f, outs);
    assert Exits([|g|]) == {|g|};
    assert OutList(g', |g|, [|g|]);
    forall i | f.minIndex <= i < |g| + 1 ensures Local(g'[i], i == |g|, f.minIndex, |g| + 1, |rs|) {
      if i < |g| { assert Local(g[i], i in Exits(outs), f.minIndex, |g|, |rs|); }
    }
  }

  lemma StarFrag(g: seq<State>, rs: seq<Range>, f: Frag, p: Part)
    requires FragOk(g, rs, f, |g|, p) && |g| + 1 < INVALID
    ensures FragOk(LoopStates(g, f, p.outs), rs, Frag(|g|, |g|, f.minIndex), |g| + 1, Part(Star(p.re), [|g|]))
  {
    hide Recognises, AllSettle, Denote, OutList, Closed, Looped, LoopStates, Exits;
    LoopShape(g, rs, f, p.outs);
    LoopRecognises(Net(g, rs, Exits(p.outs)), Net(LoopStates(g, f, p.outs), rs, Exits([|g|])), f.minIndex, |g|, f.start, p.re);
  }

  lemma PlusFrag(g: seq<State>, rs: seq<Range>, f: Frag, p: Part)
    requires FragOk(g, rs, f, |g|, p) && |g| + 1 < INVALID
    ensures FragOk(LoopStates(g, f, p.outs), rs, Frag(f.start, |g|, f.minIndex), |g| + 1, Part(Plus(p.re), [|g|]))
  {
    hide Recognises, AllSettle, Denote, OutList, Closed, Looped, LoopStates, Exits;
    LoopShape(g, rs, f, p.outs);
    LoopRecognises(Net(g, rs, Exits(p.outs)), Net(LoopStates(g, f, p.outs), rs, Exits([|g|])), f.minIndex, |g|, f.start, p.re);
    PlusSize(p.re);
  }

  lemma PlusSize(r: Re)
    ensures Size(Plus(r)) == Size(r) + 1
  {
    assert Copies(1, Size(r)) == Size(r) + Copies(0, Size(r));
  }

  lemma LoopRecognises(N: Net, N': Net, lo: nat, q: nat, start: nat, r: Re)
    requires Looped(N, N', lo, q, start, q) && Recognises(N, start, r)
    ensures Recognises(N', q, Star(r)) && Recognises(N', start, Plus(r))
    ensures AllSettle(N, lo, q) && [] !in Denote(r) <==> AllSettle(N', lo, q + 1)
  {
    RecognisesLanguage(N, start, r);
    RecognisesLanguage(N', q, Star(r));
    RecognisesLanguage(N', start, Plus(r));
    LoopLanguage(N, N', lo, q, start, q);
    SettlesPatched(N, N', lo, q, q);
    AllSettleSplit(N', lo, q, q + 1);
    if AllSettle(N, lo, q) { LoopSettlesExactly(N, N', lo, q, start, q); }
  }

  // ---------------------------------------------------------------- cloning

  /** `g'` is `g` followed by a renumbered copy of the states from `lo` on. */
  predicate Cloned(g: seq<State>, g': seq<State>, lo: nat) {
    lo <= |g|
    && |g'| == |g| + (|g| - lo)
    && (forall i :: 0 <= i < |g| ==> g'[i] == g[i])
    && (forall j :: |g| <= j < |g'| ==> g'[j] == ShiftState(g[j - (|g| - lo)], |g| - lo))
  }

  predicate ClonedOuts(outs: seq<nat>, outs': seq<nat>, k: nat) {
    |outs'| == |outs| && forall i :: 0 <= i < |outs| ==> outs'[i] == outs[i] + k
  }

  lemma CloneExit(outs: seq<nat>, outs': seq<nat>, k: nat, o: nat)
    requires ClonedOuts(outs, outs', k)
    ensures o + k in Exits(outs') <==> o in Exits(outs)
  {
    if o in outs {
      var j :| 0 <= j < |outs| && outs[j] == o;
      assert outs'[j] == o + k;
    }
  }

  lemma CloneLocal(N: Net, N': Net, outs: seq<nat>, outs': seq<nat>, lo: nat, j: nat)
    requires lo <= |N.states| <= j < |N'.states| < INVALID && RangesOk(N.ranges) && N'.ranges == N.ranges
    requires Cloned(N.states, N'.states, lo) && Closed(N, lo, |N.states|)
    requires N.exits == Exits(outs) && N'.exits == Exits(outs') && ClonedOuts(outs, outs', |N.states| - lo)
    ensures Local(N'.states[j], j in N'.exits, |N.states|, |N'.states|, |N'.ranges|)
    ensures CopiedState(N, N', j - (|N.states| - lo), |N.states| - lo)
  {
    var k := |N.states| - lo;
    CloneExit(outs, outs', k, j - k);
    assert Local(N.states[j - k], j - k in N.exits, lo, |N.states|, |N.ranges|);
  }

  lemma CloneShape(g: seq<State>, g': seq<State>, rs: seq<Range>, f: Frag, outs: seq<nat>, outs': seq<nat>)
    requires Shaped(g, rs, f, |g|, outs) && |g'| < INVALID
    requires Cloned(g, g', f.minIndex) && ClonedOuts(outs, outs', |g| - f.minIndex)
    ensures
      var k := |g| - f.minIndex;
      Shaped(g', rs, Frag(f.start + k, f.out + k, f.minIndex + k), |g'|, outs')
  {
    var N, N' := Net(g, rs, Exits(outs)), Net(g', rs, Exits(outs'));
    assert OutList(g', f.out + (|g| - f.minIndex), outs') by { CloneOutList(g, g', f, outs, outs'); }
    assert Closed(N', |g|, |g'|) by {
      forall j | |g| <= j < |g'| ensures Local(g'[j], j in N'.exits, |g|, |g'|, |rs|) {
        CloneLocal(N, N', outs, outs', f.minIndex, j);
      }
    }
  }

  lemma CloneCopied(N: Net, N': Net, outs: seq<nat>, outs': seq<nat>, lo: nat)
    requires lo <= |N.states| <= |N'.states| < INVALID && RangesOk(N.ranges) && N'.ranges == N.ranges
    requires Cloned(N.states, N'.states, lo) && Closed(N, lo, |N.states|)
    requires N.exits == Exits(outs) && N'.exits == Exits(outs') && ClonedOuts(outs, outs', |N.states| - lo)
    ensures Copied(N, N', lo, |N.states|, |N.states| - lo)
  {
    var k := |N.states| - lo;
    forall p | lo <= p < |N.states| ensures CopiedState(N, N', p, k) {
      CloneLocal(N, N', outs, outs', lo, p + k);
    }
  }

  lemma CloneOutList(g: seq<State>, g': seq<State>, f: Frag, outs: seq<nat>, outs': seq<nat>)
    requires OutList(g, f.out, outs) && |g'| < INVALID && f.minIndex <= |g|
    requires forall i :: 0 <= i < |outs| ==> f.minIndex <= outs[i]
    requires Cloned(g, g', f.minIndex) && ClonedOuts(outs, outs', |g| - f.minIndex)
    ensures OutList(g', f.out + (|g| - f.minIndex), outs')
  {
    forall i, j | 0 <= i < j < |outs'| && j == i + 1 ensures g'[outs'[i]].out == outs'[j] {
      assert g[outs[i]].out == outs[j] < INVALID;
    }
  }

  /** Copying the top operand's states yields an isomorphic fragment for the same pattern. */
  lemma CloneFrag(g: seq<State>, g': seq<State>, rs: seq<Range>, f: Frag, p: Part, outs': seq<nat>)
    requires FragOk(g, rs, f, |g|, p) && |g'| < INVALID
    requires Cloned(g, g', f.minIndex) && ClonedOuts(p.outs, outs', |g| - f.minIndex)
    ensures
      var k := |g| - f.minIndex;
      FragOk(g', rs, Frag(f.start + k, f.out + k, f.minIndex + k), |g'|, Part(p.re, outs'))
  {
    CloneShape(g, g', rs, f, p.outs, outs');
    CloneRecognises(Net(g, rs, Exits(p.outs)), Net(g', rs, Exits(outs')), p, outs', f.minIndex, f.start);
  }

  lemma CloneRecognises(N: Net, N': Net, part: Part, outs': seq<nat>, lo: nat, p: nat)
    requires lo <= p < |N.states| <= |N'.states| < INVALID && RangesOk(N.ranges) && N'.ranges == N.ranges
    requires Cloned(N.states, N'.states, lo) && Closed(N, lo, |N.states|)
    requires N.exits == Exits(part.outs) && N'.exits == Exits(outs') && ClonedOuts(part.outs, outs', |N.states| - lo)
    requires Recognises(N, p, part.re)
    ensures Recognises(N', p + (|N.states| - lo), part.re)
    ensures AllSettle(N, lo, |N.states|) <==> AllSettle(N', |N.states|, |N'.states|)
  {
    CloneCopied(N, N', part.outs, outs', lo);
    CopyRecognises(N, N', lo, |N.states|, |N.states| - lo, p, part.re);
    SettlesCopied(N, N', lo, |N.states|, |N.states| - lo);
  }
}
