/** The regular expression compiler: it reads a pattern once and builds its automaton by
    pushing, patching and cloning states in place. */
module RegexCompiler {
  import opened Options
  import opened RegexSyntax
  import opened RegexNfa
  import opened RegexFragment
  import opened RegexMachine
  import opened RegexLexer

  // ---------------------------------------------------------------- the operand stack

  /** Where the states of operand `i` end. */
  function End(g: seq<State>, fs: seq<Frag>, i: nat): nat {
    if i + 1 < |fs| then fs[i + 1].minIndex else |g|
  }

  function Base(g: seq<State>, fs: seq<Frag>, i: nat): nat {
    if i < |fs| then fs[i].minIndex else |g|
  }

  /** The operands own consecutive intervals of states that together make up the whole
      automaton, and each of them recognises its pattern. */
  ghost predicate StackOk(g: seq<State>, rs: seq<Range>, fs: seq<Frag>, ps: seq<Part>) {
    RangesOk(rs) && |g| < INVALID && |fs| == |ps|
    && Base(g, fs, 0) == 0
    && forall i :: 0 <= i < |fs| ==> FragAt(g, rs, fs, ps, i)
  }

  ghost predicate FragAt(g: seq<State>, rs: seq<Range>, fs: seq<Frag>, ps: seq<Part>, i: nat)
    requires i < |fs| == |ps|
  {
    FragOk(g, rs, fs[i], End(g, fs, i), ps[i])
  }

  lemma FragInterval(g: seq<State>, rs: seq<Range>, f: Frag, hi: nat, p: Part)
    requires FragOk(g, rs, f, hi, p)
    ensures f.minIndex < hi <= |g| < INVALID && hi - f.minIndex == Size(p.re)
  {
  }

  function Patterns(ps: seq<Part>): (rs: seq<Re>)
    ensures |rs| == |ps| && forall i :: 0 <= i < |ps| ==> rs[i] == ps[i].re
  {
    seq(|ps|, i requires 0 <= i < |ps| => ps[i].re)
  }

  lemma {:induction false} StackSizeUpTo(g: seq<State>, rs: seq<Range>, fs: seq<Frag>, ps: seq<Part>, i: nat)
    requires StackOk(g, rs, fs, ps) && i <= |fs|
    ensures Total(Patterns(ps)[..i]) == Base(g, fs, i)
  {
    if i > 0 {
      StackSizeUpTo(g, rs, fs, ps, i - 1);
      assert Patterns(ps)[..i][..i - 1] == Patterns(ps)[..i - 1];
      assert FragAt(g, rs, fs, ps, i - 1);
      FragInterval(g, rs, fs[i - 1], End(g, fs, i - 1), ps[i - 1]);
    }
  }

  /** The automaton has exactly as many states as its operands account for. */
  lemma StackSize(g: seq<State>, rs: seq<Range>, fs: seq<Frag>, ps: seq<Part>)
    requires StackOk(g, rs, fs, ps)
    ensures |g| == Total(Patterns(ps))
  {
    StackSizeUpTo(g, rs, fs, ps, |fs|);
    assert Patterns(ps)[..|fs|] == Patterns(ps);
  }

  /** Intervals below an operand's own are unaffected by what happens to it. */
  lemma {:induction false} StackBelow(g: seq<State>, rs: seq<Range>, fs: seq<Frag>, ps: seq<Part>, i: nat, m: nat)
    requires StackOk(g, rs, fs, ps) && i < m <= |fs|
    ensures fs[i].minIndex < End(g, fs, i) <= Base(g, fs, m)
    decreases m - i
  {
    hide FragOk, OutList;
    assert FragAt(g, rs, fs, ps, i);
    FragInterval(g, rs, fs[i], End(g, fs, i), ps[i]);
    if i + 1 < m { StackBelow(g, rs, fs, ps, i + 1, m); }
  }

  /** Every operand's list of dangling edges is well linked. */
  lemma OperandOuts(g: seq<State>, rs: seq<Range>, fs: seq<Frag>, ps: seq<Part>, i: nat)
    requires StackOk(g, rs, fs, ps) && i < |fs|
    ensures OutList(g, fs[i].out, ps[i].outs) && |ps[i].outs| > 0 && ps[i].outs[|ps[i].outs| - 1] < |g|
    ensures forall o :: o in ps[i].outs ==> o < |g|
    ensures i + 1 < |fs| ==> fs[i].minIndex < fs[i + 1].minIndex
  {
    assert FragAt(g, rs, fs, ps, i);
  }

  lemma PatchBelow(g: seq<State>, outs: seq<nat>, q: nat, lo: nat)
    requires forall o :: o in outs ==> lo <= o
    ensures forall i :: 0 <= i < lo && i < |g| ==> PatchStates(g, outs, q)[i] == g[i]
  {
  }

  lemma LoopBelow(g: seq<State>, f: Frag, outs: seq<nat>, lo: nat)
    requires lo <= |g| && forall o :: o in outs ==> lo <= o
    ensures |LoopStates(g, f, outs)| == |g| + 1
    ensures forall i :: 0 <= i < lo ==> LoopStates(g, f, outs)[i] == g[i]
  {
  }

  /** The split state may be added before the operand's exits are patched to it. */
  lemma LoopStatesAre(g: seq<State>, f: Frag, outs: seq<nat>)
    requires forall o :: o in outs ==> o < |g|
    ensures PatchStates(g + [State(INVALID, f.start, INVALID, 0)], outs, |g|) == LoopStates(g, f, outs)
  {
  }

  lemma PatternsReplace(ps: seq<Part>, m: nat, p: Part)
    requires m <= |ps|
    ensures Patterns(ps[..m] + [p]) == Patterns(ps)[..m] + [p.re]
  {
  }

  lemma PatternsPush(ps: seq<Part>, p: Part)
    ensures Patterns(ps + [p]) == Patterns(ps) + [p.re]
  {
  }

  /** The operands from `m` on are replaced by one new operand on their states. */
  lemma StackReplace(g: seq<State>, rs: seq<Range>, fs: seq<Frag>, ps: seq<Part>, m: nat,
                     g': seq<State>, rs': seq<Range>, f': Frag, p': Part)
    requires StackOk(g, rs, fs, ps) && m <= |fs|
    requires RangesOk(rs') && rs <= rs'
    requires f'.minIndex == Base(g, fs, m) <= |g| && FragOk(g', rs', f', |g'|, p')
    requires forall i :: 0 <= i < f'.minIndex ==> g'[i] == g[i]
    ensures StackOk(g', rs', fs[..m] + [f'], ps[..m] + [p'])
  {
    hide FragOk, OutList;
    var fs', ps' := fs[..m] + [f'], ps[..m] + [p'];
    FragInterval(g', rs', f', |g'|, p');
    forall i | 0 <= i < m ensures FragOk(g', rs', fs[i], End(g, fs, i), ps[i]) {
      StackBelow(g, rs, fs, ps, i, m);
      assert FragAt(g, rs, fs, ps, i);
      FragFrame(g, rs, g', rs', fs[i], End(g, fs, i), ps[i]);
    }
    forall i | 0 <= i < |fs'| ensures FragAt(g', rs', fs', ps', i) {
      if i < m { assert End(g', fs', i) == End(g, fs, i); }
    }
  }

  /** A new operand is pushed on top. */
  lemma StackPush(g: seq<State>, rs: seq<Range>, fs: seq<Frag>, ps: seq<Part>,
                  g': seq<State>, rs': seq<Range>, f': Frag, p': Part)
    requires StackOk(g, rs, fs, ps) && RangesOk(rs') && rs <= rs' && g <= g'
    requires f'.minIndex == |g| && FragOk(g', rs', f', |g'|, p')
    ensures StackOk(g', rs', fs + [f'], ps + [p'])
  {
    hide FragOk, OutList;
    StackReplace(g, rs, fs, ps, |fs|, g', rs', f', p');
    assert fs[..|fs|] == fs && ps[..|fs|] == ps;
  }

  lemma StackTop(g: seq<State>, rs: seq<Range>, fs: seq<Frag>, ps: seq<Part>)
    requires StackOk(g, rs, fs, ps) && |fs| >= 1
    ensures FragOk(g, rs, fs[|fs| - 1], |g|, ps[|fs| - 1])
    ensures |fs| >= 2 ==> FragOk(g, rs, fs[|fs| - 2], fs[|fs| - 1].minIndex, ps[|fs| - 2])
  {
    assert FragAt(g, rs, fs, ps, |fs| - 1);
    if |fs| >= 2 { assert FragAt(g, rs, fs, ps, |fs| - 2); }
  }

  // ---------------------------------------------------------------- operators on the stack

  lemma AtomStack(g: seq<State>, rs: seq<Range>, fs: seq<Frag>, ps: seq<Part>, st: State, sym: Sym)
    requires StackOk(g, rs, fs, ps) && |g| + 1 < INVALID
    requires st.out == INVALID && st.out1 == INVALID
    requires st.codepoint == RANGE_CLASS ==> st.rangeStart < |rs|
    requires forall c: Code :: StateMatches(st, rs, c) <==> SymMatches(sym, c)
    ensures var p := Part(Atom(sym), [|g|]);
      StackOk(g + [st], rs, fs + [Frag(|g|, |g|, |g|)], ps + [p])
  {
    hide FragOk, OutList;
    AtomFrag(g, rs, st, sym);
    StackPush(g, rs, fs, ps, g + [st], rs, Frag(|g|, |g|, |g|), Part(Atom(sym), [|g|]));
  }

  lemma ConcatenationStack(g: seq<State>, rs: seq<Range>, fs: seq<Frag>, ps: seq<Part>)
    requires StackOk(g, rs, fs, ps) && |fs| >= 2
    ensures
      var n := |fs|;
      var e1, e2, p1, p2 := fs[n - 2], fs[n - 1], ps[n - 2], ps[n - 1];
      var p := Part(Cat(p1.re, p2.re), p2.outs);
      StackOk(PatchStates(g, p1.outs, e2.start), rs, fs[..n - 2] + [Frag(e1.start, e2.out, e1.minIndex)], ps[..n - 2] + [p])
  {
    hide FragOk, OutList, PatchStates;
    var n := |fs|;
    var e1, e2, p1, p2 := fs[n - 2], fs[n - 1], ps[n - 2], ps[n - 1];
    StackTop(g, rs, fs, ps);
    FragInterval(g, rs, e1, e2.minIndex, p1);
    FragOuts(g, rs, e1, e2.minIndex, p1);
    CatFrag(g, rs, e1, p1, e2, p2, |g|);
    var g', f', p' := PatchStates(g, p1.outs, e2.start), Frag(e1.start, e2.out, e1.minIndex), Part(Cat(p1.re, p2.re), p2.outs);
    PatchBelow(g, p1.outs, e2.start, e1.minIndex);
    StackReplace(g, rs, fs, ps, n - 2, g', rs, f', p');
  }

  lemma FragOuts(g: seq<State>, rs: seq<Range>, f: Frag, hi: nat, p: Part)
    requires FragOk(g, rs, f, hi, p)
    ensures OutList(g, f.out, p.outs)
    ensures forall i :: 0 <= i < |p.outs| ==> f.minIndex <= p.outs[i] < hi
    ensures forall o :: o in p.outs ==> f.minIndex <= o < hi
  {
  }

  lemma AlternationStack(g: seq<State>, rs: seq<Range>, fs: seq<Frag>, ps: seq<Part>)
    requires StackOk(g, rs, fs, ps) && |fs| >= 2 && |g| + 1 < INVALID
    ensures
      var n := |fs|;
      var e1, e2, p1, p2 := fs[n - 2], fs[n - 1], ps[n - 2], ps[n - 1];
      var p := Part(Alt(p1.re, p2.re), p1.outs + p2.outs);
      |p1.outs| > 0 && p1.outs[|p1.outs| - 1] < |g|
      && StackOk(AltStates(g, e1, p1.outs, e2), rs, fs[..n - 2] + [Frag(|g|, e1.out, e1.minIndex)], ps[..n - 2] + [p])
  {
    hide FragOk, OutList;
    var n := |fs|;
    var e1, e2, p1, p2 := fs[n - 2], fs[n - 1], ps[n - 2], ps[n - 1];
    StackTop(g, rs, fs, ps);
    FragInterval(g, rs, e1, e2.minIndex, p1);
    FragOuts(g, rs, e1, e2.minIndex, p1);
    AltFrag(g, rs, e1, p1, e2, p2);
    StackReplace(g, rs, fs, ps, n - 2, AltStates(g, e1, p1.outs, e2), rs,
                 Frag(|g|, e1.out, e1.minIndex), Part(Alt(p1.re, p2.re), p1.outs + p2.outs));
  }

  lemma OptionalStack(g: seq<State>, rs: seq<Range>, fs: seq<Frag>, ps: seq<Part>)
    requires StackOk(g, rs, fs, ps) && |fs| >= 1 && |g| + 1 < INVALID
    ensures
      var n := |fs|;
      var e, q := fs[n - 1], ps[n - 1];
      var p := Part(Opt(q.re), q.outs + [|g|]);
      |q.outs| > 0 && q.outs[|q.outs| - 1] < |g|
      && StackOk(OptStates(g, e, q.outs), rs, fs[..n - 1] + [Frag(|g|, e.out, e.minIndex)], ps[..n - 1] + [p])
  {
    hide FragOk, OutList;
    var n := |fs|;
    var e, q := fs[n - 1], ps[n - 1];
    StackTop(g, rs, fs, ps);
    FragInterval(g, rs, e, |g|, q);
    FragOuts(g, rs, e, |g|, q);
    OptFrag(g, rs, e, q);
    StackReplace(g, rs, fs, ps, n - 1, OptStates(g, e, q.outs), rs, Frag(|g|, e.out, e.minIndex), Part(Opt(q.re), q.outs + [|g|]));
  }

  lemma StarStack(g: seq<State>, rs: seq<Range>, fs: seq<Frag>, ps: seq<Part>)
    requires StackOk(g, rs, fs, ps) && |fs| >= 1 && |g| + 1 < INVALID
    ensures
      var n := |fs|;
      var e, q := fs[n - 1], ps[n - 1];
      StackOk(LoopStates(g, e, q.outs), rs, fs[..n - 1] + [Frag(|g|, |g|, e.minIndex)], ps[..n - 1] + [Part(Star(q.re), [|g|])])
  {
    hide FragOk, OutList, LoopStates;
    var n := |fs|;
    var e, q := fs[n - 1], ps[n - 1];
    StackTop(g, rs, fs, ps);
    FragInterval(g, rs, e, |g|, q);
    FragOuts(g, rs, e, |g|, q);
    StarFrag(g, rs, e, q);
    LoopBelow(g, e, q.outs, e.minIndex);
    StackReplace(g, rs, fs, ps, n - 1, LoopStates(g, e, q.outs), rs, Frag(|g|, |g|, e.minIndex), Part(Star(q.re), [|g|]));
  }

  lemma PlusStack(g: seq<State>, rs: seq<Range>, fs: seq<Frag>, ps: seq<Part>)
    requires StackOk(g, rs, fs, ps) && |fs| >= 1 && |g| + 1 < INVALID
    ensures
      var n := |fs|;
      var e, q := fs[n - 1], ps[n - 1];
      StackOk(LoopStates(g, e, q.outs), rs, fs[..n - 1] + [Frag(e.start, |g|, e.minIndex)], ps[..n - 1] + [Part(Plus(q.re), [|g|])])
  {
    hide FragOk, OutList, LoopStates;
    var n := |fs|;
    var e, q := fs[n - 1], ps[n - 1];
    StackTop(g, rs, fs, ps);
    FragInterval(g, rs, e, |g|, q);
    FragOuts(g, rs, e, |g|, q);
    PlusFrag(g, rs, e, q);
    LoopBelow(g, e, q.outs, e.minIndex);
    StackReplace(g, rs, fs, ps, n - 1, LoopStates(g, e, q.outs), rs, Frag(e.start, |g|, e.minIndex), Part(Plus(q.re), [|g|]));
  }

  lemma CloneStack(g: seq<State>, g': seq<State>, rs: seq<Range>, fs: seq<Frag>, ps: seq<Part>)
    requires StackOk(g, rs, fs, ps) && |fs| >= 1 && |g'| < INVALID
    requires Cloned(g, g', fs[|fs| - 1].minIndex)
    ensures
      var e, q := fs[|fs| - 1], ps[|fs| - 1];
      var k := |g| - e.minIndex;
      var p := Part(q.re, CopiedOuts(q.outs, k));
      StackOk(g', rs, fs + [Frag(e.start + k, e.out + k, e.minIndex + k)], ps + [p])
  {
    hide FragOk, OutList;
    var e, q := fs[|fs| - 1], ps[|fs| - 1];
    var k := |g| - e.minIndex;
    var f, p := Frag(e.start + k, e.out + k, e.minIndex + k), Part(q.re, CopiedOuts(q.outs, k));
    StackTop(g, rs, fs, ps);
    CloneFrag(g, g', rs, e, q, p.outs);
    assert g <= g';
    StackPush(g, rs, fs, ps, g', rs, f, p);
  }

  // ---------------------------------------------------------------- character ranges

  /** The ranges of a class, linked in order from index `k` on. */
  function Chain(k: nat, items: seq<ClassItem>): (rs: seq<Range>)
    ensures |rs| == |items|
  {
    seq(|items|, i requires 0 <= i < |items| =>
      Range(items[i].first, items[i].last, if i + 1 < |items| then k + i + 1 else INVALID))
  }

  /** The first range carries the negation flag. */
  function Flagged(rs: seq<Range>, k: nat, negated: bool): (r: seq<Range>)
    requires k < |rs|
    ensures |r| == |rs|
  {
    if negated then rs[k := rs[k].(start := rs[k].start + NEGATION)] else rs
  }

  lemma ChainOk(base: seq<Range>, items: seq<ClassItem>, negated: bool)
    requires RangesOk(base) && |base| + |items| < INVALID && items != []
    ensures RangesOk(Flagged(base + Chain(|base|, items), |base|, negated))
  {
    var rs := Flagged(base + Chain(|base|, items), |base|, negated);
    forall i | 0 <= i < |rs| ensures rs[i].next == INVALID || i < rs[i].next < |rs| {
      if i < |base| {
        assert rs[i] == base[i];
      } else {
        assert rs[i].next == Chain(|base|, items)[i - |base|].next;
      }
    }
  }

  lemma {:induction false} ChainHits(base: seq<Range>, items: seq<ClassItem>, negated: bool, j: nat, c: Code)
    requires RangesOk(base) && |base| + |items| < INVALID && j < |items|
    requires RangesOk(Flagged(base + Chain(|base|, items), |base|, negated))
    ensures RangeHit(Flagged(base + Chain(|base|, items), |base|, negated), |base| + j, c)
       <==> exists i :: j <= i < |items| && items[i].first <= c <= items[i].last
    decreases |items| - j
  {
    var rs := Flagged(base + Chain(|base|, items), |base|, negated);
    assert rs[|base| + j].start % NEGATION == items[j].first && rs[|base| + j].end == items[j].last;
    if j + 1 < |items| {
      assert rs[|base| + j].next == |base| + (j + 1);
      ChainHits(base, items, negated, j + 1, c);
    }
  }

  /** The linked ranges match exactly the characters of the class. */
  lemma ChainMatches(base: seq<Range>, items: seq<ClassItem>, negated: bool)
    requires RangesOk(base) && |base| + |items| < INVALID && items != []
    ensures
      var rs := Flagged(base + Chain(|base|, items), |base|, negated);
      RangesOk(rs) && forall c: Code :: ClassMatches(rs, |base|, c) <==> SymMatches(Class(negated, items), c)
  {
    var rs := Flagged(base + Chain(|base|, items), |base|, negated);
    ChainOk(base, items, negated);
    forall c: Code ensures ClassMatches(rs, |base|, c) <==> SymMatches(Class(negated, items), c) {
      ChainHits(base, items, negated, 0, c);
      assert rs[|base|].start == items[0].first + (if negated then NEGATION else 0);
    }
  }

  lemma ChainPush(base: seq<Range>, items: seq<ClassItem>, c: Code)
    requires |base| + |items| < INVALID
    ensures
      var rs := base + Chain(|base|, items) + [Range(c, c, INVALID)];
      var last := |base| + |items| - 1;
      base + Chain(|base|, items + [ClassItem(c, c)])
        == if items == [] then rs else rs[last := rs[last].(next := |rs| - 1)]
  {
  }

  lemma ChainEnd(base: seq<Range>, items: seq<ClassItem>, c: Code)
    requires items != []
    ensures
      var rs := base + Chain(|base|, items);
      var n := |items| - 1;
      base + Chain(|base|, items[n := items[n].(last := c)]) == rs[|rs| - 1 := rs[|rs| - 1].(end := c)]
  {
  }

  /** What a class still has to give when `items` have been read: in step 1 the last of them
      may yet become a range, in step 2 its dash has been read. */
  function Rest(s: seq<Code>, pos: nat, step: nat, items: seq<ClassItem>): Option<(seq<ClassItem>, nat)>
    requires step > 0 ==> items != []
  {
    if step == 0 then Prepend(items, ItemsAt(s, pos))
    else
      var n := |items| - 1;
      var c := items[n].first;
      if step == 1 then Prepend(items[..n], ItemFrom(s, c, pos))
      else if IsAt(s, pos, ']') then Some((items + [ClassItem('-' as int, '-' as int)], pos + 1))
      else Prepend(items[..n], RangeFrom(s, c, pos))
  }

  /** The class items read so far plus what the next character makes of them. */
  lemma RestElement(s: seq<Code>, at: nat, step: nat, items: seq<ClassItem>, c: Code, next: nat)
    requires step > 0 ==> items != [] && items[|items| - 1].first == items[|items| - 1].last
    requires step <= 2 && !IsAt(s, at, ']') && ElementAt(s, at) == Some((c, next))
    ensures step == 0 || (step == 1 && c != '-' as int) ==>
      Rest(s, at, step, items) == Rest(s, next, 1, items + [ClassItem(c, c)])
    ensures step == 1 && c == '-' as int ==> Rest(s, at, step, items) == Rest(s, next, 2, items)
    ensures step == 2 ==>
      Rest(s, at, step, items) == Rest(s, next, 0, items[|items| - 1 := items[|items| - 1].(last := c)])
  {
    var n := |items| - 1;
    if step == 0 || (step == 1 && c != '-' as int) {
      assert (items + [ClassItem(c, c)])[..n + 1] == items;
      if step == 1 {
        PrependPrepend(items[..n], [items[n]], ItemsAt(s, at));
        assert items[..n] + [items[n]] == items;
      }
    } else if step == 1 {
      if IsAt(s, next, ']') {
        PrependPrepend(items[..n], [items[n]], ItemsAt(s, at));
        assert items[..n] + [items[n]] == items;
        var end: nat := next + 1;
        assert ItemsAt(s, next) == Some(([], end));
        assert ItemFrom(s, c, next) == Prepend([ClassItem(c, c)], ItemsAt(s, next));
        assert [ClassItem(c, c)] + [] == [ClassItem(c, c)];
        assert ItemsAt(s, at) == Some(([ClassItem(c, c)], end));
      }
    } else {
      PrependPrepend(items[..n], [ClassItem(items[n].first, c)], ItemsAt(s, next));
      assert items[..n] + [ClassItem(items[n].first, c)] == items[n := items[n].(last := c)];
    }
  }

  lemma RestEnd(s: seq<Code>, at: nat, step: nat, items: seq<ClassItem>)
    requires step > 0 ==> items != [] && items[|items| - 1].first == items[|items| - 1].last
    requires step <= 2
    ensures IsAt(s, at, ']') ==>
      Rest(s, at, step, items) == var end: nat := at + 1; Some((if step == 2 then items + [ClassItem('-' as int, '-' as int)] else items, end))
    ensures !IsAt(s, at, ']') && ElementAt(s, at).None? ==> Rest(s, at, step, items).None?
  {
    if step == 1 && IsAt(s, at, ']') {
      var n := |items| - 1;
      var end: nat := at + 1;
      PrependPrepend(items[..n], [items[n]], Some(([], end)));
      assert items[..n] + [items[n]] == items;
    }
    assert items + [] == items;
  }

  lemma RestStart(s: seq<Code>, i: nat)
    ensures Rest(s, i, 0, []) == ItemsAt(s, i)
  {
    PrependEmpty(ItemsAt(s, i));
  }

  lemma PrependEmpty(r: Option<(seq<ClassItem>, nat)>)
    ensures Prepend([], r) == r
  {
    if r.Some? { assert [] + r.value.0 == r.value.0; }
  }

  lemma PrependPrepend(a: seq<ClassItem>, b: seq<ClassItem>, r: Option<(seq<ClassItem>, nat)>)
    ensures Prepend(a, Prepend(b, r)) == Prepend(a + b, r)
  {
    if r.Some? { assert a + (b + r.value.0) == a + b + r.value.0; }
  }

  /** A class is pushed once its ranges have been added. */
  lemma ClassStack(g: seq<State>, base: seq<Range>, rs: seq<Range>, fs: seq<Frag>, ps: seq<Part>, sym: Sym)
    requires StackOk(g, base, fs, ps) && |g| + 1 < INVALID
    requires sym.Class? && sym.items != [] && |base| + |sym.items| < INVALID
    requires rs == Flagged(base + Chain(|base|, sym.items), |base|, sym.negated)
    ensures
      var st := State(INVALID, INVALID, |base|, RANGE_CLASS);
      StackOk(g + [st], rs, fs + [Frag(|g|, |g|, |g|)], ps + [Part(Atom(sym), [|g|])])
  {
    hide FragOk;
    var st := State(INVALID, INVALID, |base|, RANGE_CLASS);
    ChainMatches(base, sym.items, sym.negated);
    assert base <= rs;
    AtomFrag(g, rs, st, sym);
    StackPush(g, base, fs, ps, g + [st], rs, Frag(|g|, |g|, |g|), Part(Atom(sym), [|g|]));
  }

  // ---------------------------------------------------------------- counted repetition

  lemma CatAllLast(xs: seq<Re>)
    requires |xs| > 0
    ensures CatAll(xs[|xs| - 1..]) == xs[|xs| - 1]
  {
  }

  /** The effect of one concatenation on the list being concatenated. */
  lemma ConcatenateLast(base: seq<Re>, xs: seq<Re>, k: nat)
    requires 1 <= k < |xs|
    ensures Apply(base + (xs[..k] + [CatAll(xs[k..])]), Concatenation) == Some(base + (xs[..k - 1] + [CatAll(xs[k - 1..])]))
  {
    var rs := base + (xs[..k] + [CatAll(xs[k..])]);
    assert xs[k - 1..][1..] == xs[k..];
    assert rs[..|rs| - 2] == base + xs[..k - 1];
    assert base + xs[..k - 1] + [CatAll(xs[k - 1..])] == base + (xs[..k - 1] + [CatAll(xs[k - 1..])]);
  }

  lemma {:induction false} CatAllFlatten(xs: seq<Re>, ys: seq<Re>)
    requires |ys| > 0
    ensures CatAll(xs + [CatAll(ys)]) == CatAll(xs + ys)
  {
    if xs == [] {
      assert xs + ys == ys;
    } else {
      assert (xs + [CatAll(ys)])[1..] == xs[1..] + [CatAll(ys)];
      assert (xs + ys)[1..] == xs[1..] + ys;
      CatAllFlatten(xs[1..], ys);
    }
  }

  lemma {:induction false} TotalTimes(n: nat, r: Re)
    ensures Total(Times(n, r)) == Copies(n, Size(r)) && |Times(n, r)| == n
  {
    if n > 0 {
      assert Times(n, r)[..n - 1] == Times(n - 1, r);
      TotalTimes(n - 1, r);
    }
  }

  lemma {:induction false} CatAllSize(xs: seq<Re>)
    requires |xs| > 0
    ensures Size(CatAll(xs)) == Total(xs)
  {
    if |xs| == 1 {
      TotalPush([], xs[0]);
      assert [] + [xs[0]] == xs;
    } else {
      CatAllSize(xs[1..]);
      assert [xs[0]] + xs[1..] == xs;
      TotalAppend([xs[0]], xs[1..]);
      TotalPush([], xs[0]);
      assert [] + [xs[0]] == [xs[0]];
    }
  }

  /** The copies take exactly the states that the size of the repetition says. */
  lemma ExpansionSize(r: Re, min: nat, max: Bound)
    requires BoundOk(min, max)
    ensures Total(Expansion(r, min, max)) == Size(Repeat(r, min, max))
  {
    match max
    case Unlimited =>
      if min == 0 {
        TotalPush([], Star(r));
        assert [] + [Star(r)] == [Star(r)];
      } else {
        TotalPush(Times(min - 1, r), Plus(r));
        TotalTimes(min - 1, r);
        PlusSize(r);
      }
    case Upto(m) =>
      TotalAppend(Times(min, r), Times(m - min, Opt(r)));
      TotalTimes(min, r);
      TotalTimes(m - min, Opt(r));
      OptSize(r);
  }

  lemma {:induction false} CatAllLoops(xs: seq<Re>)
    requires |xs| > 0
    ensures LoopsOk(CatAll(xs)) <==> forall x :: x in xs ==> LoopsOk(x)
  {
    if |xs| == 1 {
      assert xs == [xs[0]];
    } else {
      CatAllLoops(xs[1..]);
      assert LoopsOk(CatAll(xs)) <==> LoopsOk(xs[0]) && LoopsOk(CatAll(xs[1..]));
      if LoopsOk(CatAll(xs)) {
        forall x | x in xs ensures LoopsOk(x) { assert x == xs[0] || x in xs[1..]; }
      }
      if forall x :: x in xs ==> LoopsOk(x) {
        assert xs[0] in xs;
        assert forall x :: x in xs[1..] ==> x in xs;
      }
    }
  }

  lemma ExpansionLoops(r: Re, min: nat, max: Bound)
    requires BoundOk(min, max)
    ensures LoopsOk(CatAll(Expansion(r, min, max))) <==> LoopsOk(Repeat(r, min, max))
  {
    hide Denote;
    var xs := Expansion(r, min, max);
    CatAllLoops(xs);
    assert xs[|xs| - 1] in xs;
    assert LoopsOk(xs[|xs| - 1]) ==> LoopsOk(r);
    assert max.Unlimited? ==> (LoopsOk(xs[|xs| - 1]) <==> LoopsOk(Repeat(r, min, max)));
  }

  /** An operand for the expansion is an operand for the repetition. */
  lemma RepeatFrag(g: seq<State>, rs: seq<Range>, f: Frag, hi: nat, p: Part, r: Re, min: nat, max: Bound)
    requires BoundOk(min, max) && FragOk(g, rs, f, hi, p) && p.re == CatAll(Expansion(r, min, max))
    ensures FragOk(g, rs, f, hi, p.(re := Repeat(r, min, max)))
  {
    hide Denote, Expansion, CatAll;
    ExpansionCorrect(r, min, max);
    ExpansionSize(r, min, max);
    CatAllSize(Expansion(r, min, max));
    ExpansionLoops(r, min, max);
  }

  lemma RepeatStack(g: seq<State>, rs: seq<Range>, fs: seq<Frag>, ps: seq<Part>, r: Re, min: nat, max: Bound)
    requires StackOk(g, rs, fs, ps) && |fs| >= 1 && BoundOk(min, max)
    requires ps[|fs| - 1].re == CatAll(Expansion(r, min, max))
    ensures
      var n := |fs|;
      var p := ps[n - 1].(re := Repeat(r, min, max));
      StackOk(g, rs, fs, ps[..n - 1] + [p])
  {
    hide FragOk, Expansion, CatAll;
    var n := |fs|;
    StackTop(g, rs, fs, ps);
    FragInterval(g, rs, fs[n - 1], |g|, ps[n - 1]);
    RepeatFrag(g, rs, fs[n - 1], |g|, ps[n - 1], r, min, max);
    StackReplace(g, rs, fs, ps, n - 1, g, rs, fs[n - 1], ps[n - 1].(re := Repeat(r, min, max)));
    assert fs[..n - 1] + [fs[n - 1]] == fs;
  }

  lemma {:induction false} CopiesGrow(k: nat, l: nat, n: nat)
    requires k <= l
    ensures Copies(k, n) <= Copies(l, n)
  {
    if k < l { CopiesGrow(k, l - 1, n); }
  }

  /** The lists that the engine's three ways of expanding a quantifier concatenate. */
  lemma ExpansionForms(e: Re, n: nat, m: nat)
    requires n <= m && 1 <= m
    ensures n == 0 && m != INFINITY ==> Expansion(e, n, BoundOf(m)) == Times(m, Opt(e))
    ensures 1 <= n && m == INFINITY ==> Expansion(e, n, BoundOf(m)) == Times(n - 1, e) + [Plus(e)]
    ensures 1 <= n < m && m != INFINITY ==> Expansion(e, n, BoundOf(m)) == Times(n - 1, e) + ([e] + Times(m - n, Opt(e)))
    ensures 1 <= n == m && m != INFINITY ==> Expansion(e, n, BoundOf(m)) == Times(n - 1, e) + [e]
  {
    if m != INFINITY {
      assert Times(0, e) + Times(m, Opt(e)) == Times(m, Opt(e));
      if 1 <= n {
        assert Times(n, e) == Times(n - 1, e) + [e];
        assert Times(n - 1, e) + [e] + Times(m - n, Opt(e)) == Times(n - 1, e) + ([e] + Times(m - n, Opt(e)));
        if n == m { assert Times(n - 1, e) + [e] + Times(0, Opt(e)) == Times(n - 1, e) + [e]; }
      }
    }
  }

  lemma RepeatSizes(e: Re, n: nat, m: nat)
    requires n <= m && 1 <= m
    ensures n >= 1 ==> Copies(n, Size(e)) == Size(e) + Copies(n - 1, Size(e))
    ensures m == INFINITY && n >= 1 ==> Size(Repeat(e, n, BoundOf(m))) == Copies(n, Size(e)) + 1
    ensures m != INFINITY ==> Size(Repeat(e, n, BoundOf(m))) == Copies(n, Size(e)) + Copies(m - n, Size(e) + 1)
    ensures Copies(1, Size(e) + 1) == Size(e) + 1
    ensures |Times(m, e)| == m
  {
    assert Copies(1, Size(e) + 1) == Size(e) + 1 + Copies(0, Size(e) + 1);
  }

  lemma TimesPush(k: nat, r: Re)
    ensures Times(k, r) + [r] == Times(k + 1, r) && [r] + Times(k, r) == Times(k + 1, r) && |Times(k, r)| == k
  {
  }

  // ---------------------------------------------------------------- the finished automaton

  const MATCH: State := State(INVALID, INVALID, INVALID, 0)

  /** A finished automaton: its last state is the matching state, no other edge dangles, and
      from `root` it reads exactly the language of `r`. */
  ghost predicate Finished(g: seq<State>, rs: seq<Range>, root: nat, r: Re) {
    RangesOk(rs) && root < |g| < INVALID
    && g[|g| - 1] == MATCH
    && (forall p :: 0 <= p < |g| - 1 ==> Local(g[p], false, 0, |g|, |rs|))
    && Recognises(Net(g, rs, {}), root, r)
    && (LoopsOk(r) <==> AllSettle(Net(g, rs, {}), 0, |g|))
  }

  lemma FinishLocal(g: seq<State>, rs: seq<Range>, f: Frag, p: Part)
    requires FragOk(g, rs, f, |g|, p) && f.minIndex == 0 && |g| + 1 < INVALID
    ensures
      var g' := PatchStates(g + [MATCH], p.outs, |g|);
      |g'| == |g| + 1 && g'[|g|] == MATCH
      && (forall i :: 0 <= i < |g| ==> Local(g'[i], false, 0, |g'|, |rs|))
      && Patched(Net(g, rs, Exits(p.outs)), Net(g', rs, {}), 0, |g|, |g|)
  {
    var g' := PatchStates(g + [MATCH], p.outs, |g|);
    forall i | 0 <= i < |g| ensures Local(g'[i], false, 0, |g'|, |rs|) {
      assert Local(g[i], i in Exits(p.outs), 0, |g|, |rs|);
    }
  }

  /** Linking the last operand to a matching state finishes the automaton. */
  lemma FinishFrag(g: seq<State>, rs: seq<Range>, f: Frag, p: Part)
    requires FragOk(g, rs, f, |g|, p) && f.minIndex == 0 && |g| + 1 < INVALID
    ensures Finished(PatchStates(g + [MATCH], p.outs, |g|), rs, f.start, p.re)
  {
    FinishLocal(g, rs, f, p);
    FinishRecognises(Net(g, rs, Exits(p.outs)), Net(PatchStates(g + [MATCH], p.outs, |g|), rs, {}), f.start, p.re);
  }

  lemma FinishRecognises(N: Net, N': Net, start: nat, r: Re)
    requires Closed(N, 0, |N.states|) && Patched(N, N', 0, |N.states|, |N.states|) && start < |N.states|
    requires |N'.states| == |N.states| + 1 && N'.states[|N.states|] == MATCH && N'.exits == {}
    requires Recognises(N, start, r)
    ensures Recognises(N', start, r)
    ensures AllSettle(N, 0, |N.states|) <==> AllSettle(N', 0, |N'.states|)
  {
    var m := |N.states|;
    MatchLanguage(N', m);
    assert Shallow(N', m, 1);
    hide Closed, Patched, Recognises, Language, Conc, Shallow, Settles;
    PatchLanguage(N, N', 0, m, m, start);
    ConcUnit(Language(N, start));
    RecognisesLanguage(N, start, r);
    RecognisesLanguage(N', start, r);
    FinishSettles(N, N');
  }

  /** From the match state only the empty rest is accepted. */
  lemma MatchLanguage(N: Net, m: nat)
    requires RangesOk(N.ranges) && m < |N.states| && N.states[m] == MATCH && N.exits == {}
    ensures Language(N, m) == iset{[]}
  {
    forall w: Word ensures Accepts(N, m, w) <==> w == [] { AcceptsMatching(N, m, w); }
  }

  lemma FinishSettles(N: Net, N': Net)
    requires Closed(N, 0, |N.states|) && Patched(N, N', 0, |N.states|, |N.states|)
    requires |N'.states| == |N.states| + 1 && N'.states[|N.states|] == MATCH && N'.exits == {}
    ensures AllSettle(N, 0, |N.states|) <==> AllSettle(N', 0, |N'.states|)
  {
    var m := |N.states|;
    assert Shallow(N', m, 1);
    hide Closed, Patched, Shallow;
    SettlesPatched(N, N', 0, m, m);
    AllSettleSplit(N', 0, m, m + 1);
  }

  // ---------------------------------------------------------------- the input stream

  /** The decoded characters of a pattern; 0 stands for the end. */
  class CodeStream {
    const source: seq<Code>
    var pos: nat

    ghost predicate Valid()
      reads this
    {
      pos <= |source|
    }

    constructor (source: seq<Code>)
      ensures Valid() && this.source == source && pos == 0
    {
      this.source := source;
      pos := 0;
    }

    function Peek(): nat
      reads this
    {
      if pos < |source| then source[pos] else 0
    }

    method Take() returns (c: nat)
      requires Valid()
      modifies this
      ensures Valid() && c == old(Peek())
      ensures pos == if old(pos) < |source| then old(pos) + 1 else old(pos)
    {
      c := Peek();
      if c != 0 { pos := pos + 1; }
    }
  }

  // ---------------------------------------------------------------- the compiler

  /** The compiler's state. `operands`, `operators` and `atomCounts` are the stacks of one
      run of `Parse`; `parts` records the pattern behind each operand. */
  class Regex {
    var states: seq<State>
    var ranges: seq<Range>
    var root: nat
    var anchorBegin: bool
    var anchorEnd: bool
    var operands: seq<Frag>
    var operators: seq<Operator>
    var atomCounts: seq<nat>
    ghost var parts: seq<Part>

    ghost predicate Valid()
      reads this
    {
      StackOk(states, ranges, operands, parts)
    }

    /** The patterns of the operands. */
    ghost function Res(): (r: seq<Re>)
      reads this
      ensures |r| == |parts|
    {
      Patterns(parts)
    }

    ghost function Machine(): Config
      reads this
    {
      Config(Res(), operators, atomCounts)
    }

    constructor ()
      ensures Valid() && Res() == [] && operators == [] && atomCounts == [0]
      ensures states == [] && ranges == [] && root == INVALID && !anchorBegin && !anchorEnd
    {
      states, ranges, root := [], [], INVALID;
      anchorBegin, anchorEnd := false, false;
      operands, operators, atomCounts := [], [], [0];
      parts := [];
      new;
      assert Patterns([]) == [];
    }

    predicate IsValid()
      reads this
    {
      root != INVALID
    }

    method NewState(out: nat, out1: nat, codepoint: nat) returns (index: nat)
      modifies this`states
      ensures states == old(states) + [State(out, out1, INVALID, codepoint)] && index == |old(states)|
    {
      states := states + [State(out, out1, INVALID, codepoint)];
      index := |states| - 1;
    }

    /** Makes every edge of the list starting at `l` lead to `s`. */
    method Patch(l: nat, s: nat, ghost outs: seq<nat>)
      requires OutList(states, l, outs) && |states| < INVALID
      modifies this`states
      ensures states == PatchStates(old(states), outs, s)
    {
      var i := l;
      ghost var k := 0;
      while i != INVALID
        invariant k <= |outs| && |states| == |old(states)|
        invariant i == if k < |outs| then outs[k] else INVALID
        invariant forall j :: 0 <= j < |states| ==>
          states[j] == if j in outs[..k] then old(states)[j].(out := s) else old(states)[j]
        decreases |outs| - k
      {
        assert outs[k] !in outs[..k];
        assert outs[..k + 1] == outs[..k] + [outs[k]];
        var next := states[i].out;
        states := states[i := states[i].(out := s)];
        i, k := next, k + 1;
      }
      assert outs[..k] == outs;
    }

    /** Links the list starting at `l2` behind the one starting at `l1`. */
    method Append(l1: nat, l2: nat, ghost outs: seq<nat>) returns (head: nat)
      requires OutList(states, l1, outs) && |states| < INVALID
      modifies this`states
      ensures head == l1
      ensures var last := outs[|outs| - 1];
        states == old(states)[last := old(states)[last].(out := l2)]
    {
      head := l1;
      var i := l1;
      ghost var k := 0;
      while states[i].out != INVALID
        invariant k < |outs| && i == outs[k] && states == old(states)
        decreases |outs| - k
      {
        assert k + 1 < |outs| ==> states[outs[k]].out == outs[k + 1];
        i, k := states[i].out, k + 1;
      }
      LastOut(states, l1, outs, k);
      states := states[i := states[i].(out := l2)];
    }

    method PushOperand(codepoint: nat, ghost sym: Sym)
      requires Valid() && |states| + 1 < INVALID
      requires (codepoint == ANY_CLASS && sym == Any) || (codepoint <= 0x10FFFF && sym.Literal? && sym.code == codepoint)
      modifies this`states, this`operands, this`parts
      ensures Valid() && Res() == old(Res()) + [Atom(sym)]
    {
      hide FragOk, OutList;
      AtomStack(states, ranges, operands, parts, State(INVALID, INVALID, INVALID, codepoint), sym);
      var s := NewState(INVALID, INVALID, codepoint);
      operands := operands + [Frag(s, s, s)];
      PatternsPush(parts, Part(Atom(sym), [s]));
      parts := parts + [Part(Atom(sym), [s])];
    }

    /** Evaluates one operator on the operand stack. */
    method Eval(op: Operator) returns (ok: bool)
      requires Valid() && |states| + 1 < INVALID
      requires !op.LeftParenthesis? && (op.Concatenation? ==> |operands| >= 2)
      modifies this`states, this`operands, this`parts
      ensures Valid() && (ok <==> Apply(old(Res()), op).Some?)
      ensures ok ==> Res() == Apply(old(Res()), op).value
      ensures op.Concatenation? ==> |states| == |old(states)|
    {
      ok := |operands| >= (if op.Concatenation? || op.Alternation? then 2 else 1);
      if ok {
        match op {
          case Concatenation => EvalConcatenation();
          case Alternation => EvalAlternation();
          case ZeroOrOne => EvalZeroOrOne();
          case ZeroOrMore => EvalZeroOrMore();
          case OneOrMore => EvalOneOrMore();
        }
      }
    }

    method EvalConcatenation()
      requires Valid() && |operands| >= 2
      modifies this`states, this`operands, this`parts
      ensures Valid() && Res() == Apply(old(Res()), Concatenation).value
      ensures |states| == |old(states)|
    {
      hide FragOk, OutList;
      ConcatenationStack(states, ranges, operands, parts);
      OperandOuts(states, ranges, operands, parts, |operands| - 2);
      var n := |operands|;
      var e2, e1 := operands[n - 1], operands[n - 2];
      ghost var p2, p1 := parts[n - 1], parts[n - 2];
      PatternsReplace(parts, n - 2, Part(Cat(p1.re, p2.re), p2.outs));
      Patch(e1.out, e2.start, p1.outs);
      operands := operands[..n - 2] + [Frag(e1.start, e2.out, Min(e1.minIndex, e2.minIndex))];
      parts := parts[..n - 2] + [Part(Cat(p1.re, p2.re), p2.outs)];
    }

    method EvalAlternation()
      requires Valid() && |operands| >= 2 && |states| + 1 < INVALID
      modifies this`states, this`operands, this`parts
      ensures Valid() && Res() == Apply(old(Res()), Alternation).value
    {
      hide FragOk, OutList;
      AlternationStack(states, ranges, operands, parts);
      OperandOuts(states, ranges, operands, parts, |operands| - 2);
      ghost var g := states;
      var n := |operands|;
      var e2, e1 := operands[n - 1], operands[n - 2];
      ghost var p2, p1 := parts[n - 1], parts[n - 2];
      PatternsReplace(parts, n - 2, Part(Alt(p1.re, p2.re), p1.outs + p2.outs));
      var s := NewState(e1.start, e2.start, 0);
      OutListExtends(g, states, e1.out, p1.outs);
      var out := Append(e1.out, e2.out, p1.outs);
      assert states == AltStates(g, e1, p1.outs, e2);
      operands := operands[..n - 2] + [Frag(s, out, Min(e1.minIndex, e2.minIndex))];
      parts := parts[..n - 2] + [Part(Alt(p1.re, p2.re), p1.outs + p2.outs)];
    }

    method EvalZeroOrOne()
      requires Valid() && |operands| >= 1 && |states| + 1 < INVALID
      modifies this`states, this`operands, this`parts
      ensures Valid() && Res() == Apply(old(Res()), ZeroOrOne).value
    {
      hide FragOk, OutList;
      OptionalStack(states, ranges, operands, parts);
      OperandOuts(states, ranges, operands, parts, |operands| - 1);
      ghost var g := states;
      var n := |operands|;
      var e := operands[n - 1];
      ghost var p := parts[n - 1];
      PatternsReplace(parts, n - 1, Part(Opt(p.re), p.outs + [|g|]));
      var s := NewState(INVALID, e.start, 0);
      OutListExtends(g, states, e.out, p.outs);
      var out := Append(e.out, s, p.outs);
      assert states == OptStates(g, e, p.outs);
      operands := operands[..n - 1] + [Frag(s, out, e.minIndex)];
      parts := parts[..n - 1] + [Part(Opt(p.re), p.outs + [s])];
    }

    method EvalZeroOrMore()
      requires Valid() && |operands| >= 1 && |states| + 1 < INVALID
      modifies this`states, this`operands, this`parts
      ensures Valid() && Res() == Apply(old(Res()), ZeroOrMore).value
    {
      hide FragOk, OutList, LoopStates, PatchStates;
      StarStack(states, ranges, operands, parts);
      OperandOuts(states, ranges, operands, parts, |operands| - 1);
      ghost var g := states;
      var n := |operands|;
      var e := operands[n - 1];
      ghost var p := parts[n - 1];
      PatternsReplace(parts, n - 1, Part(Star(p.re), [|g|]));
      var s := NewState(INVALID, e.start, 0);
      OutListExtends(g, states, e.out, p.outs);
      Patch(e.out, s, p.outs);
      LoopStatesAre(g, e, p.outs);
      operands := operands[..n - 1] + [Frag(s, s, e.minIndex)];
      parts := parts[..n - 1] + [Part(Star(p.re), [s])];
      assert Res() == old(Res())[..n - 1] + [Star(old(Res())[n - 1])];
    }

    method EvalOneOrMore()
      requires Valid() && |operands| >= 1 && |states| + 1 < INVALID
      modifies this`states, this`operands, this`parts
      ensures Valid() && Res() == Apply(old(Res()), OneOrMore).value
    {
      hide FragOk, OutList, LoopStates, PatchStates;
      PlusStack(states, ranges, operands, parts);
      OperandOuts(states, ranges, operands, parts, |operands| - 1);
      ghost var g := states;
      var n := |operands|;
      var e := operands[n - 1];
      ghost var p := parts[n - 1];
      PatternsReplace(parts, n - 1, Part(Plus(p.re), [|g|]));
      var s := NewState(INVALID, e.start, 0);
      OutListExtends(g, states, e.out, p.outs);
      Patch(e.out, s, p.outs);
      LoopStatesAre(g, e, p.outs);
      operands := operands[..n - 1] + [Frag(e.start, s, e.minIndex)];
      parts := parts[..n - 1] + [Part(Plus(p.re), [s])];
      assert Res() == old(Res())[..n - 1] + [Plus(old(Res())[n - 1])];
    }

    static function Min(a: nat, b: nat): nat {
      if a < b then a else b
    }

    /** Pushes a copy of the top operand, made by copying and renumbering its states. */
    method CloneTopOperand()
      requires Valid() && |operands| > 0
      requires |states| + Size(Res()[|operands| - 1]) < INVALID
      modifies this`states, this`operands, this`parts
      ensures Valid() && Res() == old(Res()) + [old(Res())[|old(operands)| - 1]]
    {
      hide FragOk, OutList;
      var n := |operands|;
      var src := operands[n - 1];
      ghost var g, p := states, parts[n - 1];
      StackSize(states, ranges, operands, parts);
      StackTop(states, ranges, operands, parts);
      FragInterval(g, ranges, src, |g|, p);
      var count := |states| - src.minIndex;
      var copy := CopyStates(src.minIndex);
      CloneStack(g, g + copy, ranges, operands, parts);
      states := states + copy;
      operands := operands + [Frag(src.start + count, src.out + count, src.minIndex + count)];
      PatternsPush(parts, Part(p.re, CopiedOuts(p.outs, count)));
      parts := parts + [Part(p.re, CopiedOuts(p.outs, count))];
    }

    /** Clones the top operand `count` times. */
    method CloneTimes(count: nat, ghost base: seq<Re>, ghost x: Re)
      requires Valid() && Res() == base + [x]
      requires Total(base) + Copies(count + 1, Size(x)) < INVALID
      modifies this`states, this`operands, this`parts
      ensures Valid() && Res() == base + Times(count + 1, x)
    {
      hide FragOk, StackOk, Apply;
      var i := 0;
      assert Times(1, x) == [x];
      while i < count
        invariant i <= count && Valid() && Res() == base + Times(i + 1, x)
      {
        TotalTimes(i + 1, x);
        CopiesGrow(i + 2, count + 1, Size(x));
        StateCount(base, Times(i + 1, x));
        CloneTopOperand();
        TimesPush(i + 1, x);
        assert base + Times(i + 1, x) + [x] == base + (Times(i + 1, x) + [x]);
        i := i + 1;
      }
    }

    /** Concatenates the top operands `count` times. */
    method ConcatenateTimes(count: nat, ghost base: seq<Re>, ghost xs: seq<Re>)
      requires Valid() && Res() == base + xs && |xs| == count + 1 && |states| + 1 < INVALID
      modifies this`states, this`operands, this`parts
      ensures Valid() && Res() == base + [CatAll(xs)] && |states| == |old(states)|
    {
      hide FragOk, StackOk, CatAll;
      var i := 0;
      CatAllLast(xs);
      assert xs[..count] + [xs[count]] == xs;
      while i < count
        invariant i <= count && Valid() && |states| == |old(states)|
        invariant Res() == base + (xs[..count - i] + [CatAll(xs[count - i..])])
      {
        StateCount(base, xs[..count - i] + [CatAll(xs[count - i..])]);
        var ok := Eval(Concatenation);
        ConcatenateLast(base, xs, count - i);
        i := i + 1;
      }
      assert xs[..0] + [CatAll(xs[0..])] == [CatAll(xs)] by { assert xs[0..] == xs; }
    }

    /** `{0,m}` on the top operand, for a limit `m`. */
    method QuantifyFromZero(m: nat, ghost base: seq<Re>, ghost e: Re)
      requires Valid() && Res() == base + [e] && 1 <= m != INFINITY
      requires Total(base) + Size(Repeat(e, 0, Upto(m))) + 1 < INVALID
      modifies this`states, this`operands, this`parts
      ensures Valid() && Res() == base + [Repeat(e, 0, Upto(m))]
    {
      hide FragOk, StackOk, CatAll, Expansion, Times;
      StateCount(base, [e]);
      RepeatSizes(e, 0, m);
      CopiesGrow(1, m, Size(e) + 1);
      OptSize(e);
      var ok := Eval(ZeroOrOne);
      assert Res() == base + [Opt(e)];
      CloneTimes(m - 1, base, Opt(e));
      StateCount(base, Times(m, Opt(e)));
      TotalTimes(m, Opt(e));
      ConcatenateTimes(m - 1, base, Times(m, Opt(e)));
      ExpansionForms(e, 0, m);
      AsRepeat(base, e, 0, Upto(m));
    }

    /** `{n,m}` on the top operand, for `n` at least one. */
    method QuantifyFrom(n: nat, m: nat, ghost base: seq<Re>, ghost e: Re)
      requires Valid() && Res() == base + [e] && 1 <= n <= m
      requires Total(base) + Size(Repeat(e, n, BoundOf(m))) + 1 < INVALID
      modifies this`states, this`operands, this`parts
      ensures Valid() && Res() == base + [Repeat(e, n, BoundOf(m))]
    {
      hide FragOk, StackOk, CatAll, Expansion, Times;
      RepeatSizes(e, n, m);
      CloneTimes(n - 1, base, e);
      TimesPush(n - 1, e);
      ghost var base' := base + Times(n - 1, e);
      assert Res() == base' + [e];
      TotalAppend(base, Times(n - 1, e));
      TotalTimes(n - 1, e);
      ghost var last := QuantifyLast(n, m, base', e);
      assert Res() == base + (Times(n - 1, e) + [last]);
      ConcatenateTimes(n - 1, base, Times(n - 1, e) + [last]);
      AsRepeat(base, e, n, BoundOf(m));
    }

    /** Turns the last of `n` copies into what follows the first `n - 1`. */
    method QuantifyLast(n: nat, m: nat, ghost base: seq<Re>, ghost e: Re) returns (ghost last: Re)
      requires Valid() && Res() == base + [e] && 1 <= n <= m
      requires Total(base) + Size(e) + (if m == INFINITY then 2 else 1) < INVALID
      requires m != INFINITY ==> Total(base) + Size(e) + Copies(m - n, Size(e) + 1) + 1 < INVALID
      modifies this`states, this`operands, this`parts
      ensures Valid() && Res() == base + [last] && |states| + 1 < INVALID
      ensures |Times(n - 1, e) + [last]| == n && CatAll(Times(n - 1, e) + [last]) == CatAll(Expansion(e, n, BoundOf(m)))
    {
      hide FragOk, StackOk, CatAll, Expansion;
      StateCount(base, [e]);
      ExpansionForms(e, n, m);
      last := e;
      if m == INFINITY {
        var ok := Eval(OneOrMore);
        last := Plus(e);
        StateCount(base, [last]);
        PlusSize(e);
      } else if m > n {
        QuantifyOptional(m - n, base, e);
        last := CatAll([e] + Times(m - n, Opt(e)));
        CatAllFlatten(Times(n - 1, e), [e] + Times(m - n, Opt(e)));
      }
    }

    /** From one operand to the operand followed by `k` optional copies of it. */
    method QuantifyOptional(k: nat, ghost base: seq<Re>, ghost e: Re)
      requires Valid() && Res() == base + [e] && 1 <= k
      requires Total(base) + Size(e) + Copies(k, Size(e) + 1) + 1 < INVALID
      modifies this`states, this`operands, this`parts
      ensures Valid() && Res() == base + [CatAll([e] + Times(k, Opt(e)))] && |states| + 1 < INVALID
    {
      hide FragOk, StackOk, CatAll, Times;
      StateCount(base, [e]);
      OptSize(e);
      CopiesGrow(1, k, Size(e) + 1);
      TotalPush(base, e);
      CloneTopOperand();
      assert Res() == base + [e] + [e];
      StateCount(base + [e], [e]);
      var ok := Eval(ZeroOrOne);
      assert Res() == base + [e] + [Opt(e)];
      CloneTimes(k - 1, base + [e], Opt(e));
      assert Res() == base + ([e] + Times(k, Opt(e)));
      StateCount(base + [e], Times(k, Opt(e)));
      TotalTimes(k, Opt(e));
      ConcatenateTimes(k, base, [e] + Times(k, Opt(e)));
    }

    lemma StateTotal()
      requires Valid()
      ensures |states| == Total(Res()) && |operands| == |Res()|
    {
      hide FragOk;
      StackSize(states, ranges, operands, parts);
    }

    /** The number of states, from the operands' patterns. */
    lemma StateCount(base: seq<Re>, xs: seq<Re>)
      requires Valid() && Res() == base + xs
      ensures |states| == Total(base) + Total(xs) && |operands| == |base| + |xs|
      ensures |xs| == 1 ==> Total(xs) == Size(xs[0])
      ensures |xs| >= 1 ==> Total(xs) == Size(xs[0]) + Total(xs[1..])
    {
      hide FragOk;
      StackSize(states, ranges, operands, parts);
      TotalAppend(base, xs);
      if |xs| >= 1 {
        assert [xs[0]] + xs[1..] == xs;
        TotalAppend([xs[0]], xs[1..]);
        TotalPush([], xs[0]);
        assert [] + [xs[0]] == [xs[0]];
      }
    }

    /** The concatenated copies are recorded as the repetition that they denote. */
    ghost method AsRepeat(base: seq<Re>, e: Re, min: nat, max: Bound)
      requires Valid() && BoundOk(min, max) && Res() == base + [CatAll(Expansion(e, min, max))]
      modifies this`parts
      ensures Valid() && Res() == base + [Repeat(e, min, max)]
    {
      hide FragOk, Expansion, CatAll;
      var n := |parts|;
      var p := parts[n - 1].(re := Repeat(e, min, max));
      assert Res()[n - 1] == CatAll(Expansion(e, min, max));
      RepeatStack(states, ranges, operands, parts, e, min, max);
      PatternsReplace(parts, n - 1, p);
      parts := parts[..n - 1] + [p];
    }

    /** `{n,m}` on the top operand; `m` is `INFINITY` when it is left out. */
    method EvalQuantifier(n: nat, m: nat) returns (ok: bool)
      requires Valid() && n <= m && |operands| > 0
      requires (n == 0 && m == 0)
        || Total(Res()[..|Res()| - 1]) + Size(Repeat(Res()[|Res()| - 1], n, BoundOf(m))) + 1 < INVALID
      modifies this`states, this`operands, this`parts
      ensures ok <==> !(n == 0 && m == 0)
      ensures ok ==> Valid() && Res() == old(Res())[..|old(Res())| - 1] + [Repeat(old(Res())[|old(Res())| - 1], n, BoundOf(m))]
    {
      if n == 0 && m == 0 { return false; }
      assert |Res()| > 0;
      hide FragOk, StackOk, CatAll;
      ghost var base, e := Res()[..|Res()| - 1], Res()[|Res()| - 1];
      assert Res() == base + [e];
      if n > 0 {
        QuantifyFrom(n, m, base, e);
      } else if m == INFINITY {
        StateCount(base, [e]);
        ok := Eval(ZeroOrMore);
      } else {
        QuantifyFromZero(m, base, e);
      }
      return true;
    }

    // -------------------------------------------------------------- reading the pattern

    method ParseUnsigned(ds: CodeStream) returns (ok: bool, u: nat)
      requires ds.Valid()
      modifies ds
      ensures ds.Valid() && ds.pos >= old(ds.pos)
      ensures ReadAt(ds.source, old(ds.pos)) == if ok then Some((u, ds.pos)) else None
      ensures NumberAt(ds.source, old(ds.pos)).Some? ==> ok && (u, ds.pos) == NumberAt(ds.source, old(ds.pos)).value
    {
      ghost var start := ds.pos;
      if NumberAt(ds.source, start).Some? { ReadSmall(ds.source, start, 0); }
      if ds.Peek() < '0' as int || ds.Peek() > '9' as int { return false, 0; }
      var r: nat := 0;
      while ds.Peek() >= '0' as int && ds.Peek() <= '9' as int
        invariant ds.Valid() && start <= ds.pos
        invariant ReadFrom(ds.source, ds.pos, r) == ReadAt(ds.source, start)
        decreases |ds.source| - ds.pos
      {
        if r >= 429496729 && ds.Peek() > '5' as int { return false, 0; }
        var c := ds.Take();
        r := (r * 10 + (c - '0' as int)) % 0x1_0000_0000;
      }
      return true, r;
    }

    method CharacterEscape(ds: CodeStream) returns (ok: bool, c: Code)
      requires ds.Valid()
      modifies ds
      ensures ds.Valid() && ds.pos >= old(ds.pos)
      ensures ok <==> old(ds.pos) < |ds.source| && Escaped(ds.source[old(ds.pos)]).Some?
      ensures ok ==> ds.pos == old(ds.pos) + 1 && c == Escaped(ds.source[old(ds.pos)]).value
    {
      var d := ds.Take();
      if d == 0 { return false, 1; }
      match Escaped(d)
      case None => return false, 1;
      case Some(e) => return true, e;
    }

    method NewRange(codepoint: Code) returns (index: nat)
      modifies this`ranges
      ensures ranges == old(ranges) + [Range(codepoint, codepoint, INVALID)] && index == |old(ranges)|
    {
      ranges := ranges + [Range(codepoint, codepoint, INVALID)];
      index := |ranges| - 1;
    }

    /** Adds the range of one more character behind `current`. */
    method LinkRange(codepoint: Code, current: nat, ghost base: seq<Range>, ghost items: seq<ClassItem>) returns (r: nat)
      requires ranges == base + Chain(|base|, items)
      requires current == if items == [] then INVALID else |ranges| - 1
      requires |base| + |items| < INVALID
      modifies this`ranges
      ensures ranges == base + Chain(|base|, items + [ClassItem(codepoint, codepoint)]) && r == |ranges| - 1
    {
      r := NewRange(codepoint);
      if current != INVALID { ranges := ranges[current := ranges[current].(next := r)]; }
      ChainPush(base, items, codepoint);
    }

    /** One character of a class whose first code point has been taken. */
    method ClassCharacter(ds: CodeStream, codepoint: Code) returns (ok: bool, c: Code)
      requires ds.Valid() && ds.pos > 0 && ds.source[ds.pos - 1] == codepoint
      modifies ds
      ensures ds.Valid() && ds.pos >= old(ds.pos)
      ensures ElementAt(ds.source, old(ds.pos) - 1) == if ok then Some((c, ds.pos)) else None
    {
      if codepoint != '\\' as int { return true, codepoint; }
      if ds.Peek() == 'b' as int {
        var b := ds.Take();
        return true, 0x08;
      }
      ok, c := CharacterEscape(ds);
    }

    /** A character class after its opening bracket. */
    method ParseRange(ds: CodeStream) returns (ok: bool, range: nat)
      requires ds.Valid() && |ranges| + |ds.source| - ds.pos < INVALID
      modifies this`ranges, ds
      ensures ds.Valid() && ds.pos >= old(ds.pos)
      ensures ClassAt(ds.source, old(ds.pos)).Some? ==>
        var (sym, k) := ClassAt(ds.source, old(ds.pos)).value;
        ok && ds.pos == k && range == |old(ranges)| && sym.items != [] && |sym.items| <= k - old(ds.pos)
        && ranges == Flagged(old(ranges) + Chain(|old(ranges)|, sym.items), |old(ranges)|, sym.negated)
    {
      hide Rest, ItemsAt, ItemFrom, RangeFrom, Prepend, Chain;
      ghost var base, first := ranges, ds.pos;
      ghost var begin := if IsAt(ds.source, first, '^') then first + 1 else first;
      ghost var target := ItemsAt(ds.source, begin);
      ghost var items: seq<ClassItem> := [];
      var isBegin, negate, step := true, false, 0;
      var start, current := INVALID, INVALID;
      RestStart(ds.source, begin);
      while true
        invariant ds.Valid() && first <= ds.pos && 0 <= step <= 2 && (items == [] ==> step == 0)
        invariant isBegin ==> ds.pos == first && !negate && items == [] && step == 0
        invariant !isBegin ==> negate == IsAt(ds.source, first, '^')
        invariant !isBegin || !IsAt(ds.source, first, '^') ==>
          begin <= ds.pos && target == Rest(ds.source, ds.pos, step, items)
        invariant step > 0 ==> items[|items| - 1].first == items[|items| - 1].last
        invariant |items| + (if step == 2 then 1 else 0) <= ds.pos - first
        invariant ranges == base + Chain(|base|, items)
        invariant start == if items == [] then INVALID else |base|
        invariant current == if items == [] then INVALID else |ranges| - 1
        decreases |ds.source| - ds.pos
      {
        ghost var at := ds.pos;
        if !isBegin || !IsAt(ds.source, first, '^') { RestEnd(ds.source, at, step, items); }
        var codepoint := ds.Take();
        if codepoint == 0 { return false, INVALID; }
        if isBegin {
          isBegin := false;
          if codepoint == '^' as int {
            negate := true;
            continue;
          }
        }
        if codepoint == ']' as int {
          if start == INVALID { return false, INVALID; }
          if step == 2 {
            current := LinkRange('-' as int, current, base, items);
            items := items + [ClassItem('-' as int, '-' as int)];
          }
          if negate { ranges := ranges[start := ranges[start].(start := ranges[start].start + NEGATION)]; }
          return true, start;
        }
        var known, c := ClassCharacter(ds, codepoint);
        if !known { return false, INVALID; }
        RestElement(ds.source, at, step, items, c, ds.pos);
        if step == 1 && c == '-' as int {
          step := 2;
        } else if step <= 1 {
          current := LinkRange(c, current, base, items);
          if start == INVALID { start := current; }
          items := items + [ClassItem(c, c)];
          step := 1;
        } else {
          ChainEnd(base, items, c);
          ranges := ranges[current := ranges[current].(end := c)];
          items := items[|items| - 1 := items[|items| - 1].(last := c)];
          step := 0;
        }
      }
    }

    /** Evaluates operators from the top of the operator stack. */
    method EvalWhile(stop: Stop)
      requires Valid() && Reduce(Res(), operators, stop).Some?
      requires Total(Reduce(Res(), operators, stop).value.0) + 1 < INVALID
      modifies this`states, this`operands, this`parts, this`operators
      ensures Valid() && Reduce(old(Res()), old(operators), stop) == Some((Res(), operators))
    {
      hide FragOk, StackOk, Total, Reduce, Apply;
      ghost var goal := Reduce(Res(), operators, stop);
      while |operators| > 0 && Pops(stop, operators[|operators| - 1])
        invariant Valid() && Reduce(Res(), operators, stop) == goal
        decreases |operators|
      {
        ReduceGrows(Res(), operators, stop);
        ReduceStep(Res(), operators, stop);
        StateTotal();
        var op := operators[|operators| - 1];
        operators := operators[..|operators| - 1];
        var ok := Eval(op);
      }
      ReduceStep(Res(), operators, stop);
    }

    /** Counts an atom and joins it to the one before it, if any. */
    method ImplicitConcatenation()
      requires |atomCounts| > 0
      modifies this`operators, this`atomCounts
      ensures RegexMachine.ImplicitConcatenation(old(Machine())) == Some(Machine())
    {
      var n := |atomCounts|;
      if atomCounts[n - 1] > 0 { operators := operators + [Concatenation]; }
      atomCounts := atomCounts[n - 1 := atomCounts[n - 1] + 1];
    }

    /** What the compiler knows before a token: it can be taken, and the result fits. */
    ghost predicate Ready(t: Token)
      reads this
    {
      Valid() && Step(Machine(), t).Some? && Total(Step(Machine(), t).value.operands) + 1 < INVALID
    }

    /** The states in use before a token that can be taken. */
    lemma ReadyCount(t: Token)
      requires Ready(t)
      ensures |states| == Total(Res()) && |operands| == |Res()|
      ensures |states| + 1 < INVALID
    {
      hide FragOk;
      StackSize(states, ranges, operands, parts);
      StepGrows(Machine(), t);
    }

    method ParseAtom(codepoint: nat, ghost sym: Sym)
      requires Ready(SymToken(sym))
      requires (codepoint == ANY_CLASS && sym == Any) || (codepoint <= 0x10FFFF && sym.Literal? && sym.code == codepoint)
      modifies this`states, this`operands, this`parts, this`operators, this`atomCounts
      ensures Valid() && Step(old(Machine()), SymToken(sym)) == Some(Machine())
    {
      ReadyCount(SymToken(sym));
      hide FragOk, StackOk;
      PushOperand(codepoint, sym);
      ImplicitConcatenation();
    }

    method ParseBar()
      requires Ready(BarToken)
      modifies this`states, this`operands, this`parts, this`operators, this`atomCounts
      ensures Valid() && Step(old(Machine()), BarToken) == Some(Machine())
    {
      hide FragOk, StackOk, Reduce;
      EvalWhile(AtAlternation);
      operators := operators + [Alternation];
      atomCounts := atomCounts[|atomCounts| - 1 := 0];
    }

    method ParseOpen()
      requires Ready(OpenToken)
      modifies this`operators, this`atomCounts
      ensures Valid() && Step(old(Machine()), OpenToken) == Some(Machine())
    {
      operators := operators + [LeftParenthesis];
      atomCounts := atomCounts + [0];
    }

    method ParseClose()
      requires Ready(CloseToken)
      modifies this`states, this`operands, this`parts, this`operators, this`atomCounts
      ensures Valid() && Step(old(Machine()), CloseToken) == Some(Machine())
    {
      hide FragOk, StackOk, Reduce;
      EvalWhile(AtParenthesis);
      operators := operators[..|operators| - 1];
      atomCounts := atomCounts[..|atomCounts| - 1];
      ImplicitConcatenation();
    }

    /** `?`, `*` and `+` apply to the top operand at once. */
    method ParseSuffix(op: Operator, ghost min: nat, ghost max: Bound)
      requires Ready(QuantifierToken(min, max))
      requires (op, min, max) in {(ZeroOrOne, 0, Upto(1)), (ZeroOrMore, 0, Unlimited), (OneOrMore, 1, Unlimited)}
      modifies this`states, this`operands, this`parts
      ensures Valid() && Step(old(Machine()), QuantifierToken(min, max)) == Some(Machine())
    {
      ReadyCount(QuantifierToken(min, max));
      hide FragOk, StackOk;
      var ok := Eval(op);
    }

    /** The bounds of a counted quantifier, up to its closing brace. */
    method ParseBounds(ds: CodeStream, ghost n: nat, ghost m: nat, ghost k: nat) returns (ok: bool, min: nat, max: nat)
      requires ds.Valid() && BoundsAt(ds.source, ds.pos) == Some((n, m, k))
      modifies ds
      ensures ok && min == n <= m == max && ds.Valid() && ds.Peek() == '}' as int && ds.pos + 1 == k
    {
      hide NumberAt;
      max := 0;
      ok, min := ParseUnsigned(ds);
      if !ok { return; }
      if ds.Peek() == ',' as int {
        var comma := ds.Take();
        if ds.Peek() == '}' as int {
          max := INFINITY;
        } else {
          ok, max := ParseUnsigned(ds);
          if !ok || max < min { return false, min, max; }
        }
      } else {
        max := min;
      }
    }

    /** A quantifier that can be taken leaves room, and changes the top operand. */
    lemma CountedFits(n: nat, max: Bound)
      requires Ready(QuantifierToken(n, max))
      ensures |operands| == |Res()| > 0 && BoundOk(n, max)
      ensures
        var base, top := Res()[..|Res()| - 1], Res()[|Res()| - 1];
        && Total(base) + Size(Repeat(top, n, max)) + 1 < INVALID
        && Step(Machine(), QuantifierToken(n, max)) == Some(Machine().(operands := base + [Repeat(top, n, max)]))
    {
      ReadyCount(QuantifierToken(n, max));
      ghost var top := |Res()| - 1;
      TotalPush(Res()[..top], Repeat(Res()[top], n, max));
    }

    /** A counted quantifier after its opening brace. */
    method ParseCounted(ds: CodeStream, ghost n: nat, ghost m: nat, ghost k: nat) returns (ok: bool)
      requires ds.Valid() && BoundsAt(ds.source, ds.pos) == Some((n, m, k))
      requires Ready(QuantifierToken(n, BoundOf(m)))
      modifies this`states, this`operands, this`parts, ds
      ensures ok && ds.Valid() && ds.pos == k
      ensures Valid() && Step(old(Machine()), QuantifierToken(n, BoundOf(m))) == Some(Machine())
    {
      hide FragOk, StackOk, BoundsAt, Step, Size, Total;
      CountedFits(n, BoundOf(m));
      var min, max;
      ok, min, max := ParseBounds(ds, n, m, k);
      if !ok { return; }
      ok := EvalQuantifier(min, max);
      if !ok || ds.Peek() != '}' as int { return false; }
      var brace := ds.Take();
    }

    /** A character class after its opening bracket. */
    method ParseClass(ds: CodeStream, ghost sym: Sym, ghost k: nat) returns (ok: bool)
      requires ds.Valid() && ClassAt(ds.source, ds.pos) == Some((sym, k))
      requires Ready(SymToken(sym)) && |ranges| + |ds.source| - ds.pos < INVALID
      modifies this`states, this`ranges, this`operands, this`parts, this`operators, this`atomCounts, ds
      ensures ok && ds.Valid() && ds.pos == k && |ranges| <= |old(ranges)| + (k - old(ds.pos))
      ensures Valid() && Step(old(Machine()), SymToken(sym)) == Some(Machine())
    {
      ReadyCount(SymToken(sym));
      ghost var rs := ranges;
      assert RangesOk(rs);
      var range;
      ok, range := ParseRange(ds);
      if !ok { return; }
      hide FragOk, StackOk, Flagged, Chain;
      ClassStack(states, rs, ranges, operands, parts, sym);
      var s := NewState(INVALID, INVALID, RANGE_CLASS);
      states := states[s := states[s].(rangeStart := range)];
      assert states == old(states) + [State(INVALID, INVALID, |rs|, RANGE_CLASS)];
      operands := operands + [Frag(s, s, s)];
      PatternsPush(parts, Part(Atom(sym), [s]));
      parts := parts + [Part(Atom(sym), [s])];
      assert Machine() == old(Machine()).(operands := old(Res()) + [Atom(sym)]);
      ImplicitConcatenation();
    }

    /** Reads and acts on one token. */
    method ParseToken(ds: CodeStream, ghost t: Token, ghost k: nat) returns (ok: bool)
      requires ds.Valid() && ds.pos < |ds.source| && TokenAt(ds.source, ds.pos) == Some((t, k))
      requires Ready(t) && |ranges| <= ds.pos && |ds.source| < INVALID
      modifies this`states, this`ranges, this`operands, this`parts, this`operators, this`atomCounts, this`anchorBegin, this`anchorEnd, ds
      ensures ok && ds.Valid() && ds.pos == k && |ranges| <= k
      ensures Valid() && Step(old(Machine()), t) == Some(Machine())
      ensures anchorBegin == (old(anchorBegin) || t == AnchorToken(true))
      ensures anchorEnd == (old(anchorEnd) || t == AnchorToken(false))
    {
      hide FragOk, StackOk, Step, BoundsAt, ClassAt, Escaped;
      ok := true;
      var codepoint := ds.Take();
      if codepoint == '^' as int {
        anchorBegin := true;
        StepAnchor(Machine(), true);
      } else if codepoint == '$' as int {
        anchorEnd := true;
        StepAnchor(Machine(), false);
      } else if codepoint == '|' as int {
        ParseBar();
      } else if codepoint == '(' as int {
        ParseOpen();
      } else if codepoint == ')' as int {
        ParseClose();
      } else if codepoint == '?' as int {
        ParseSuffix(ZeroOrOne, 0, Upto(1));
      } else if codepoint == '*' as int {
        ParseSuffix(ZeroOrMore, 0, Unlimited);
      } else if codepoint == '+' as int {
        ParseSuffix(OneOrMore, 1, Unlimited);
      } else if codepoint == '{' as int {
        ghost var bounds := BoundsAt(ds.source, ds.pos).value;
        ok := ParseCounted(ds, bounds.0, bounds.1, bounds.2);
      } else if codepoint == '.' as int {
        ParseAtom(ANY_CLASS, Any);
      } else if codepoint == '[' as int {
        ok := ParseClass(ds, t.sym, k);
      } else if codepoint == '\\' as int {
        var escaped;
        ok, escaped := CharacterEscape(ds);
        if !ok { return; }
        ParseAtom(escaped, Literal(escaped));
      } else {
        ParseAtom(codepoint, Literal(codepoint));
      }
    }

    lemma StepAnchor(c: Config, begin: bool)
      ensures Step(c, AnchorToken(begin)) == Some(c)
    {
    }

    /** Reads the whole pattern, whose tokens are `tokens` and whose meaning is `re`. */
    method Parse(ds: CodeStream, ghost tokens: seq<Token>, ghost re: Re)
      requires ds.Valid() && ds.pos == 0 && |ds.source| < INVALID
      requires Valid() && Machine() == START && ranges == [] && root == INVALID && !anchorBegin && !anchorEnd
      requires TokensFrom(ds.source, 0) == Some(tokens) && Compile(tokens) == Some(re) && Size(re) + 1 < INVALID
      modifies this, ds
      ensures IsValid() && Finished(states, ranges, root, re)
      ensures (anchorBegin <==> AnchorToken(true) in tokens) && (anchorEnd <==> AnchorToken(false) in tokens)
    {
      hide FragOk, StackOk, Step, TokenAt, Size;
      ghost var rest := tokens;
      while ds.Peek() != 0
        invariant ds.Valid() && Valid() && root == INVALID && |ranges| <= ds.pos
        invariant TokensFrom(ds.source, ds.pos) == Some(rest)
        invariant Run(Machine(), rest) == Run(START, tokens)
        invariant anchorBegin || AnchorToken(true) in rest <==> AnchorToken(true) in tokens
        invariant anchorEnd || AnchorToken(false) in rest <==> AnchorToken(false) in tokens
        decreases |ds.source| - ds.pos
      {
        ghost var t, k := TokenAt(ds.source, ds.pos).value.0, TokenAt(ds.source, ds.pos).value.1;
        TokenReady(rest, re);
        var ok := ParseToken(ds, t, k);
        rest := rest[1..];
        if !ok { return; }
      }
      FinishReady(re);
      EvalWhile(AtEnd);
      StateTotal();
      if |operands| == 1 { Link(re); }
    }

    /** A pattern that compiles can take its next token, and stays within bounds. */
    lemma TokenReady(rest: seq<Token>, re: Re)
      requires Valid() && rest != [] && Size(re) + 1 < INVALID
      requires Run(Machine(), rest).Some? && Finish(Run(Machine(), rest).value) == Some(re)
      ensures Ready(rest[0]) && Run(Step(Machine(), rest[0]).value, rest[1..]) == Run(Machine(), rest)
    {
      hide FragOk, StackOk, Step, Size;
      var c := Step(Machine(), rest[0]).value;
      RunGrows(c, rest[1..]);
      FinishGrows(Run(c, rest[1..]).value, re);
    }

    lemma FinishReady(re: Re)
      requires Valid() && Size(re) + 1 < INVALID && Finish(Machine()) == Some(re)
      ensures Reduce(Res(), operators, AtEnd).Some?
      ensures Reduce(Res(), operators, AtEnd).value.0 == [re]
      ensures Total(Reduce(Res(), operators, AtEnd).value.0) + 1 < INVALID
    {
      hide FragOk, StackOk, Size, Reduce;
      var rs := Reduce(Res(), operators, AtEnd).value.0;
      assert rs == [] + [re];
      TotalPush([], re);
    }

    /** What linking the only operand to a matching state achieves. */
    lemma LinkReady(re: Re)
      requires Valid() && Res() == [re] && Size(re) + 1 < INVALID
      ensures |operands| == |parts| == 1 && |states| + 1 < INVALID && operands[0].start < INVALID
      ensures OutList(states + [MATCH], operands[0].out, parts[0].outs)
      ensures Finished(PatchStates(states + [MATCH], parts[0].outs, |states|), ranges, operands[0].start, re)
    {
      StateTotal();
      assert Res() == [] + [re];
      TotalPush([], re);
      StackTop(states, ranges, operands, parts);
      OperandOuts(states, ranges, operands, parts, 0);
      assert operands[0].minIndex == 0 && operands[0].start < |states|;
      assert parts[0].re == Res()[0];
      hide FragOk, StackOk, Finished, OutList, Size, Total;
      FinishFrag(states, ranges, operands[0], parts[0]);
      OutListExtends(states, states + [MATCH], operands[0].out, parts[0].outs);
    }

    /** Links the only operand to the matching state. */
    method Link(ghost re: Re)
      requires Valid() && Res() == [re] && Size(re) + 1 < INVALID
      modifies this`states, this`operands, this`parts, this`root
      ensures IsValid() && Finished(states, ranges, root, re)
    {
      hide Finished, OutList, StackOk, PatchStates, Patterns, Size;
      LinkReady(re);
      var e := operands[0];
      ghost var outs := parts[0].outs;
      operands, parts := [], [];
      var s := NewState(INVALID, INVALID, 0);
      Patch(e.out, s, outs);
      root := e.start;
    }

    /** The states from `from` on, renumbered to follow the existing ones. */
    method CopyStates(from: nat) returns (copy: seq<State>)
      requires from <= |states|
      ensures |copy| == |states| - from
      ensures forall i :: 0 <= i < |copy| ==> copy[i] == ShiftState(states[from + i], |copy|)
    {
      copy := states[from..];
      var count, j := |copy|, 0;
      while j < count
        invariant j <= count == |copy|
        invariant forall i :: 0 <= i < count ==> copy[i] == if i < j then ShiftState(states[from + i], count) else states[from + i]
      {
        if copy[j].out != INVALID { copy := copy[j := copy[j].(out := copy[j].out + count)]; }
        if copy[j].out1 != INVALID { copy := copy[j := copy[j].(out1 := copy[j].out1 + count)]; }
        j := j + 1;
      }
    }
  }

  lemma OutListExtends(g: seq<State>, g': seq<State>, l: nat, outs: seq<nat>)
    requires OutList(g, l, outs) && g <= g'
    ensures OutList(g', l, outs)
  {
  }

  lemma OutLink(g: seq<State>, l: nat, outs: seq<nat>, k: nat)
    requires OutList(g, l, outs) && k < |outs| - 1
    ensures g[outs[k]].out == outs[k + 1] < |g|
  {
  }

  /** Only the last state of an out-list ends it. */
  lemma LastOut(g: seq<State>, l: nat, outs: seq<nat>, k: nat)
    requires OutList(g, l, outs) && |g| < INVALID && k < |outs| && g[outs[k]].out == INVALID
    ensures k == |outs| - 1
  {
    if k < |outs| - 1 { OutLink(g, l, outs, k); }
  }

  function CopiedOuts(outs: seq<nat>, k: nat): (outs': seq<nat>)
    ensures ClonedOuts(outs, outs', k)
  {
    seq(|outs|, i requires 0 <= i < |outs| => outs[i] + k)
  }
}