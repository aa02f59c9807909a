/** The automaton of the regular expression engine: states, the paths through them, and
    what patching, cloning and renumbering states does to the strings they accept. */
module RegexNfa {
  import opened RegexSyntax

  const INVALID: nat := 0xFFFF_FFFF
  const ANY_CLASS: nat := 0xFFFF_FFFF
  const RANGE_CLASS: nat := 0xFFFF_FFFE
  const NEGATION: nat := 0x8000_0000

  /** One range of a character class; `start` carries the negation flag in its top bit. */
  datatype Range = Range(start: nat, end: nat, next: nat)

  /** A split state has a valid `out1`; a matching state has neither edge. */
  datatype State = State(out: nat, out1: nat, rangeStart: nat, codepoint: nat)

  /** States, character ranges, and the states whose `out` edge still dangles. */
  datatype Net = Net(states: seq<State>, ranges: seq<Range>, exits: set<nat>)

  // ---------------------------------------------------------------- characters

  /** Range chains only run forward, so they are acyclic. */
  ghost predicate RangesOk(rs: seq<Range>) {
    |rs| < INVALID && forall i :: 0 <= i < |rs| ==> rs[i].next == INVALID || i < rs[i].next < |rs|
  }

  /** Some range of the chain from `i` on contains `c`. */
  ghost predicate RangeHit(rs: seq<Range>, i: nat, c: Code)
    requires RangesOk(rs)
    decreases |rs| - i
  {
    i < |rs| && (rs[i].start % NEGATION <= c <= rs[i].end || RangeHit(rs, rs[i].next, c))
  }

  ghost predicate ClassMatches(rs: seq<Range>, i: nat, c: Code)
    requires RangesOk(rs)
  {
    i < |rs| && RangeHit(rs, i, c) != (rs[i].start / NEGATION % 2 == 1)
  }

  ghost predicate StateMatches(st: State, rs: seq<Range>, c: Code)
    requires RangesOk(rs)
  {
    st.codepoint == c || st.codepoint == ANY_CLASS
    || (st.codepoint == RANGE_CLASS && ClassMatches(rs, st.rangeStart, c))
  }

  lemma {:induction false} RangeHitExtends(rs: seq<Range>, rs': seq<Range>, i: nat, c: Code)
    requires RangesOk(rs) && RangesOk(rs') && rs <= rs' && i < |rs|
    ensures RangeHit(rs, i, c) <==> RangeHit(rs', i, c)
    decreases |rs| - i
  {
    if rs[i].next < |rs| { RangeHitExtends(rs, rs', rs[i].next, c); }
  }

  lemma StateMatchesExtends(st: State, rs: seq<Range>, rs': seq<Range>, c: Code)
    requires RangesOk(rs) && RangesOk(rs') && rs <= rs'
    requires st.codepoint == RANGE_CLASS ==> st.rangeStart < |rs|
    ensures StateMatches(st, rs, c) <==> StateMatches(st, rs', c)
  {
    if st.codepoint == RANGE_CLASS { RangeHitExtends(rs, rs', st.rangeStart, c); }
  }

  // ---------------------------------------------------------------- paths

  /** A path of fewer than `n` steps from state `p` reads all of `s` and then leaves through
      a dangling edge or stands on a matching state. */
  ghost predicate Path(N: Net, p: nat, s: Word, n: nat)
    requires RangesOk(N.ranges)
    decreases n
  {
    n > 0 && p < |N.states| &&
    var st := N.states[p];
    if p !in N.exits && st.out == INVALID then s == []
    else if st.out1 != INVALID then
      (if p in N.exits then s == [] else Path(N, st.out, s, n - 1)) || Path(N, st.out1, s, n - 1)
    else
      s != [] && StateMatches(st, N.ranges, s[0])
      && (if p in N.exits then s[1..] == [] else Path(N, st.out, s[1..], n - 1))
  }

  ghost predicate Accepts(N: Net, p: nat, s: Word)
    requires RangesOk(N.ranges)
  {
    exists n: nat :: Path(N, p, s, n)
  }

  lemma {:induction false} PathGrows(N: Net, p: nat, s: Word, n: nat, m: nat)
    requires RangesOk(N.ranges) && Path(N, p, s, n) && n <= m
    ensures Path(N, p, s, m)
    decreases n
  {
    var st := N.states[p];
    if p in N.exits || st.out != INVALID {
      if st.out1 != INVALID {
        if Path(N, st.out1, s, n - 1) { PathGrows(N, st.out1, s, n - 1, m - 1); }
        if p !in N.exits && Path(N, st.out, s, n - 1) { PathGrows(N, st.out, s, n - 1, m - 1); }
      } else if p !in N.exits {
        PathGrows(N, st.out, s[1..], n - 1, m - 1);
      }
    }
  }

  /** What acceptance means at a split state. */
  lemma AcceptsSplit(N: Net, p: nat, s: Word)
    requires RangesOk(N.ranges) && p < |N.states| && N.states[p].out1 != INVALID
    requires p in N.exits || N.states[p].out != INVALID
    ensures Accepts(N, p, s) <==>
      (if p in N.exits then s == [] else Accepts(N, N.states[p].out, s)) || Accepts(N, N.states[p].out1, s)
  {
    var st := N.states[p];
    if Accepts(N, p, s) {
      var n: nat :| Path(N, p, s, n);
      assert (p !in N.exits && Path(N, st.out, s, n - 1)) || Path(N, st.out1, s, n - 1) || (p in N.exits && s == []);
    }
    if p in N.exits && s == [] { assert Path(N, p, s, 1); }
    if p !in N.exits && Accepts(N, st.out, s) {
      var n: nat :| Path(N, st.out, s, n);
      assert Path(N, p, s, n + 1);
    }
    if Accepts(N, st.out1, s) {
      var n: nat :| Path(N, st.out1, s, n);
      assert Path(N, p, s, n + 1);
    }
  }

  /** What acceptance means at a character state. */
  lemma AcceptsChar(N: Net, p: nat, s: Word)
    requires RangesOk(N.ranges) && p < |N.states| && N.states[p].out1 == INVALID
    requires p in N.exits || N.states[p].out != INVALID
    ensures Accepts(N, p, s) <==>
      s != [] && StateMatches(N.states[p], N.ranges, s[0])
      && (if p in N.exits then s[1..] == [] else Accepts(N, N.states[p].out, s[1..]))
  {
    var st := N.states[p];
    if Accepts(N, p, s) {
      var n: nat :| Path(N, p, s, n);
      if p !in N.exits { assert Path(N, st.out, s[1..], n - 1); }
    }
    if s != [] && StateMatches(st, N.ranges, s[0]) {
      if p in N.exits {
        if s[1..] == [] { assert Path(N, p, s, 1); }
      } else if Accepts(N, st.out, s[1..]) {
        var n: nat :| Path(N, st.out, s[1..], n);
        assert Path(N, p, s, n + 1);
      }
    }
  }

  lemma AcceptsMatching(N: Net, p: nat, s: Word)
    requires RangesOk(N.ranges) && p < |N.states| && p !in N.exits && N.states[p].out == INVALID
    ensures Accepts(N, p, s) <==> s == []
  {
    if s == [] { assert Path(N, p, s, 1); }
  }

  // ---------------------------------------------------------------- locality

  predicate Local(st: State, dangling: bool, lo: nat, hi: nat, rangeCount: nat) {
    && (dangling || (lo <= st.out < hi && st.out != INVALID))
    && (st.out1 == INVALID || lo <= st.out1 < hi)
    && (st.codepoint == RANGE_CLASS ==> st.rangeStart < rangeCount)
  }

  /** The states `[lo, hi)` form a unit: every edge that does not dangle stays inside. */
  ghost predicate Closed(N: Net, lo: nat, hi: nat) {
    hi <= |N.states|
    && forall p :: lo <= p < hi ==> Local(N.states[p], p in N.exits, lo, hi, |N.ranges|)
  }

  function ShiftIndex(i: nat, k: nat): nat {
    if i == INVALID then i else i + k
  }

  function ShiftState(st: State, k: nat): State {
    st.(out := ShiftIndex(st.out, k), out1 := ShiftIndex(st.out1, k))
  }

  /** `st'` is `st` renumbered by `k`, up to the link stored in a dangling edge. */
  predicate SameState(st: State, st': State, k: nat, dangling: bool) {
    (dangling || st'.out == ShiftIndex(st.out, k)) && st' == ShiftState(st, k).(out := st'.out)
  }

  /** The states `[lo, hi)` of `N` appear in `N'` at distance `k`. */
  ghost predicate Copied(N: Net, N': Net, lo: nat, hi: nat, k: nat) {
    RangesOk(N.ranges) && RangesOk(N'.ranges) && N.ranges <= N'.ranges
    && hi + k <= |N'.states| < INVALID
    && hi <= |N.states| < INVALID
    && forall p :: lo <= p < hi ==> CopiedState(N, N', p, k)
  }

  predicate CopiedState(N: Net, N': Net, p: nat, k: nat) {
    p < |N.states| && p + k < |N'.states|
    && (p in N.exits <==> p + k in N'.exits)
    && SameState(N.states[p], N'.states[p + k], k, p in N.exits)
  }

  lemma {:induction false} PathCopied(N: Net, N': Net, lo: nat, hi: nat, k: nat, p: nat, s: Word, n: nat)
    requires Closed(N, lo, hi) && Copied(N, N', lo, hi, k) && lo <= p < hi
    ensures Path(N, p, s, n) <==> Path(N', p + k, s, n)
    decreases n
  {
    if n > 0 {
      assert CopiedState(N, N', p, k);
      var st := N.states[p];
      if st.out1 != INVALID {
        PathCopied(N, N', lo, hi, k, st.out1, s, n - 1);
        if p !in N.exits { PathCopied(N, N', lo, hi, k, st.out, s, n - 1); }
      } else if s != [] {
        StateMatchesExtends(st, N.ranges, N'.ranges, s[0]);
        assert StateMatches(st, N'.ranges, s[0]) == StateMatches(N'.states[p + k], N'.ranges, s[0]);
        if p !in N.exits { PathCopied(N, N', lo, hi, k, st.out, s[1..], n - 1); }
      }
    }
  }

  lemma AcceptsCopied(N: Net, N': Net, lo: nat, hi: nat, k: nat, p: nat, s: Word)
    requires Closed(N, lo, hi) && Copied(N, N', lo, hi, k) && lo <= p < hi
    ensures Accepts(N, p, s) <==> Accepts(N', p + k, s)
  {
    if Accepts(N, p, s) {
      var n: nat :| Path(N, p, s, n);
      PathCopied(N, N', lo, hi, k, p, s, n);
    }
    if Accepts(N', p + k, s) {
      var n: nat :| Path(N', p + k, s, n);
      PathCopied(N, N', lo, hi, k, p, s, n);
    }
  }

  // ---------------------------------------------------------------- patching

  /** In `N'` the dangling edges of `[lo, hi)` have been made to lead to `q`. */
  ghost predicate Patched(N: Net, N': Net, lo: nat, hi: nat, q: nat) {
    RangesOk(N.ranges) && N.ranges == N'.ranges && q != INVALID
    && hi <= |N'.states|
    && hi <= |N.states|
    && forall p :: lo <= p < hi ==>
        && p !in N'.exits
        && N'.states[p] == (if p in N.exits then N.states[p].(out := q) else N.states[p])
  }

  /** A path after patching is a path to an exit followed by a path from `q`. */
  lemma {:induction false} PatchSplit(N: Net, N': Net, lo: nat, hi: nat, q: nat, p: nat, s: Word, n: nat) returns (i: nat)
    requires Closed(N, lo, hi) && Patched(N, N', lo, hi, q) && lo <= p < hi
    requires Path(N', p, s, n)
    ensures i <= |s| && Path(N, p, s[..i], n) && Path(N', q, s[i..], n - 1)
    decreases n
  {
    var st := N.states[p];
    if st.out1 != INVALID {
      if Path(N', N'.states[p].out, s, n - 1) {
        if p in N.exits {
          i := 0;
          assert s[..0] == [] && s[0..] == s;
        } else {
          i := PatchSplit(N, N', lo, hi, q, st.out, s, n - 1);
          PathGrows(N', q, s[i..], n - 2, n - 1);
        }
      } else {
        i := PatchSplit(N, N', lo, hi, q, st.out1, s, n - 1);
        PathGrows(N', q, s[i..], n - 2, n - 1);
      }
    } else if p in N.exits {
      i := 1;
      assert s[..1][0] == s[0] && s[..1][1..] == [];
    } else {
      var j := PatchSplit(N, N', lo, hi, q, st.out, s[1..], n - 1);
      i := j + 1;
      assert s[..i][1..] == s[1..][..j] && s[i..] == s[1..][j..] && s[..i][0] == s[0];
      PathGrows(N', q, s[i..], n - 2, n - 1);
    }
  }

  lemma {:induction false} PatchJoin(N: Net, N': Net, lo: nat, hi: nat, q: nat, p: nat, u: Word, v: Word, n: nat, m: nat)
    requires Closed(N, lo, hi) && Patched(N, N', lo, hi, q) && lo <= p < hi
    requires Path(N, p, u, n) && Path(N', q, v, m)
    ensures Path(N', p, u + v, n + m)
    decreases n
  {
    var st := N.states[p];
    if st.out1 != INVALID {
      if p in N.exits && u == [] {
        assert u + v == v;
        PathGrows(N', q, v, m, n + m - 1);
      } else if p !in N.exits && Path(N, st.out, u, n - 1) {
        PatchJoin(N, N', lo, hi, q, st.out, u, v, n - 1, m);
      } else {
        PatchJoin(N, N', lo, hi, q, st.out1, u, v, n - 1, m);
      }
    } else {
      assert (u + v)[0] == u[0] && (u + v)[1..] == u[1..] + v;
      if p in N.exits {
        assert (u + v)[1..] == v;
        PathGrows(N', q, v, m, n + m - 1);
      } else {
        PatchJoin(N, N', lo, hi, q, st.out, u[1..], v, n - 1, m);
      }
    }
  }

  ghost function Language(N: Net, p: nat): Words
    requires RangesOk(N.ranges)
  {
    iset s: Word | Accepts(N, p, s)
  }

  /** Patching to `q` concatenates with the language at `q`. */
  lemma PatchLanguage(N: Net, N': Net, lo: nat, hi: nat, q: nat, p: nat)
    requires Closed(N, lo, hi) && Patched(N, N', lo, hi, q) && lo <= p < hi
    ensures Language(N', p) == Conc(Language(N, p), Language(N', q))
  {
    forall s | s in Language(N', p) ensures s in Conc(Language(N, p), Language(N', q)) {
      var n: nat :| Path(N', p, s, n);
      var i := PatchSplit(N, N', lo, hi, q, p, s, n);
      assert s[..i] in Language(N, p) && s[i..] in Language(N', q);
    }
    forall s | s in Conc(Language(N, p), Language(N', q)) ensures s in Language(N', p) {
      var u, v := ConcElim(Language(N, p), Language(N', q), s);
      var n: nat :| Path(N, p, u, n);
      var m: nat :| Path(N', q, v, m);
      PatchJoin(N, N', lo, hi, q, p, u, v, n, m);
    }
  }

  // ---------------------------------------------------------------- loops

  /** `N'` is `N` patched back to the split state `q`, whose other edge enters at `start`. */
  ghost predicate Looped(N: Net, N': Net, lo: nat, hi: nat, start: nat, q: nat) {
    Closed(N, lo, hi) && Patched(N, N', lo, hi, q) && lo <= start < hi
    && q < |N'.states| && q in N'.exits && N'.states[q].out1 == start && start != INVALID
  }

  /** Going round the loop reads a power of the body's language. */
  lemma {:induction false} LoopPath(N: Net, N': Net, lo: nat, hi: nat, start: nat, q: nat, s: Word, n: nat) returns (k: nat)
    requires Looped(N, N', lo, hi, start, q) && Path(N', q, s, n)
    ensures s in Power(Language(N, start), k)
    decreases n
  {
    if s == [] {
      k := 0;
    } else {
      var i := PatchSplit(N, N', lo, hi, q, start, s, n - 1);
      var j := LoopPath(N, N', lo, hi, start, q, s[i..], n - 2);
      assert s[..i] in Language(N, start);
      ConcIntro(Language(N, start), Power(Language(N, start), j), s[..i], s[i..]);
      assert s[..i] + s[i..] == s;
      k := j + 1;
    }
  }

  lemma {:induction false} LoopPower(N: Net, N': Net, lo: nat, hi: nat, start: nat, q: nat, s: Word, k: nat)
    requires Looped(N, N', lo, hi, start, q) && s in Power(Language(N, start), k)
    ensures Accepts(N', q, s)
    decreases k
  {
    if k == 0 {
      assert Path(N', q, [], 1);
    } else {
      var u, v := ConcElim(Language(N, start), Power(Language(N, start), k - 1), s);
      LoopPower(N, N', lo, hi, start, q, v, k - 1);
      PatchLanguage(N, N', lo, hi, q, start);
      ConcIntro(Language(N, start), Language(N', q), u, v);
      AcceptsSplit(N', q, s);
    }
  }

  /** The language at the loop's split state is the iteration of the body's language. */
  lemma LoopLanguage(N: Net, N': Net, lo: nat, hi: nat, start: nat, q: nat)
    requires Looped(N, N', lo, hi, start, q)
    ensures Language(N', q) == Powers(Language(N, start), 0, Unlimited)
    ensures Language(N', start) == Powers(Language(N, start), 1, Unlimited)
  {
    var body := Language(N, start);
    forall s ensures s in Language(N', q) <==> s in Powers(body, 0, Unlimited) {
      if s in Language(N', q) {
        var n: nat :| Path(N', q, s, n);
        var k := LoopPath(N, N', lo, hi, start, q, s, n);
      }
      if s in Powers(body, 0, Unlimited) {
        var k: nat :| s in Power(body, k);
        LoopPower(N, N', lo, hi, start, q, s, k);
      }
    }
    PatchLanguage(N, N', lo, hi, q, start);
    PowerOne(body);
    PowersShift(body, 1, 0, Unlimited);
  }

  // ---------------------------------------------------------------- epsilon closure

  /** Following split states from `p` ends within `n` steps: no cycle avoids characters. */
  ghost predicate Shallow(N: Net, p: nat, n: nat)
    decreases n
  {
    n > 0 && p < |N.states| &&
    var st := N.states[p];
    if p !in N.exits && st.out == INVALID then true
    else st.out1 != INVALID ==> Shallow(N, st.out1, n - 1) && (p in N.exits || Shallow(N, st.out, n - 1))
  }

  ghost predicate Settles(N: Net, p: nat) {
    exists n: nat :: Shallow(N, p, n)
  }

  lemma {:induction false} ShallowGrows(N: Net, p: nat, n: nat, m: nat)
    requires Shallow(N, p, n) && n <= m
    ensures Shallow(N, p, m)
    decreases n
  {
    var st := N.states[p];
    if st.out1 != INVALID && (p in N.exits || st.out != INVALID) {
      ShallowGrows(N, st.out1, n - 1, m - 1);
      if p !in N.exits { ShallowGrows(N, st.out, n - 1, m - 1); }
    }
  }

  lemma {:induction false} ShallowCopied(N: Net, N': Net, lo: nat, hi: nat, k: nat, p: nat, n: nat)
    requires Closed(N, lo, hi) && Copied(N, N', lo, hi, k) && lo <= p < hi && Shallow(N, p, n)
    ensures Shallow(N', p + k, n)
    decreases n
  {
    assert CopiedState(N, N', p, k);
    var st := N.states[p];
    if st.out1 != INVALID {
      ShallowCopied(N, N', lo, hi, k, st.out1, n - 1);
      if p !in N.exits { ShallowCopied(N, N', lo, hi, k, st.out, n - 1); }
    }
  }

  lemma {:induction false} ShallowPatched(N: Net, N': Net, lo: nat, hi: nat, q: nat, p: nat, n: nat, m: nat)
    requires Closed(N, lo, hi) && Patched(N, N', lo, hi, q) && lo <= p < hi
    requires Shallow(N, p, n) && Shallow(N', q, m)
    ensures Shallow(N', p, n + m)
    decreases n
  {
    var st := N.states[p];
    if st.out1 != INVALID {
      ShallowPatched(N, N', lo, hi, q, st.out1, n - 1, m);
      if p in N.exits {
        ShallowGrows(N', q, m, n + m - 1);
      } else {
        ShallowPatched(N, N', lo, hi, q, st.out, n - 1, m);
      }
    }
  }

  /** Patching a unit's exits does not matter from states that cannot leave it silently. */
  lemma {:induction false} ShallowInside(N: Net, N': Net, lo: nat, hi: nat, q: nat, p: nat, n: nat)
    requires Closed(N, lo, hi) && Patched(N, N', lo, hi, q) && lo <= p < hi
    requires Shallow(N, p, n) && !Accepts(N, p, [])
    ensures Shallow(N', p, n)
    decreases n
  {
    var st := N.states[p];
    if st.out1 != INVALID {
      AcceptsSplit(N, p, []);
      ShallowInside(N, N', lo, hi, q, st.out1, n - 1);
      ShallowInside(N, N', lo, hi, q, st.out, n - 1);
    }
  }

  lemma PatchSettles(N: Net, N': Net, lo: nat, hi: nat, q: nat, p: nat)
    requires Closed(N, lo, hi) && Patched(N, N', lo, hi, q) && lo <= p < hi
    requires Settles(N, p) && Settles(N', q)
    ensures Settles(N', p)
  {
    var n: nat :| Shallow(N, p, n);
    var m: nat :| Shallow(N', q, m);
    ShallowPatched(N, N', lo, hi, q, p, n, m);
  }

  /** A loop whose body cannot be empty is left, or goes on, only by reading a character. */
  lemma LoopSettles(N: Net, N': Net, lo: nat, hi: nat, start: nat, q: nat)
    requires Looped(N, N', lo, hi, start, q) && Settles(N, start) && [] !in Language(N, start)
    ensures Settles(N', q)
  {
    var n: nat :| Shallow(N, start, n);
    ShallowInside(N, N', lo, hi, q, start, n);
    assert Shallow(N', q, n + 1);
  }

  /** Where the empty word leads through a fragment, silent steps lead back to the patched target. */
  lemma {:induction false} SilentThrough(N: Net, N': Net, lo: nat, hi: nat, q: nat, p: nat, m: nat, n: nat) returns (k: nat)
    requires Closed(N, lo, hi) && Patched(N, N', lo, hi, q) && lo <= p < hi
    requires Path(N, p, [], m) && Shallow(N', p, n)
    ensures k < n && Shallow(N', q, k)
    decreases m
  {
    var st := N.states[p];
    if p in N.exits {
      if Path(N, st.out1, [], m - 1) {
        k := SilentThrough(N, N', lo, hi, q, st.out1, m - 1, n - 1);
      } else {
        k := n - 1;
      }
    } else if Path(N, st.out1, [], m - 1) {
      k := SilentThrough(N, N', lo, hi, q, st.out1, m - 1, n - 1);
    } else {
      k := SilentThrough(N, N', lo, hi, q, st.out, m - 1, n - 1);
    }
  }

  lemma {:induction false} RoundsForever(N: Net, N': Net, lo: nat, hi: nat, start: nat, q: nat, m: nat, n: nat)
    requires Looped(N, N', lo, hi, start, q) && Path(N, start, [], m)
    ensures !Shallow(N', q, n)
    decreases n
  {
    if Shallow(N', q, n) {
      var k := SilentThrough(N, N', lo, hi, q, start, m, n - 1);
      RoundsForever(N, N', lo, hi, start, q, m, k);
    }
  }

  /** Following the silent steps of a loop ends exactly when its body cannot be empty. */
  lemma LoopSettlesExactly(N: Net, N': Net, lo: nat, hi: nat, start: nat, q: nat)
    requires Looped(N, N', lo, hi, start, q) && Settles(N, start)
    ensures Settles(N', q) <==> [] !in Language(N, start)
  {
    if [] in Language(N, start) {
      var m: nat :| Path(N, start, [], m);
      forall n: nat ensures !Shallow(N', q, n) { RoundsForever(N, N', lo, hi, start, q, m, n); }
    } else {
      LoopSettles(N, N', lo, hi, start, q);
    }
  }

  ghost predicate AllSettle(N: Net, lo: nat, hi: nat) {
    forall p :: lo <= p < hi ==> Settles(N, p)
  }

  lemma {:induction false} ShallowCopiedBack(N: Net, N': Net, lo: nat, hi: nat, k: nat, p: nat, n: nat)
    requires Closed(N, lo, hi) && Copied(N, N', lo, hi, k) && lo <= p < hi && Shallow(N', p + k, n)
    ensures Shallow(N, p, n)
    decreases n
  {
    assert CopiedState(N, N', p, k);
    var st := N.states[p];
    if st.out1 != INVALID {
      ShallowCopiedBack(N, N', lo, hi, k, st.out1, n - 1);
      if p !in N.exits { ShallowCopiedBack(N, N', lo, hi, k, st.out, n - 1); }
    }
  }

  lemma SettlesCopied(N: Net, N': Net, lo: nat, hi: nat, k: nat)
    requires Closed(N, lo, hi) && Copied(N, N', lo, hi, k)
    ensures AllSettle(N, lo, hi) <==> AllSettle(N', lo + k, hi + k)
  {
    if AllSettle(N, lo, hi) {
      forall j | lo + k <= j < hi + k ensures Settles(N', j) {
        var p := j - k;
        assert Settles(N, p);
        var n: nat :| Shallow(N, p, n);
        ShallowCopied(N, N', lo, hi, k, p, n);
      }
    }
    if AllSettle(N', lo + k, hi + k) {
      forall p | lo <= p < hi ensures Settles(N, p) {
        assert Settles(N', p + k);
        var n: nat :| Shallow(N', p + k, n);
        ShallowCopiedBack(N, N', lo, hi, k, p, n);
      }
    }
  }

  /** Patching only adds edges. */
  lemma {:induction false} ShallowUnpatched(N: Net, N': Net, lo: nat, hi: nat, q: nat, p: nat, n: nat)
    requires Closed(N, lo, hi) && Patched(N, N', lo, hi, q) && lo <= p < hi && Shallow(N', p, n)
    ensures Shallow(N, p, n)
    decreases n
  {
    var st := N.states[p];
    if st.out1 != INVALID {
      ShallowUnpatched(N, N', lo, hi, q, st.out1, n - 1);
      if p !in N.exits { ShallowUnpatched(N, N', lo, hi, q, st.out, n - 1); }
    }
  }

  /** A fragment patched to a settling state settles exactly if it did before. */
  lemma SettlesPatched(N: Net, N': Net, lo: nat, hi: nat, q: nat)
    requires Closed(N, lo, hi) && Patched(N, N', lo, hi, q)
    ensures AllSettle(N', lo, hi) ==> AllSettle(N, lo, hi)
    ensures Settles(N', q) ==> (AllSettle(N, lo, hi) <==> AllSettle(N', lo, hi))
  {
    if AllSettle(N', lo, hi) {
      forall p | lo <= p < hi ensures Settles(N, p) {
        assert Settles(N', p);
        var n: nat :| Shallow(N', p, n);
        ShallowUnpatched(N, N', lo, hi, q, p, n);
      }
    }
    if Settles(N', q) && AllSettle(N, lo, hi) {
      forall p | lo <= p < hi ensures Settles(N', p) { PatchSettles(N, N', lo, hi, q, p); }
    }
  }

  lemma AllSettleSplit(N: Net, lo: nat, mid: nat, hi: nat)
    requires lo <= mid <= hi
    ensures AllSettle(N, lo, hi) <==> AllSettle(N, lo, mid) && AllSettle(N, mid, hi)
  {
  }
}
