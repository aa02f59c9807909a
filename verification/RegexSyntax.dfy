/** The pattern language of the regular expression engine: its abstract syntax and
    the set of strings each pattern denotes, independently of any automaton. */
module RegexSyntax {

  /** A decoded character. Decoding stops at 0, so 0 never reaches the engine. */
  type Code = c: int | 1 <= c <= 0x10FFFF witness 1

  datatype ClassItem = ClassItem(first: Code, last: Code)

  /** What one atom of a pattern matches. */
  datatype Sym =
    | Literal(code: Code)
    | Any
    | Class(negated: bool, items: seq<ClassItem>)

  predicate InItems(items: seq<ClassItem>, c: Code) {
    exists i :: 0 <= i < |items| && items[i].first <= c <= items[i].last
  }

  predicate SymMatches(y: Sym, c: Code) {
    match y
    case Literal(d) => c == d
    case Any => true
    case Class(negated, items) => InItems(items, c) != negated
  }

  datatype Bound = Unlimited | Upto(n: nat)

  predicate Within(k: nat, max: Bound) {
    max.Upto? ==> k <= max.n
  }

  /** Regular expressions. `?`, `*`, `+` and `{n,m}` are all repetitions. */
  datatype Re =
    | Atom(sym: Sym)
    | Cat(left: Re, right: Re)
    | Alt(left: Re, right: Re)
    | Repeat(body: Re, min: nat, max: Bound)

  type Word = seq<Code>
  type Words = iset<Word>

  /** Concatenation of languages. */
  ghost function Conc(a: Words, b: Words): Words {
    iset w: Word | exists i :: 0 <= i <= |w| && w[..i] in a && w[i..] in b
  }

  /** `k`-fold concatenation. */
  ghost function Power(a: Words, k: nat): Words {
    if k == 0 then iset{[]} else Conc(a, Power(a, k - 1))
  }

  /** The language of a pattern. */
  ghost function Denote(r: Re): Words {
    match r
    case Atom(sym) => iset w: Word | |w| == 1 && SymMatches(sym, w[0])
    case Cat(a, b) => Conc(Denote(a), Denote(b))
    case Alt(a, b) => Denote(a) + Denote(b)
    case Repeat(b, min, max) => Powers(Denote(b), min, max)
  }

  ghost function Powers(a: Words, min: nat, max: Bound): Words {
    iset w: Word | InPowers(a, min, max, w)
  }

  ghost predicate InPowers(a: Words, min: nat, max: Bound, w: Word) {
    exists k: nat :: min <= k && Within(k, max) && w in Power(a, k)
  }

  /** No repetition without an upper bound has a body that matches the empty string. */
  ghost predicate LoopsOk(r: Re) {
    match r
    case Atom(_) => true
    case Cat(a, b) => LoopsOk(a) && LoopsOk(b)
    case Alt(a, b) => LoopsOk(a) && LoopsOk(b)
    case Repeat(b, _, max) => LoopsOk(b) && (max.Unlimited? ==> [] !in Denote(b))
  }

  /** The number of automaton states the engine uses for `r`. */
  function Size(r: Re): nat {
    match r
    case Atom(_) => 1
    case Cat(a, b) => Size(a) + Size(b)
    case Alt(a, b) => Size(a) + Size(b) + 1
    case Repeat(b, min, Unlimited) => if min == 0 then Size(b) + 1 else Copies(min, Size(b)) + 1
    case Repeat(b, min, Upto(max)) => Copies(min, Size(b)) + Copies(if min < max then max - min else 0, Size(b) + 1)
  }

  /** `k * n`, by recursion, so that proofs need no non-linear arithmetic. */
  function Copies(k: nat, n: nat): nat {
    if k == 0 then 0 else n + Copies(k - 1, n)
  }

  // ---------------------------------------------------------------- repetition

  function Opt(r: Re): Re { Repeat(r, 0, Upto(1)) }
  function Star(r: Re): Re { Repeat(r, 0, Unlimited) }
  function Plus(r: Re): Re { Repeat(r, 1, Unlimited) }

  /** The concatenation of a non-empty list, nested to the right. */
  function CatAll(rs: seq<Re>): Re
    requires |rs| > 0
  {
    if |rs| == 1 then rs[0] else Cat(rs[0], CatAll(rs[1..]))
  }

  function Times(k: nat, r: Re): seq<Re> {
    seq(k, i => r)
  }

  lemma ConcIntro(a: Words, b: Words, u: Word, v: Word)
    requires u in a && v in b
    ensures u + v in Conc(a, b)
  {
    var w := u + v;
    assert w[..|u|] == u && w[|u|..] == v;
  }

  lemma ConcElim(a: Words, b: Words, w: Word) returns (u: Word, v: Word)
    requires w in Conc(a, b)
    ensures u in a && v in b && w == u + v
  {
    var i :| 0 <= i <= |w| && w[..i] in a && w[i..] in b;
    u, v := w[..i], w[i..];
  }

  lemma ConcAssoc(a: Words, b: Words, c: Words)
    ensures Conc(Conc(a, b), c) == Conc(a, Conc(b, c))
  {
    forall w | w in Conc(Conc(a, b), c) ensures w in Conc(a, Conc(b, c)) {
      var x, z := ConcElim(Conc(a, b), c, w);
      var u, v := ConcElim(a, b, x);
      ConcIntro(b, c, v, z);
      ConcIntro(a, Conc(b, c), u, v + z);
      assert u + (v + z) == w;
    }
    forall w | w in Conc(a, Conc(b, c)) ensures w in Conc(Conc(a, b), c) {
      var u, x := ConcElim(a, Conc(b, c), w);
      var v, z := ConcElim(b, c, x);
      ConcIntro(a, b, u, v);
      ConcIntro(Conc(a, b), c, u + v, z);
      assert u + v + z == w;
    }
  }

  lemma ConcUnit(a: Words)
    ensures Conc(iset{[]}, a) == a && Conc(a, iset{[]}) == a
  {
    hide Conc;
    forall w: Word ensures w in Conc(iset{[]}, a) <==> w in a { UnitLeft(a, w); }
    forall w: Word ensures w in Conc(a, iset{[]}) <==> w in a { UnitRight(a, w); }
  }

  lemma UnitLeft(a: Words, w: Word)
    ensures w in Conc(iset{[]}, a) <==> w in a
  {
    hide Conc;
    assert [] + w == w;
    if w in a { ConcIntro(iset{[]}, a, [], w); }
    if w in Conc(iset{[]}, a) {
      var u, v := ConcElim(iset{[]}, a, w);
      assert u == [] && [] + v == v;
    }
  }

  lemma UnitRight(a: Words, w: Word)
    ensures w in Conc(a, iset{[]}) <==> w in a
  {
    hide Conc;
    assert w + [] == w;
    if w in a { ConcIntro(a, iset{[]}, w, []); }
    if w in Conc(a, iset{[]}) {
      var u, v := ConcElim(a, iset{[]}, w);
      assert u + [] == u;
    }
  }

  lemma PowerOne(a: Words)
    ensures Power(a, 1) == a
  {
    ConcUnit(a);
  }

  lemma {:induction false} PowerSum(a: Words, n: nat, k: nat)
    ensures Power(a, n + k) == Conc(Power(a, n), Power(a, k))
  {
    if n == 0 {
      ConcUnit(Power(a, k));
    } else {
      calc {
        Power(a, n + k);
        Conc(a, Power(a, n - 1 + k));
        { PowerSum(a, n - 1, k); }
        Conc(a, Conc(Power(a, n - 1), Power(a, k)));
        { ConcAssoc(a, Power(a, n - 1), Power(a, k)); }
        Conc(Power(a, n), Power(a, k));
      }
    }
  }

  /** `n` powers followed by between `min` and `max` powers. */
  lemma PowersShift(a: Words, n: nat, min: nat, max: Bound)
    ensures Conc(Power(a, n), Powers(a, min, max))
         == Powers(a, n + min, if max.Unlimited? then max else Upto(n + max.n))
  {
    var max' := if max.Unlimited? then max else Upto(n + max.n);
    forall w | w in Conc(Power(a, n), Powers(a, min, max)) ensures w in Powers(a, n + min, max') {
      var u, v := ConcElim(Power(a, n), Powers(a, min, max), w);
      var k: nat :| min <= k && Within(k, max) && v in Power(a, k);
      PowerSum(a, n, k);
      ConcIntro(Power(a, n), Power(a, k), u, v);
      assert Within(n + k, max');
    }
    forall w | w in Powers(a, n + min, max') ensures w in Conc(Power(a, n), Powers(a, min, max)) {
      var k: nat :| n + min <= k && Within(k, max') && w in Power(a, k);
      PowerSum(a, n, k - n);
      var u, v := ConcElim(Power(a, n), Power(a, k - n), w);
      assert Within(k - n, max);
      ConcIntro(Power(a, n), Powers(a, min, max), u, v);
    }
  }

  /** A power of `r?` is a bounded number of `r`. */
  lemma {:induction false} PowerOfOpt(a: Words, n: nat)
    ensures Power(Powers(a, 0, Upto(1)), n) == Powers(a, 0, Upto(n))
  {
    var opt := Powers(a, 0, Upto(1));
    if n == 0 {
      assert forall w: Word :: w in Powers(a, 0, Upto(0)) <==> w in Power(a, 0);
    } else {
      PowerOfOpt(a, n - 1);
      OptThenPowers(a, n - 1);
    }
  }

  lemma OptThenPowers(a: Words, n: nat)
    ensures Conc(Powers(a, 0, Upto(1)), Powers(a, 0, Upto(n))) == Powers(a, 0, Upto(n + 1))
  {
    var opt, rest := Powers(a, 0, Upto(1)), Powers(a, 0, Upto(n));
    forall w ensures w in Conc(opt, rest) <==> w in Powers(a, 0, Upto(n + 1)) {
      if w in Conc(opt, rest) {
        var u, v := ConcElim(opt, rest, w);
        var i: nat :| i <= 1 && u in Power(a, i);
        var k: nat :| k <= n && v in Power(a, k);
        PowersIntro(a, i, k, n + 1, u, v);
      }
      if w in Powers(a, 0, Upto(n + 1)) {
        var k: nat :| k <= n + 1 && w in Power(a, k);
        OptFirst(a, n, k, w);
      }
    }
  }

  lemma PowersIntro(a: Words, i: nat, k: nat, n: nat, u: Word, v: Word)
    requires u in Power(a, i) && v in Power(a, k) && i + k <= n
    ensures u + v in Powers(a, 0, Upto(n))
  {
    PowerSum(a, i, k);
    ConcIntro(Power(a, i), Power(a, k), u, v);
    assert Within(i + k, Upto(n));
  }

  lemma PowersHas(a: Words, k: nat, n: nat, w: Word)
    requires k <= n && w in Power(a, k)
    ensures w in Powers(a, 0, Upto(n))
  {
    assert Within(k, Upto(n));
  }

  lemma OptFirst(a: Words, n: nat, k: nat, w: Word)
    requires k <= n + 1 && w in Power(a, k)
    ensures w in Conc(Powers(a, 0, Upto(1)), Powers(a, 0, Upto(n)))
  {
    var opt, rest := Powers(a, 0, Upto(1)), Powers(a, 0, Upto(n));
    if k == 0 {
      PowersHas(a, 0, n, w);
      PowersHas(a, 0, 1, []);
      ConcIntro(opt, rest, [], w);
      assert [] + w == w;
    } else {
      var u, v := OnePower(a, k, w);
      PowersHas(a, k - 1, n, v);
      PowersHas(a, 1, 1, u);
      ConcIntro(opt, rest, u, v);
    }
  }

  lemma OnePower(a: Words, k: nat, w: Word) returns (u: Word, v: Word)
    requires k > 0 && w in Power(a, k)
    ensures u in Power(a, 1) && v in Power(a, k - 1) && w == u + v
  {
    PowerOne(a);
    u, v := ConcElim(a, Power(a, k - 1), w);
  }

  lemma {:induction false} CatAllAppend(a: seq<Re>, b: seq<Re>)
    requires |a| > 0 && |b| > 0
    ensures Denote(CatAll(a + b)) == Conc(Denote(CatAll(a)), Denote(CatAll(b)))
  {
    if |a| == 1 {
      assert (a + b)[1..] == b;
    } else {
      assert (a + b)[1..] == a[1..] + b;
      CatAllAppend(a[1..], b);
      ConcAssoc(Denote(a[0]), Denote(CatAll(a[1..])), Denote(CatAll(b)));
    }
  }

  lemma {:induction false} CatAllTimes(r: Re, n: nat)
    requires n > 0
    ensures Denote(CatAll(Times(n, r))) == Power(Denote(r), n)
  {
    hide Power, Times, CatAll;
    TimesStep(r, n);
    if n == 1 {
      PowerOne(Denote(r));
    } else {
      PowerStep(Denote(r), n);
      CatAllTimes(r, n - 1);
    }
  }

  lemma TimesStep(r: Re, n: nat)
    requires n > 0
    ensures |Times(n, r)| == n
    ensures n == 1 ==> CatAll(Times(n, r)) == r
    ensures n > 1 ==> |Times(n - 1, r)| > 0 && CatAll(Times(n, r)) == Cat(r, CatAll(Times(n - 1, r)))
  {
    if n > 1 { assert Times(n, r)[1..] == Times(n - 1, r); }
  }

  lemma PowerStep(a: Words, n: nat)
    requires n > 0
    ensures Power(a, n) == Conc(a, Power(a, n - 1))
  {
  }

  /** The sub-patterns whose concatenation the engine builds for `r{min,max}`. */
  function Expansion(r: Re, min: nat, max: Bound): (rs: seq<Re>)
    requires max.Upto? ==> min <= max.n && 1 <= max.n
    ensures |rs| > 0
  {
    match max
    case Unlimited => if min == 0 then [Star(r)] else Times(min - 1, r) + [Plus(r)]
    case Upto(m) => Times(min, r) + Times(m - min, Opt(r))
  }

  /** Concatenating the copies denotes the counted repetition itself. */
  lemma ExpansionCorrect(r: Re, min: nat, max: Bound)
    requires max.Upto? ==> min <= max.n && 1 <= max.n
    ensures Denote(CatAll(Expansion(r, min, max))) == Denote(Repeat(r, min, max))
  {
    match max
    case Unlimited => UnlimitedCorrect(r, min);
    case Upto(m) => UptoCorrect(r, min, m);
  }

  lemma UnlimitedCorrect(r: Re, min: nat)
    ensures Denote(CatAll(Expansion(r, min, Unlimited))) == Denote(Repeat(r, min, Unlimited))
  {
    hide CatAll, Powers, Power, Conc;
    if min <= 1 {
      if min == 1 { assert Times(0, r) + [Plus(r)] == [Plus(r)]; }
      Alone(if min == 0 then Star(r) else Plus(r));
    } else {
      CatAllAppend(Times(min - 1, r), [Plus(r)]);
      Alone(Plus(r));
      CatAllTimes(r, min - 1);
      PowersShift(Denote(r), min - 1, 1, Unlimited);
    }
  }

  lemma Alone(r: Re)
    ensures CatAll([r]) == r
  {
  }

  lemma UptoCorrect(r: Re, min: nat, m: nat)
    requires min <= m && 1 <= m
    ensures Denote(CatAll(Expansion(r, min, Upto(m)))) == Denote(Repeat(r, min, Upto(m)))
  {
    hide CatAll, Power, Powers, Conc;
    var a, b := Times(min, r), Times(m - min, Opt(r));
    if min > 0 { CatAllTimes(r, min); }
    if m > min {
      CatAllTimes(Opt(r), m - min);
      PowerOfOpt(Denote(r), m - min);
    }
    if min == 0 {
      assert a + b == b;
    } else if min == m {
      assert a + b == a;
      ExactPower(Denote(r), m);
    } else {
      CatAllAppend(a, b);
      PowersShift(Denote(r), min, 0, Upto(m - min));
    }
  }

  lemma ExactPower(a: Words, m: nat)
    ensures Powers(a, m, Upto(m)) == Power(a, m)
  {
    hide Power;
    forall w: Word ensures w in Powers(a, m, Upto(m)) <==> w in Power(a, m) { }
  }
}
