/** Compiling a pattern and matching a subject against it, from end to end. */
module RegexMatch {
  import opened Options
  import opened RegexSyntax
  import opened RegexNfa
  import opened RegexFragment
  import opened RegexMachine
  import opened RegexSpelling
  import opened RegexLexer
  import opened RegexCompiler
  import opened RegexSearch

  /** The pattern is a way to write the tree; `^` and `$` may stand anywhere in it. */
  ghost predicate Writes(pattern: seq<Code>, tree: Alternatives) {
    AltOk(tree) && exists ts :: Spelled(pattern, 0, ts) && StripAnchors(ts) == AltTokens(tree)
  }

  /** A `^`, or a `$`, stands in the pattern as an anchor. */
  ghost predicate Anchored(pattern: seq<Code>, begin: bool) {
    exists ts :: Spelled(pattern, 0, ts) && AnchorToken(begin) in ts
  }

  lemma WrittenTokens(pattern: seq<Code>, tree: Alternatives) returns (ts: seq<Token>)
    requires Writes(pattern, tree)
    ensures TokensFrom(pattern, 0) == Some(ts) && Compile(ts) == Some(AltRe(tree))
    ensures forall begin :: Anchored(pattern, begin) <==> AnchorToken(begin) in ts
  {
    ts :| Spelled(pattern, 0, ts) && StripAnchors(ts) == AltTokens(tree);
    LexedExactly(pattern, 0, ts);
    WritesCompiles(pattern, tree);
    forall us | Spelled(pattern, 0, us) ensures us == ts { LexedExactly(pattern, 0, us); }
  }

  lemma WritesCompiles(pattern: seq<Code>, tree: Alternatives)
    requires Writes(pattern, tree)
    ensures TokensFrom(pattern, 0).Some? && Compile(TokensFrom(pattern, 0).value) == Some(AltRe(tree))
  {
    hide Spelled;
    var ts :| Spelled(pattern, 0, ts) && StripAnchors(ts) == AltTokens(tree);
    LexedExactly(pattern, 0, ts);
    RunIgnoresAnchors(START, ts);
    CompileMeaning(tree);
  }

  // ---------------------------------------------------------------- loops with empty bodies

  /** The pattern `(a?)*`, its tree and its meaning. */
  const NULLABLE: seq<Code> := [40, 97, 63, 41, 42]

  const OPTIONAL_A: Item := Quantified(Symbol(Literal(97)), 0, Upto(1))

  const NULLABLE_TREE: Alternatives :=
    OneAlternative(OneItem(Quantified(Group(OneAlternative(OneItem(OPTIONAL_A))), 0, Unlimited)))

  lemma OneToken(s: seq<Code>, i: nat, t: Token, ts: seq<Token>, all: seq<Token>)
    requires i < |s| && TokenAt(s, i) == Some((t, i + 1)) && TokensFrom(s, i + 1) == Some(ts)
    requires all == [t] + ts
    ensures TokensFrom(s, i) == Some(all)
  {
  }

  lemma NullableWritten()
    ensures Writes(NULLABLE, NULLABLE_TREE)
  {
    var s := NULLABLE;
    var a, q, l := SymToken(Literal(97)), QuantifierToken(0, Upto(1)), QuantifierToken(0, Unlimited);
    assert s[0] == 40 && s[1] == 97 && s[2] == 63 && s[3] == 41 && s[4] == 42;
    assert TokensFrom(s, 5) == Some([]);
    OneToken(s, 4, l, [], [l]);
    OneToken(s, 3, CloseToken, [l], [CloseToken, l]);
    OneToken(s, 2, q, [CloseToken, l], [q, CloseToken, l]);
    OneToken(s, 1, a, [q, CloseToken, l], [a, q, CloseToken, l]);
    OneToken(s, 0, OpenToken, [a, q, CloseToken, l], [OpenToken, a, q, CloseToken, l]);
    var body := OneAlternative(OneItem(OPTIONAL_A));
    assert AltTokens(body) == SeqTokens(OneItem(OPTIONAL_A)) == ItemTokens(OPTIONAL_A) == [a, q];
    assert AltTokens(NULLABLE_TREE) == ItemTokens(Group(body)) + [l] == [OpenToken, a, q, CloseToken, l];
    NoAnchors();
    LexedExactly(s, 0, [OpenToken, a, q, CloseToken, l]);
  }

  lemma NoAnchors()
    ensures var ts := [OpenToken, SymToken(Literal(97)), QuantifierToken(0, Upto(1)), CloseToken, QuantifierToken(0, Unlimited)];
      StripAnchors(ts) == ts && AltOk(NULLABLE_TREE)
  {
    var a, q, l := SymToken(Literal(97)), QuantifierToken(0, Upto(1)), QuantifierToken(0, Unlimited);
    assert StripAnchors([l]) == [l];
    assert StripAnchors([CloseToken, l]) == [CloseToken, l];
    assert StripAnchors([q, CloseToken, l]) == [q, CloseToken, l];
    assert StripAnchors([a, q, CloseToken, l]) == [a, q, CloseToken, l];
    assert ItemOk(OPTIONAL_A);
    assert AltOk(OneAlternative(OneItem(OPTIONAL_A)));
    assert ItemOk(Group(OneAlternative(OneItem(OPTIONAL_A))));
  }

  lemma NullableLoop()
    ensures !LoopsOk(AltRe(NULLABLE_TREE))
  {
    var o := Repeat(Atom(Literal(97)), 0, Upto(1));
    OptDenote(Atom(Literal(97)));
    hide Denote;
    assert ItemRe(OPTIONAL_A) == o;
    assert AltRe(OneAlternative(OneItem(OPTIONAL_A))) == o;
    assert AltRe(NULLABLE_TREE) == Repeat(o, 0, Unlimited);
  }

  /** No automaton for `(a?)*` settles: from some state, silent steps go round for ever. */
  lemma NullableNeverSettles(g: seq<State>, rs: seq<Range>, root: nat)
    requires Finished(g, rs, root, AltRe(NULLABLE_TREE))
    ensures Writes(NULLABLE, NULLABLE_TREE)
    ensures exists p: nat :: p < |g| && !Settles(Net(g, rs, {}), p)
  {
    hide Settles, LoopsOk, Writes, Recognises, Local, RangesOk;
    NullableWritten();
    NullableLoop();
  }

  /** Compiling a well-formed pattern gives an automaton of the language that its grammar tree
      denotes, in which following silent steps ends from every state exactly when no body of an
      unbounded loop in the pattern matches the empty string. */
  method CompilePattern(pattern: seq<Code>, ghost tree: Alternatives) returns (regex: Regex)
    requires Writes(pattern, tree)
    requires |pattern| < INVALID && Size(AltRe(tree)) + 1 < INVALID
    ensures fresh(regex) && regex.IsValid() && Finished(regex.states, regex.ranges, regex.root, AltRe(tree))
    ensures AllSettle(Net(regex.states, regex.ranges, {}), 0, |regex.states|) <==> LoopsOk(AltRe(tree))
    ensures (regex.anchorBegin <==> Anchored(pattern, true)) && (regex.anchorEnd <==> Anchored(pattern, false))
  {
    hide Writes, Anchored, LoopsOk, Recognises, Local, RangesOk, Size, Compile, StackOk, Patterns;
    ghost var ts := WrittenTokens(pattern, tree);
    var ds := new CodeStream(pattern);
    regex := new Regex();
    regex.Parse(ds, ts, AltRe(tree));
  }

  /** A well-formed pattern whose unbounded loops have no empty bodies matches exactly the
      subjects in the language that its grammar tree denotes. */
  method MatchPattern(pattern: seq<Code>, subject: seq<Code>, ghost tree: Alternatives) returns (r: bool)
    requires Writes(pattern, tree) && LoopsOk(AltRe(tree))
    requires |pattern| < INVALID && Size(AltRe(tree)) + 1 < INVALID
    ensures r <==> subject in Denote(AltRe(tree))
  {
    hide Writes, LoopsOk, Finished, Denote, Size;
    var regex := CompilePattern(pattern, tree);
    var searcher := new RegexSearcher(regex, AltRe(tree));
    r := searcher.Match(subject);
  }

  /** A search finds a part of the subject in the language, at the beginning if a `^` stands in
      the pattern, at the end if a `$` does. */
  method SearchPattern(pattern: seq<Code>, subject: seq<Code>, ghost tree: Alternatives) returns (r: bool)
    requires Writes(pattern, tree) && LoopsOk(AltRe(tree))
    requires |pattern| < INVALID && Size(AltRe(tree)) + 1 < INVALID
    ensures r <==> Found(AltRe(tree), subject, Anchored(pattern, true), Anchored(pattern, false))
  {
    hide Writes, Anchored, LoopsOk, Finished, Found, Size;
    var regex := CompilePattern(pattern, tree);
    var searcher := new RegexSearcher(regex, AltRe(tree));
    r := searcher.Search(subject);
  }
}
