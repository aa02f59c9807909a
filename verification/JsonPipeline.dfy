/** A value written as text and parsed into a document again. */
module JsonPipeline {
  import opened Options
  import opened Bytes
  import opened JsonLexer
  import opened JsonParser
  import opened JsonReader
  import opened JsonValue
  import opened JsonWriter
  import opened JsonDocument
  import opened JsonGrammar
  import opened JsonLanguage
  import opened JsonMeaning
  import opened JsonRoundTrip

  /** Writes the value, reads the text with either parser, and builds a document from it: the
      document holds that one value. */
  method CopyThroughText(v: Json, flags: Flags, iterative: bool, tooBig: Text -> bool) returns (copy: Json)
    requires Legal(v)
    ensures copy == v
  {
    hide Legal, Serialize, WholeDocument, Build;
    var writer := new Writer();
    Accept(v, writer);
    assert writer.out == Serialize(v);
    var input := new ByteStream(writer.out);
    var reader := new Reader(input, flags, tooBig, _ => true);
    RoundTrip(reader.E(), v);
    if iterative { reader.IterativeParse(); } else { reader.Parse(); }
    var document := new Document();
    document.Populate(reader.out);
    copy := document.stack[0];
  }

  /** A handler that goes on after every event. */
  const ALWAYS: seq<Event> -> bool := _ => true

  /** The text is a document, and `v` the value that it denotes. */
  ghost predicate Denotes(env: Env, v: Json) {
    exists n, es :: IsDocument(env, n, es) && Describes(es, v)
  }

  /** The outcome of the parser, in the terms of the grammar. */
  lemma Outcomes(env: Env) returns (v: Json)
    requires GoesOn(env)
    ensures WholeDocument(env).Done? <==> exists w :: Denotes(env, w)
    ensures forall w :: Denotes(env, w) ==> w == v
    ensures WholeDocument(env).Done? ==> Denotes(env, v) && Build([], WholeDocument(env).at.out) == Some([v])
  {
    hide WholeDocument, IsDocument, Describes, Build;
    v := JNull;
    if WholeDocument(env).Done? {
      var r := WholeDocument(env).at;
      DocumentExactly(env, r.pos, r.out);
      v := DocumentMeans(env, r.pos, r.out);
      assert Denotes(env, v);
    }
    forall w | Denotes(env, w) ensures WholeDocument(env).Done? && w == v {
      var n, es :| IsDocument(env, n, es) && Describes(es, w);
      DocumentExactly(env, n, es);
    }
  }

  /** Parses a text into a document. It succeeds exactly on documents of the grammar, and then
      the stack holds the one value that the text denotes. */
  method ParseDocument(text: Text, flags: Flags, iterative: bool, tooBig: Text -> bool) returns (ok: bool, stack: seq<Json>)
    ensures ok <==> exists v :: Denotes(Env(text, flags, tooBig, ALWAYS), v)
    ensures ok ==> |stack| == 1 && Denotes(Env(text, flags, tooBig, ALWAYS), stack[0])
    ensures ok ==> forall v :: Denotes(Env(text, flags, tooBig, ALWAYS), v) ==> v == stack[0]
  {
    hide WholeDocument, Build, Denotes;
    var input := new ByteStream(text);
    var reader := new Reader(input, flags, tooBig, ALWAYS);
    ghost var env := Env(text, flags, tooBig, ALWAYS);
    assert reader.E() == env && GoesOn(env);
    ghost var v := Outcomes(env);
    if iterative { reader.IterativeParse(); } else { reader.Parse(); }
    ok, stack := !reader.error, [];
    if ok {
      var document := new Document();
      document.Populate(reader.out);
      stack := document.stack;
    }
  }
}
