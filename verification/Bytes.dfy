/** Bytes and the input stream that the JSON code reads them from. */
module Bytes {

  type Byte = b: int | 0 <= b < 256

  type Text = seq<Byte>

  /** The byte at position `i`; 0 stands for the end. */
  function Peek(s: Text, i: nat): Byte {
    if i < |s| then s[i] else 0
  }

  /** A word stands at place `i`. */
  predicate HasAt(s: Text, i: nat, word: Text) {
    i + |word| <= |s| && s[i..i + |word|] == word
  }

  lemma HasAtSplit(s: Text, i: nat, a: Text, b: Text)
    ensures HasAt(s, i, a + b) <==> HasAt(s, i, a) && HasAt(s, i + |a|, b)
    ensures HasAt(s, i, a) && |a| > 0 ==> s[i] == a[0]
  {
    if i + |a| + |b| <= |s| {
      var x, y := s[i..i + |a|], s[i + |a|..i + |a| + |b|];
      assert s[i..i + |a + b|] == x + y;
      if x + y == a + b {
        assert x == (x + y)[..|a|] && y == (x + y)[|a|..];
        assert a == (a + b)[..|a|] && b == (a + b)[|a|..];
      }
    }
    if i + |a| <= |s| && |a| > 0 { assert s[i..i + |a|][0] == s[i]; }
  }

  /** The bytes of an ASCII literal. */
  function Ascii(s: string): (t: Text)
    requires forall i :: 0 <= i < |s| ==> s[i] < 128 as char
    ensures |t| == |s| && forall i :: 0 <= i < |s| ==> t[i] == s[i] as int
  {
    seq(|s|, i requires 0 <= i < |s| => s[i] as int)
  }

  class ByteStream {
    const source: Text
    var pos: nat

    ghost predicate Valid()
      reads this
    {
      pos <= |source|
    }

    constructor (source: Text)
      ensures Valid() && this.source == source && pos == 0
    {
      this.source := source;
      pos := 0;
    }

    function Peek(): Byte
      reads this
    {
      if pos < |source| then source[pos] else 0
    }

    /** Takes one byte; at the end it gives 0 and stays there. */
    method Take() returns (c: Byte)
      requires Valid()
      modifies this
      ensures Valid() && c == old(Peek())
      ensures pos == if old(pos) < |source| then old(pos) + 1 else old(pos)
    {
      c := Peek();
      if pos < |source| { pos := pos + 1; }
    }

    method Consume(wanted: Byte) returns (r: bool)
      requires Valid() && wanted != 0
      modifies this
      ensures Valid() && (r <==> old(Peek()) == wanted)
      ensures pos == if r then old(pos) + 1 else old(pos)
    {
      r := Peek() == wanted;
      if r { pos := pos + 1; }
    }
  }
}
