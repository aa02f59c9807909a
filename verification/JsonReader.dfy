/** The JSON reader: the recursive parser and the iterative parser over one input stream. */
module JsonReader {
  import opened Options
  import opened Bytes
  import opened Numerals
  import Utf8
  import opened JsonLexer
  import opened JsonParser
  import opened JsonMachine

  /** `static_cast<int32_t>(~i + 1)` on a 32-bit unsigned `i`. */
  function ToSigned32(i: nat): int
    requires i <= 0xFFFF_FFFF
  {
    var u := (0xFFFF_FFFF - i + 1) % 0x1_0000_0000;
    if u < 0x8000_0000 then u else u - 0x1_0000_0000
  }

  /** `static_cast<int64_t>(~i64 + 1)` on a 64-bit unsigned `i64`. */
  function ToSigned64(i: nat): int
    requires i <= 0xFFFF_FFFF_FFFF_FFFF
  {
    var u := (0xFFFF_FFFF_FFFF_FFFF - i + 1) % 0x1_0000_0000_0000_0000;
    if u < 0x8000_0000_0000_0000 then u else u - 0x1_0000_0000_0000_0000
  }

  /** Two's complement negation gives the negative number, the least one included. */
  lemma IntegerIs(minus: bool, v: nat, use64bit: bool)
    requires Fits64(minus, v) && (use64bit <==> v > if minus then 0x8000_0000 else 0xFFFF_FFFF)
    ensures v <= 0xFFFF_FFFF_FFFF_FFFF && (!use64bit ==> v <= 0xFFFF_FFFF)
    ensures IntegerOf(minus, v) ==
      if use64bit then (if minus then Int64(ToSigned64(v)) else Uint64(v))
      else (if minus then Int(ToSigned32(v)) else Uint(v))
  {
  }

  function NumberOutcome(env: Env, a: At): Outcome {
    match NumberAt(env.s, a.pos, env.tooBig)
    case None => Failed(a.out)
    case Some((v, j)) => Emit(env, j, a.out, Value(v))
  }

  class Reader {
    const input: ByteStream
    const flags: Flags
    const tooBig: Text -> bool
    const goOn: seq<Event> -> bool
    /** The events the handler has been given. */
    var out: seq<Event>
    var error: bool
    var stack: Stack

    constructor (input: ByteStream, flags: Flags, tooBig: Text -> bool, goOn: seq<Event> -> bool)
      ensures this.input == input && this.flags == flags && this.tooBig == tooBig && this.goOn == goOn
      ensures out == [] && !error && stack == []
    {
      this.input, this.flags, this.tooBig, this.goOn := input, flags, tooBig, goOn;
      out, error, stack := [], false, [];
    }

    ghost function E(): Env {
      Env(input.source, flags, tooBig, goOn)
    }

    ghost function Now(): At
      reads this, input
    {
      At(input.pos, out)
    }

    /** The reader is where the outcome says: at a place, or stopped by an error. */
    ghost predicate Is(o: Outcome)
      reads this, input
    {
      input.Valid() &&
      match o
      case Done(a) => !error && Now() == a
      case Failed(events) => error && out == events
    }

    /** Hands an event to the handler; the parser stops if the handler does not go on. */
    method Report(e: Event)
      requires input.Valid() && !error
      modifies `out, `error
      ensures Is(Emit(E(), input.pos, old(out), e))
    {
      out := out + [e];
      error := !goOn(out);
    }

    method SkipWhitespace()
      requires input.Valid()
      modifies input
      ensures input.Valid() && input.pos == SkipBlanks(input.source, old(input.pos))
    {
      while IsBlank(input.Peek())
        invariant input.Valid() && SkipBlanks(input.source, input.pos) == SkipBlanks(input.source, old(input.pos))
        decreases |input.source| - input.pos
      {
        var c := input.Take();
      }
    }

    /** Skips a block comment whose opening has been taken. */
    method SkipBlock()
      requires input.Valid() && !error
      modifies `error, input
      ensures input.Valid()
      ensures match BlockEnd(input.source, old(input.pos)) case None => error case Some(j) => !error && input.pos == j
    {
      while true
        invariant input.Valid() && !error
        invariant BlockEnd(input.source, input.pos) == BlockEnd(input.source, old(input.pos))
        decreases |input.source| - input.pos
      {
        if input.Peek() == 0 {
          error := true;
          return;
        }
        var star := input.Consume('*' as int);
        if star {
          var slash := input.Consume('/' as int);
          if slash { return; }
        } else {
          var c := input.Take();
        }
      }
    }

    method SkipLine()
      requires input.Valid()
      modifies input
      ensures input.Valid() && input.pos == LineEnd(input.source, old(input.pos))
    {
      while input.Peek() != 0
        invariant input.Valid() && LineEnd(input.source, input.pos) == LineEnd(input.source, old(input.pos))
        decreases |input.source| - input.pos
      {
        var c := input.Take();
        if c == '\n' as int { return; }
      }
    }

    method SkipComment()
      requires input.Valid() && !error && input.Peek() == '/' as int
      modifies `error, input
      ensures input.Valid()
      ensures match CommentEnd(input.source, old(input.pos)) case None => error case Some(j) => !error && input.pos == j
    {
      var slash := input.Consume('/' as int);
      var star := input.Consume('*' as int);
      if star {
        SkipBlock();
        return;
      }
      slash := input.Consume('/' as int);
      if slash {
        SkipLine();
      } else {
        error := true;
      }
    }

    method SkipWhitespaceAndComments()
      requires input.Valid() && !error
      modifies `error, input
      ensures Is(Skip(E(), old(Now())))
    {
      SkipWhitespace();
      if flags.comments {
        while input.Peek() == '/' as int
          invariant input.Valid() && !error && SkipBlanks(input.source, input.pos) == input.pos
          invariant SkipAt(input.source, input.pos, true) == SkipAt(input.source, old(input.pos), true)
          decreases |input.source| - input.pos
        {
          SkipComment();
          if error { return; }
          SkipWhitespace();
        }
      }
    }

    /** Takes the byte at hand and skips. */
    method TakeAndSkip()
      requires input.Valid() && !error && input.Peek() != 0
      modifies `error, input
      ensures Is(TakeSkip(E(), old(Now())))
    {
      var c := input.Take();
      SkipWhitespaceAndComments();
    }

    // -------------------------------------------------------------- strings

    /** Four hexadecimal digits. */
    method ParseHex4() returns (codepoint: nat)
      requires input.Valid() && !error
      modifies `error, input
      ensures input.Valid()
      ensures match Hex4(input.source, old(input.pos))
              case None => error
              case Some(cp) => !error && codepoint == cp && input.pos == old(input.pos) + 4
    {
      hide HexFrom;
      codepoint := 0;
      Hex4Is(input.source, input.pos);
      for i := 0 to 4
        invariant input.Valid() && !error && input.pos == old(input.pos) + i
        invariant HexFrom(input.source, input.pos, 4 - i, codepoint) == HexFrom(input.source, old(input.pos), 4, 0)
      {
        var c := input.Peek();
        HexStep(input.source, input.pos, 4 - i, codepoint);
        codepoint := codepoint * 16 + c;
        if '0' as int <= c <= '9' as int {
          codepoint := codepoint - '0' as int;
        } else if 'A' as int <= c <= 'F' as int {
          codepoint := codepoint - ('A' as int - 10);
        } else if 'a' as int <= c <= 'f' as int {
          codepoint := codepoint - ('a' as int - 10);
        } else {
          error := true;
          return;
        }
        c := input.Take();
      }
      HexEnd(input.source, input.pos, codepoint);
    }

    /** A `\u` escape whose backslash and letter have been taken. */
    method ParseUnicode() returns (codepoint: nat)
      requires input.Valid() && !error
      modifies `error, input
      ensures input.Valid()
      ensures match UnicodeAt(input.source, old(input.pos))
              case None => error
              case Some((cp, j)) => !error && codepoint == cp && input.pos == j
    {
      hide Hex4;
      codepoint := ParseHex4();
      if error { return; }
      if 0xD800 <= codepoint <= 0xDBFF {
        var pair := input.Consume('\\' as int);
        if pair { pair := input.Consume('u' as int); }
        if !pair {
          error := true;
          return;
        }
        var codepoint2 := ParseHex4();
        if error { return; }
        if codepoint2 < 0xDC00 || codepoint2 > 0xDFFF {
          error := true;
          return;
        }
        codepoint := (codepoint - 0xD800) * 0x400 + (codepoint2 - 0xDC00) + 0x10000;
      }
    }

    /** One escape sequence of a string. */
    method ParseEscape() returns (t: Text)
      requires input.Valid() && !error && input.Peek() == '\\' as int
      modifies `error, input
      ensures input.Valid() && (!error ==> old(input.pos) < input.pos)
      ensures StringAt(input.source, old(input.pos)) == if error then None else Prefixed(t, StringAt(input.source, input.pos))
    {
      t := [];
      var c := input.Take();
      var e := input.Peek();
      if Escape(e) != 0 {
        e := input.Take();
        t := [Escape(e)];
      } else if e == 'u' as int {
        e := input.Take();
        var codepoint := ParseUnicode();
        if error { return; }
        t := Utf8.Encode(codepoint);
      } else {
        error := true;
      }
    }

    /** The inside of a string, up to and with its closing quote. */
    method ParseStringToStream() returns (t: Text)
      requires input.Valid() && !error
      modifies `error, input
      ensures input.Valid()
      ensures match StringAt(input.source, old(input.pos))
              case None => error
              case Some((u, j)) => !error && t == u && input.pos == j
    {
      hide UnicodeAt;
      t := [];
      PrefixedNothing(StringAt(input.source, input.pos));
      while true
        invariant input.Valid() && !error
        invariant StringAt(input.source, old(input.pos)) == Prefixed(t, StringAt(input.source, input.pos))
        decreases |input.source| - input.pos
      {
        var c := input.Peek();
        if c == '\\' as int {
          var u := ParseEscape();
          if error { return; }
          PrefixedTwice(t, u, StringAt(input.source, input.pos));
          t := t + u;
        } else if c == '"' as int {
          c := input.Take();
          return;
        } else if c < 0x20 {
          error := true;
          return;
        } else {
          c := input.Take();
          PrefixedTwice(t, [c], StringAt(input.source, input.pos));
          t := t + [c];
        }
      }
    }

    /** A string, as the name of a member or as a value. */
    method ParseString(isKey: bool)
      requires input.Valid() && !error && input.Peek() == '"' as int
      modifies `out, `error, input
      ensures Is(if isKey then KeyAt(E(), old(Now())) else ScalarValue(E(), old(Now())))
    {
      var c := input.Take();
      var t := ParseStringToStream();
      if error { return; }
      Report(if isKey then Key(t) else Value(String(t)));
    }

    // -------------------------------------------------------------- numbers

    /** Reads digits as long as the number stays within `max`, the largest of which is
        `tenth * 10` plus the digit `last`. The four digit loops of the reader differ in these
        bounds only. No step overflows: the accumulator never exceeds `max`. */
    method ScanDigits(acc: nat, tenth: nat, last: Byte, ghost start: nat) returns (v: nat, over: bool)
      requires input.Valid() && IsDigit(last) && start <= input.pos
      requires AllDigits(input.source[start..input.pos]) && acc == Decimal(input.source[start..input.pos])
      requires acc <= tenth * 10 + (last - '0' as int)
      modifies input
      ensures input.Valid() && old(input.pos) <= input.pos
      ensures AllDigits(input.source[start..input.pos]) && v == Decimal(input.source[start..input.pos])
      ensures v <= tenth * 10 + (last - '0' as int)
      ensures over <==> IsDigit(input.Peek())
      ensures over ==> v * 10 + (input.Peek() - '0' as int) > tenth * 10 + (last - '0' as int)
    {
      v, over := acc, false;
      while IsDigit(input.Peek())
        invariant input.Valid() && old(input.pos) <= input.pos
        invariant AllDigits(input.source[start..input.pos]) && v == Decimal(input.source[start..input.pos])
        invariant v <= tenth * 10 + (last - '0' as int)
        decreases |input.source| - input.pos
      {
        if v >= tenth && (v != tenth || input.Peek() > last) { return v, true; }
        DecimalPush(input.source, start, input.pos);
        var c := input.Take();
        v := v * 10 + (c - '0' as int);
      }
    }

    /** Takes the remaining digits. */
    method TakeDigits(ghost start: nat)
      requires input.Valid() && start <= input.pos && AllDigits(input.source[start..input.pos])
      modifies input
      ensures input.Valid() && old(input.pos) <= input.pos && AllDigits(input.source[start..input.pos])
      ensures !IsDigit(input.Peek())
    {
      while IsDigit(input.Peek())
        invariant input.Valid() && old(input.pos) <= input.pos && AllDigits(input.source[start..input.pos])
        decreases |input.source| - input.pos
      {
        DecimalPush(input.source, start, input.pos);
        var c := input.Take();
      }
    }

    /** The digits after the first one: in 32 bits, then in 64 bits, then without a value. */
    method ScanInteger(first: nat, tenth32: nat, last32: Byte, tenth64: nat, last64: Byte, ghost start: nat)
      returns (v: nat, use64bit: bool, useDouble: bool)
      requires input.Valid() && start < input.pos && AllDigits(input.source[start..input.pos])
      requires first == Decimal(input.source[start..input.pos]) && first <= tenth32 * 10 + (last32 - '0' as int)
      requires IsDigit(last32) && IsDigit(last64) && tenth32 < tenth64
      modifies input
      ensures input.Valid() && start < input.pos && AllDigits(input.source[start..input.pos]) && !IsDigit(input.Peek())
      ensures use64bit <==> Decimal(input.source[start..input.pos]) > tenth32 * 10 + (last32 - '0' as int)
      ensures useDouble <==> Decimal(input.source[start..input.pos]) > tenth64 * 10 + (last64 - '0' as int)
      ensures !useDouble ==> v == Decimal(input.source[start..input.pos])
    {
      ghost var s := input.source;
      useDouble := false;
      v, use64bit := ScanDigits(first, tenth32, last32, start);
      if !use64bit { return; }
      ghost var p := input.pos;
      v, useDouble := ScanDigits(v, tenth64, last64, start);
      assert AllDigits(s[start..input.pos]) && IsDigit(s[p]);
      if !useDouble {
        Exceeds(s, start, p, input.pos, tenth32 * 10 + (last32 - '0' as int));
        return;
      }
      ghost var q := input.pos;
      TakeDigits(start);
      Exceeds(s, start, p, input.pos, tenth32 * 10 + (last32 - '0' as int));
      Exceeds(s, start, q, input.pos, tenth64 * 10 + (last64 - '0' as int));
    }

    /** A positive integer without leading zeros: whether it needs 64 bits, and its value if
        64 bits are enough. */
    method ParseInteger(minus: bool) returns (v: nat, use64bit: bool, useDouble: bool)
      requires input.Valid() && '1' as int <= input.Peek() <= '9' as int
      modifies input
      ensures input.Valid() && IntegerEnd(input.source, old(input.pos)) == Some(input.pos)
      ensures useDouble <==> !Fits64(minus, Decimal(input.source[old(input.pos)..input.pos]))
      ensures !useDouble ==> v == Decimal(input.source[old(input.pos)..input.pos])
      ensures !useDouble ==> (use64bit <==> v > if minus then 0x8000_0000 else 0xFFFF_FFFF)
    {
      ghost var s, start := input.source, input.pos;
      OneDigit(s, start);
      hide Decimal, AllDigits, DigitsEnd;
      var c := input.Take();
      if minus {
        v, use64bit, useDouble := ScanInteger(c - '0' as int, 214748364, '8' as int, 0x0CCC_CCCC_CCCC_CCCC, '8' as int, start);
      } else {
        v, use64bit, useDouble := ScanInteger(c - '0' as int, 429496729, '5' as int, 0x1999_9999_9999_9999, '5' as int, start);
      }
      DigitsTail(s, start, input.pos);
    }

    /** Takes digits whose values only a double needs. */
    method SkipDigits()
      requires input.Valid()
      modifies input
      ensures input.Valid() && input.pos == DigitsEnd(input.source, old(input.pos))
    {
      ghost var start := input.pos;
      TakeDigits(start);
      DigitsEndIs(input.source, start, input.pos);
    }

    /** The optional fraction of a number. */
    method ParseFraction() returns (some: bool)
      requires input.Valid() && !error
      modifies `error, input
      ensures input.Valid() && (error <==> FractionEnd(input.source, old(input.pos)).None?)
      ensures !error ==> FractionEnd(input.source, old(input.pos)) == Some(input.pos) && (some <==> old(input.pos) < input.pos)
    {
      some := input.Consume('.' as int);
      if some {
        if !IsDigit(input.Peek()) {
          error := true;
          return;
        }
        SkipDigits();
      }
    }

    /** The optional exponent of a number. */
    method ParseExponent() returns (some: bool)
      requires input.Valid() && !error
      modifies `error, input
      ensures input.Valid() && (error <==> ExponentEnd(input.source, old(input.pos)).None?)
      ensures !error ==> ExponentEnd(input.source, old(input.pos)) == Some(input.pos) && (some <==> old(input.pos) < input.pos)
    {
      hide DigitsEnd;
      some := input.Consume('e' as int);
      if !some { some := input.Consume('E' as int); }
      if some {
        var sign := input.Consume('+' as int);
        if !sign { sign := input.Consume('-' as int); }
        if !IsDigit(input.Peek()) {
          error := true;
          return;
        }
        SkipDigits();
      }
    }

    /** The integer part of a number. */
    method ParseIntegerPart(minus: bool) returns (v: nat, use64bit: bool, useDouble: bool)
      requires input.Valid() && !error
      modifies `error, input
      ensures input.Valid() && (error <==> IntegerEnd(input.source, old(input.pos)).None?)
      ensures !error ==> IntegerEnd(input.source, old(input.pos)) == Some(input.pos)
      ensures !error ==> (useDouble <==> !Fits64(minus, Decimal(input.source[old(input.pos)..input.pos])))
      ensures !error && !useDouble ==> v == Decimal(input.source[old(input.pos)..input.pos])
      ensures !error && !useDouble ==> (use64bit <==> v > if minus then 0x8000_0000 else 0xFFFF_FFFF)
    {
      v, use64bit, useDouble := 0, false, false;
      if input.Peek() == '0' as int {
        OneDigit(input.source, input.pos);
        var c := input.Take();
      } else if IsDigit(input.Peek()) {
        v, use64bit, useDouble := ParseInteger(minus);
      } else {
        error := true;
      }
    }

    /** A number. Integers of up to 64 bits are reported by value, in the narrowest of the four
        integer events; every other number goes to the conversion to a double. */
    method ParseNumber()
      requires input.Valid() && !error
      modifies `out, `error, input
      ensures Is(NumberOutcome(E(), old(Now())))
    {
      hide IntegerEnd, FractionEnd, ExponentEnd, Decimal, Fits64;
      ghost var s, begin := input.source, input.pos;
      var from := input.pos;
      var minus := input.Consume('-' as int);
      var v, use64bit, useDouble := ParseIntegerPart(minus);
      if error { return; }
      var fraction := ParseFraction();
      if error { return; }
      var exponent := ParseExponent();
      if error { return; }
      useDouble := useDouble || fraction || exponent;
      if useDouble {
        if tooBig(input.source[from..input.pos]) {
          error := true;
          return;
        }
        Report(Value(Double(input.source[from..input.pos])));
      } else {
        IntegerIs(minus, v, use64bit);
        if use64bit {
          Report(Value(if minus then Int64(ToSigned64(v)) else Uint64(v)));
        } else {
          Report(Value(if minus then Int(ToSigned32(v)) else Uint(v)));
        }
      }
    }

    // -------------------------------------------------------------- the recursive parser

    /** One of the three literal names. */
    method ParseWord(word: Text, v: Scalar)
      requires input.Valid() && !error && |word| > 0 && input.Peek() == word[0] != 0
      requires forall k :: 0 <= k < |word| ==> word[k] != 0
      modifies `out, `error, input
      ensures Is(if HasAt(input.source, old(input.pos), word) then Emit(E(), old(input.pos) + |word|, old(out), Value(v)) else Failed(old(out)))
    {
      ghost var s, p := input.source, input.pos;
      var c := input.Take();
      for k := 1 to |word|
        invariant input.Valid() && !error && out == old(out) && input.pos == p + k && s[p..p + k] == word[..k]
      {
        var same := input.Consume(word[k]);
        if !same {
          WordDiffers(s, p, word, k);
          error := true;
          return;
        }
      }
      Report(Value(v));
    }

    method ParseValue()
      requires input.Valid() && !error
      modifies `out, `error, input
      ensures Is(ValueAt(E(), old(Now())))
      decreases |input.source| - input.pos, 3
    {
      var c := input.Peek();
      if c == 'n' as int {
        ParseWord(NULL, Null);
      } else if c == 't' as int {
        ParseWord(TRUE, Bool(true));
      } else if c == 'f' as int {
        ParseWord(FALSE, Bool(false));
      } else if c == '"' as int {
        ParseString(false);
      } else if c == '{' as int {
        ParseObject();
      } else if c == '[' as int {
        ParseArray();
      } else {
        ParseNumber();
      }
    }

    method ParseObject()
      requires input.Valid() && !error && input.Peek() == '{' as int
      modifies `out, `error, input
      ensures Is(ObjectAt(E(), old(Now())))
      decreases |input.source| - input.pos, 2
    {
      hide Skip, KeyAt, ValueAt, Members;
      Report(StartObject);
      if error { return; }
      TakeAndSkip();
      if error { return; }
      var empty := input.Consume('}' as int);
      if empty {
        Report(EndObject(0));
        return;
      }
      var memberCount := 0;
      while true
        invariant input.Valid() && !error && old(input.pos) < input.pos
        invariant ObjectAt(E(), old(Now())) == Members(E(), Now(), memberCount)
        decreases |input.source| - input.pos
      {
        ParseMember(memberCount);
        if error { return; }
        memberCount := memberCount + 1;
        if input.Peek() == ',' as int {
          TakeAndSkip();
          if error { return; }
        } else if input.Peek() == '}' as int {
          var c := input.Take();
          Report(EndObject(memberCount));
          return;
        } else {
          error := true;
          return;
        }
        if flags.trailingCommas && input.Peek() == '}' as int {
          Report(EndObject(memberCount));
          if error { return; }
          var c := input.Take();
          return;
        }
      }
    }

    /** A name, a colon and a value. */
    method ParseMember(ghost count: nat)
      requires input.Valid() && !error
      modifies `out, `error, input
      ensures input.Valid()
      ensures error ==> Members(E(), old(Now()), count) == Failed(out)
      ensures !error ==> old(input.pos) < input.pos && Members(E(), old(Now()), count) == AfterMember(E(), Now(), count)
      decreases |input.source| - input.pos, 4
    {
      hide Skip, ValueAt;
      if input.Peek() != '"' as int {
        error := true;
        return;
      }
      ParseString(true);
      if error { return; }
      SkipWhitespaceAndComments();
      if error { return; }
      assert Members(E(), old(Now()), count) == AfterKey(E(), Now(), count);
      if input.Peek() != ':' as int {
        error := true;
        return;
      }
      TakeAndSkip();
      if error { return; }
      assert Members(E(), old(Now()), count) == AfterColon(E(), Now(), count);
      ParseValue();
      if error { return; }
      SkipWhitespaceAndComments();
    }

    method ParseArray()
      requires input.Valid() && !error && input.Peek() == '[' as int
      modifies `out, `error, input
      ensures Is(ArrayAt(E(), old(Now())))
      decreases |input.source| - input.pos, 2
    {
      hide Skip, ValueAt, Elements;
      Report(StartArray);
      if error { return; }
      TakeAndSkip();
      if error { return; }
      var empty := input.Consume(']' as int);
      if empty {
        Report(EndArray(0));
        return;
      }
      var elementCount := 0;
      while true
        invariant input.Valid() && !error && old(input.pos) < input.pos
        invariant ArrayAt(E(), old(Now())) == Elements(E(), Now(), elementCount)
        decreases |input.source| - input.pos
      {
        ParseElement(elementCount);
        if error { return; }
        elementCount := elementCount + 1;
        if input.Peek() == ',' as int {
          TakeAndSkip();
          if error { return; }
        } else if input.Peek() == ']' as int {
          var c := input.Take();
          Report(EndArray(elementCount));
          return;
        } else {
          error := true;
          return;
        }
        if flags.trailingCommas && input.Peek() == ']' as int {
          Report(EndArray(elementCount));
          if error { return; }
          var c := input.Take();
          return;
        }
      }
    }

    method ParseElement(ghost count: nat)
      requires input.Valid() && !error
      modifies `out, `error, input
      ensures input.Valid()
      ensures error ==> Elements(E(), old(Now()), count) == Failed(out)
      ensures !error ==> old(input.pos) < input.pos && Elements(E(), old(Now()), count) == AfterElement(E(), Now(), count)
      decreases |input.source| - input.pos, 4
    {
      hide Skip, ValueAt;
      ParseValue();
      if error { return; }
      SkipWhitespaceAndComments();
    }

    /** The recursive parser, on a whole document. */
    method Parse()
      requires input.Valid() && input.pos == 0 && !error && out == []
      modifies `out, `error, input
      ensures Is(WholeDocument(E()))
    {
      SkipWhitespaceAndComments();
      if error { return; }
      if input.Peek() == 0 {
        error := true;
        return;
      }
      ParseValue();
      if error { return; }
      if !flags.stopWhenDone {
        SkipWhitespaceAndComments();
        if error { return; }
        if input.Peek() != 0 { error := true; }
      }
    }

    // -------------------------------------------------------------- the iterative parser

    /** One step from `src` towards the state `dst` that the table names; it may return
        another state when a frame is popped. Each case keeps what the recursive parser would
        do with the rest of the document. */
    method Transit(src: State, dst: State) returns (d: State)
      requires input.Valid() && !error && input.Peek() != 0
      requires Nested(src, stack) && dst == Predict(src, Tokenize(input.Peek()))
      requires Mirrors(src, stack, Unclosed(out))
      modifies `out, `error, `stack, input
      ensures input.Valid()
      ensures d.Error? ==> Resume(E(), src, old(stack), old(Now())) == Failed(out)
      ensures !d.Error? ==> !error && old(input.pos) < input.pos && Nested(d, stack) && Mirrors(d, stack, Unclosed(out))
      ensures !d.Error? ==> Resume(E(), src, old(stack), old(Now())) == Landed(E(), d, stack, Now())
    {
      hide Nested, Resume, Landed, ValueAt, KeyAt, Mirrors, Unclosed, Counted;
      if dst != Error { MirrorsMove(src, Tokenize(input.Peek()), stack, Unclosed(out)); }
      match dst {
        case Error =>
          ErrorFails(E(), src, stack, Now());
          return Error;
        case ObjectInitial => d := Open(src, dst);
        case ArrayInitial => d := Open(src, dst);
        case MemberKey =>
          d := MemberName(src);
        case KeyValueDelimiter =>
          ColonStep(E(), src, stack, Now());
          var c := input.Take();
          d := dst;
        case MemberValue => d := Simple(src, dst);
        case Element => d := Simple(src, dst);
        case SingleValue => d := Simple(src, dst);
        case MemberDelimiter => d := Delimiter(src, dst);
        case ElementDelimiter => d := Delimiter(src, dst);
        case ObjectFinish => d := Leave(src, dst);
        case ArrayFinish => d := Leave(src, dst);
      }
    }

    /** The case of `Transit` for the name of a member. */
    method MemberName(src: State) returns (d: State)
      requires input.Valid() && !error && input.Peek() != 0
      requires Nested(src, stack) && Predict(src, Tokenize(input.Peek())).MemberKey?
      modifies `out, `error, input
      ensures input.Valid() && (d.Error? || d.MemberKey?)
      ensures d.Error? ==> Resume(E(), src, stack, old(Now())) == Failed(out)
      ensures !d.Error? ==> !error && old(input.pos) < input.pos && Nested(d, stack) && Unclosed(out) == Unclosed(old(out))
      ensures !d.Error? ==> Resume(E(), src, stack, old(Now())) == Landed(E(), d, stack, Now())
    {
      hide Nested, Resume, Landed, Unclosed;
      KeyStep(E(), src, stack, Now());
      ParseString(true);
      if error { return Error; }
      UnclosedPush(old(out), out[|out| - 1]);
      d := MemberKey;
    }

    /** The cases of `Transit` for an opening bracket: a frame is pushed. */
    method Open(src: State, dst: State) returns (d: State)
      requires input.Valid() && !error && input.Peek() != 0
      requires Nested(src, stack) && dst == Predict(src, Tokenize(input.Peek()))
      requires dst.ObjectInitial? || dst.ArrayInitial?
      modifies `out, `error, `stack, input
      ensures input.Valid()
      ensures d.Error? ==> Resume(E(), src, old(stack), old(Now())) == Failed(out)
      ensures !d.Error? ==> !error && old(input.pos) < input.pos && Nested(d, stack) && d == dst
      ensures !d.Error? ==> stack == old(stack) + [Frame(ReturnState(src), 0)] && Unclosed(out) == Unclosed(old(out)) + [Opening(dst)]
      ensures !d.Error? ==> Resume(E(), src, old(stack), old(Now())) == Landed(E(), d, stack, Now())
    {
      hide Nested, Resume, Landed, Unclosed;
      OpenStep(E(), src, stack, Now(), dst);
      var n := src;
      if src.ArrayInitial? || src.ElementDelimiter? {
        n := Element;
      } else if src.KeyValueDelimiter? {
        n := MemberValue;
      }
      stack := stack + [Frame(n, 0)];
      Report(if dst.ObjectInitial? then StartObject else StartArray);
      UnclosedPush(old(out), Opening(dst));
      if error { return Error; }
      var c := input.Take();
      d := dst;
    }

    /** The cases of `Transit` for a value that is neither an object nor an array. */
    method Simple(src: State, dst: State) returns (d: State)
      requires input.Valid() && !error && input.Peek() != 0
      requires Nested(src, stack) && dst == Predict(src, Tokenize(input.Peek()))
      requires dst.MemberValue? || dst.Element? || dst.SingleValue?
      modifies `out, `error, input
      ensures input.Valid()
      ensures d.Error? ==> Resume(E(), src, stack, old(Now())) == Failed(out)
      ensures !d.Error? ==> !error && old(input.pos) < input.pos && Nested(d, stack) && Unclosed(out) == Unclosed(old(out))
      ensures !d.Error? ==> d == if dst.SingleValue? then Finish else dst
      ensures !d.Error? ==> Resume(E(), src, stack, old(Now())) == Landed(E(), d, stack, Now())
    {
      SimpleStep(E(), src, stack, Now(), dst);
      assert ValueAt(E(), Now()) == ScalarValue(E(), Now());
      hide Nested, Resume, Landed, ScalarAt, ValueAt, Unclosed;
      ParseValue();
      if error { return Error; }
      UnclosedPush(old(out), out[|out| - 1]);
      d := if dst.SingleValue? then Finish else dst;
    }

    /** The cases of `Transit` for a comma: the count in the top frame grows. */
    method Delimiter(src: State, dst: State) returns (d: State)
      requires input.Valid() && !error && input.Peek() != 0
      requires Nested(src, stack) && dst == Predict(src, Tokenize(input.Peek()))
      requires dst.MemberDelimiter? || dst.ElementDelimiter?
      modifies `stack, input
      ensures old(stack) != []
      ensures input.Valid() && d == dst && old(input.pos) < input.pos && Nested(d, stack) && stack == Counted(old(stack))
      ensures Resume(E(), src, old(stack), old(Now())) == Landed(E(), d, stack, Now())
    {
      hide Nested, Resume, Landed, Unclosed;
      CommaStep(E(), src, stack, Now(), dst);
      var c := input.Take();
      stack := stack[|stack| - 1 := Frame(Top(stack).state, Top(stack).count + 1)];
      d := dst;
    }

    /** The cases of `Transit` for a closing bracket: a frame is popped. */
    method Leave(src: State, dst: State) returns (d: State)
      requires input.Valid() && !error && input.Peek() != 0
      requires Nested(src, stack) && dst == Predict(src, Tokenize(input.Peek()))
      requires dst.ObjectFinish? || dst.ArrayFinish?
      modifies `out, `error, `stack, input
      ensures input.Valid()
      ensures d.Error? ==> Resume(E(), src, old(stack), old(Now())) == Failed(out)
      ensures old(stack) != [] && (!d.Error? ==> !error && old(input.pos) < input.pos && Nested(d, stack))
      ensures !d.Error? ==> stack == Pop(old(stack)) && d == Closed(Top(old(stack)).state)
      ensures !d.Error? && Unclosed(old(out)) != [] ==> Unclosed(out) == Unclosed(old(out))[..|Unclosed(old(out))| - 1]
      ensures !d.Error? ==> Resume(E(), src, old(stack), old(Now())) == Landed(E(), d, stack, Now())
    {
      hide Nested, Resume, Landed, Unclosed, Predict;
      CloseStep(E(), src, stack, Now(), dst);
      ClosedFits(src, stack);
      if !flags.trailingCommas && (src.MemberDelimiter? || src.ElementDelimiter?) {
        error := true;
        return Error;
      }
      var c, n := Top(stack).count, Top(stack).state;
      stack := stack[..|stack| - 1];
      if src.MemberValue? || src.Element? { c := c + 1; }
      if n.Start? { n := Finish; }
      Report(if dst.ObjectFinish? then EndObject(c) else EndArray(c));
      UnclosedPush(old(out), if dst.ObjectFinish? then EndObject(c) else EndArray(c));
      if error { return Error; }
      var taken := input.Take();
      d := n;
    }

    /** The iterative parser, on a whole document: it does what the recursive parser does. */
    method IterativeParse()
      requires input.Valid() && input.pos == 0 && !error && out == [] && stack == []
      modifies `out, `error, `stack, input
      ensures Is(WholeDocument(E()))
    {
      hide Resume, Nested, Predict, Skip;
      var state := Start;
      assert Mirrors(state, stack, Unclosed(out));
      hide Mirrors, Unclosed;
      SkipWhitespaceAndComments();
      if error { return; }
      Starting(E(), Now());
      while input.Peek() != 0
        invariant input.Valid() && !error && Nested(state, stack) && !state.Error?
        invariant Mirrors(state, stack, Unclosed(out))
        invariant Resume(E(), state, stack, Now()) == WholeDocument(E())
        decreases |input.source| - input.pos
      {
        var d := Transit(state, Predict(state, Tokenize(input.Peek())));
        if d.Error? {
          HandleError();
          return;
        }
        state := d;
        if flags.stopWhenDone && state.Finish? { return; }
        SkipWhitespaceAndComments();
        if error { return; }
        if state.Finish? { Finishing(E(), stack, Now()); }
      }
      if state.Finish? {
        Finishing(E(), stack, Now());
      } else {
        EndFails(E(), state, stack, Now());
        HandleError();
      }
    }

    method HandleError()
      modifies `error
      ensures error
    {
      error := true;
    }
  }

  lemma WordDiffers(s: Text, p: nat, word: Text, k: nat)
    requires k < |word| && Peek(s, p + k) != word[k] && word[k] != 0
    ensures !HasAt(s, p, word)
  {
    if p + |word| <= |s| { assert s[p..p + |word|][k] == s[p + k]; }
  }

  lemma OneDigit(s: Text, start: nat)
    requires start < |s| && IsDigit(s[start])
    ensures AllDigits(s[start..start + 1]) && Decimal(s[start..start + 1]) == s[start] - '0' as int
  {
    assert s[start..start] == [];
    DecimalPush(s, start, start);
  }

  lemma DigitsTail(s: Text, start: nat, j: nat)
    requires start < j <= |s| && AllDigits(s[start..j]) && !IsDigit(Peek(s, j))
    ensures DigitsEnd(s, start + 1) == j
  {
    assert s[start + 1..j] == s[start..j][1..];
    DigitsEndIs(s, start + 1, j);
  }

  /** A number exceeds a bound that its first digits exceed. */
  lemma Exceeds(s: Text, start: nat, q: nat, j: nat, max: nat)
    requires start <= q <= j <= |s| && AllDigits(s[start..j]) && AllDigits(s[start..q]) && q < |s| && IsDigit(s[q]) && !IsDigit(Peek(s, j))
    requires Decimal(s[start..q]) * 10 + (s[q] - '0' as int) > max
    ensures Decimal(s[start..j]) > max
  {
    assert q != j;
    DecimalPush(s, start, q);
    DecimalGrows(s, start, q + 1, j);
  }
}
