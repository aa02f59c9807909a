/** The JSON writer, and the visitor that drives it over a value. */
module JsonWriter {
  import opened Bytes
  import opened Numerals
  import opened Itoa
  import opened JsonValue

  datatype Level = Level(inArray: bool, valueCount: nat)

  /** What `Prefix` writes before a value or a name. */
  function Separator(levels: seq<Level>): Text {
    if levels == [] || levels[|levels| - 1].valueCount == 0 then []
    else if levels[|levels| - 1].inArray || levels[|levels| - 1].valueCount % 2 == 0 then COMMA
    else COLON
  }

  /** The levels after one more value or name. */
  function Counted(levels: seq<Level>): seq<Level> {
    if levels == [] then []
    else
      var top := levels[|levels| - 1];
      levels[|levels| - 1 := top.(valueCount := top.valueCount + 1)]
  }

  /** Whether a value of the given kind may be written: one root, and a name first in an
      object. */
  predicate Expected(levels: seq<Level>, hasRoot: bool, isString: bool) {
    if levels == [] then !hasRoot
    else levels[|levels| - 1].inArray || levels[|levels| - 1].valueCount % 2 == 1 || isString
  }

  /** 64 bits read as a signed integer. */
  function Signed(u64: nat): int {
    if u64 < TWO63 then u64 else u64 - TWO64
  }

  lemma StoredValue(n: Number)
    requires Stored(n)
    ensures n.isInt ==> -0x8000_0000 <= Signed(n.u64) <= 0x7FFF_FFFF
    ensures n.isUint ==> n.u64 <= 0xFFFF_FFFF
    ensures n.isInt64 ==> -0x8000_0000_0000_0000 <= Signed(n.u64) <= 0x7FFF_FFFF_FFFF_FFFF
    ensures n.u64 <= 0xFFFF_FFFF_FFFF_FFFF && (n.isUint || !n.isInt64 ==> n.isUint64)
    ensures IntegerText(IntegerValue(n)) == IntegerText(if n.isInt || n.isInt64 then Signed(n.u64) else n.u64)
    ensures n.isUint64 ==> IntegerText(IntegerValue(n)) == DecimalText(n.u64)
  {
    hide DecimalText;
    var v :| InRange(v) && n == Canonical(v);
    Residue(v);
  }

  lemma LevelStep(levels: seq<Level>, inArray: bool, k: nat)
    ensures
      var ls := levels + [Level(inArray, k)];
      Counted(ls) == levels + [Level(inArray, k + 1)]
      && Separator(ls) == if k == 0 then [] else if inArray || k % 2 == 0 then COMMA else COLON
  {
  }

  lemma Appended(all: Text, o: Text, x: Text, rest: Text)
    requires o + (x + rest) == all
    ensures (o + x) + rest == all
  {
    assert (o + x) + rest == o + (x + rest);
  }

  class Writer {
    var out: Text
    var levels: seq<Level>
    var hasRoot: bool

    constructor ()
      ensures out == [] && levels == [] && !hasRoot
    {
      out, levels, hasRoot := [], [], false;
    }

    method Put(c: Byte)
      modifies `out
      ensures out == old(out) + [c]
    {
      out := out + [c];
    }

    method PutAll(t: Text)
      modifies `out
      ensures out == old(out) + t
    {
      for i := 0 to |t|
        invariant out == old(out) + t[..i]
      {
        Put(t[i]);
      }
      assert t[..|t|] == t;
    }

    /** Separates a value from the one before it, and counts it. */
    method Prefix(isString: bool)
      requires Expected(levels, hasRoot, isString)
      modifies this
      ensures out == old(out) + Separator(old(levels)) && levels == Counted(old(levels))
      ensures hasRoot == (old(hasRoot) || old(levels) == [])
    {
      if |levels| != 0 {
        var level := levels[|levels| - 1];
        if level.valueCount > 0 {
          if level.inArray {
            Put(',' as int);
          } else {
            Put(if level.valueCount % 2 == 0 then ',' as int else ':' as int);
          }
        }
        levels := levels[|levels| - 1 := level.(valueCount := level.valueCount + 1)];
      } else {
        hasRoot := true;
      }
    }

    method WriteByte(c: Byte)
      modifies `out
      ensures out == old(out) + EscapedByte(c)
    {
      var e := EscapeLetter(c);
      if e != 0 {
        Put('\\' as int);
        Put(e);
        if e == 'u' as int {
          Put('0' as int);
          Put('0' as int);
          Put(HexUpper(c / 16));
          Put(HexUpper(c % 16));
        }
      } else {
        Put(c);
      }
    }

    method WriteString(t: Text)
      modifies `out
      ensures out == old(out) + Quoted(t)
    {
      hide EscapedByte;
      ghost var all := out + Quoted(t);
      Put('"' as int);
      Appended(all, old(out), ['"' as int], EscapedFrom(t, 0));
      var i := 0;
      while i < |t|
        invariant i <= |t| && out + EscapedFrom(t, i) == all
      {
        Appended(all, out, EscapedByte(t[i]), EscapedFrom(t, i + 1));
        WriteByte(t[i]);
        i := i + 1;
      }
      Put('"' as int);
    }

    /** An integer, through a buffer as large as the longest numeral of its type. */
    method WriteNumber(n: Number)
      requires Stored(n)
      modifies `out
      ensures out == old(out) + IntegerText(IntegerValue(n))
    {
      hide DecimalText;
      StoredValue(n);
      if n.isInt {
        var buffer := new Buffer(11);
        I32toa(Signed(n.u64), buffer);
        PutBuffer(buffer);
      } else if n.isUint {
        var buffer := new Buffer(10);
        U32toa(n.u64, buffer);
        PutBuffer(buffer);
      } else if n.isInt64 {
        var buffer := new Buffer(21);
        I64toa(Signed(n.u64), buffer);
        PutBuffer(buffer);
      } else {
        var buffer := new Buffer(20);
        U64toa(n.u64, buffer);
        PutBuffer(buffer);
      }
    }

    method PutBuffer(buffer: Buffer)
      requires buffer.Valid()
      modifies `out
      ensures out == old(out) + buffer.Written()
    {
      PutAll(buffer.chars[..buffer.p]);
    }

    method String(t: Text)
      requires Expected(levels, hasRoot, true)
      modifies this
      ensures out == old(out) + Separator(old(levels)) + Quoted(t) && levels == Counted(old(levels))
      ensures hasRoot == (old(hasRoot) || old(levels) == [])
    {
      Prefix(true);
      WriteString(t);
    }

    method Start(inArray: bool)
      requires Expected(levels, hasRoot, false)
      modifies this
      ensures out == old(out) + Separator(old(levels)) + [if inArray then '[' as int else '{' as int]
      ensures levels == Counted(old(levels)) + [Level(inArray, 0)]
      ensures hasRoot == (old(hasRoot) || old(levels) == [])
    {
      Prefix(false);
      levels := levels + [Level(inArray, 0)];
      Put(if inArray then '[' as int else '{' as int);
    }

    method End(inArray: bool)
      requires levels != [] && levels[|levels| - 1].inArray == inArray
      modifies this
      ensures out == old(out) + [if inArray then ']' as int else '}' as int]
      ensures levels == old(levels)[..|old(levels)| - 1] && hasRoot == old(hasRoot)
    {
      levels := levels[..|levels| - 1];
      Put(if inArray then ']' as int else '}' as int);
    }
  }

  /** Visits a value and writes it: after the right separator, exactly its text. */
  method Accept(v: Json, writer: Writer)
    requires Legal(v) && Expected(writer.levels, writer.hasRoot, v.JString?)
    modifies writer
    ensures writer.out == old(writer.out) + Separator(old(writer.levels)) + Serialize(v)
    ensures writer.levels == Counted(old(writer.levels)) && writer.hasRoot == (old(writer.hasRoot) || old(writer.levels) == [])
    decreases v, 1
  {
    match v {
      case JNull =>
        writer.Prefix(false);
        writer.PutAll(Ascii("null"));
      case JBool(b) =>
        writer.Prefix(false);
        writer.PutAll(if b then Ascii("true") else Ascii("false"));
      case JNumber(n) =>
        writer.Prefix(false);
        writer.WriteNumber(n);
      case JString(t) =>
        writer.String(t);
      case JArray(es) =>
        AcceptArray(es, writer);
      case JObject(ms) =>
        AcceptObject(ms, writer);
    }
  }

  method AcceptArray(es: seq<Json>, writer: Writer)
    requires forall i :: 0 <= i < |es| ==> Legal(es[i])
    requires Expected(writer.levels, writer.hasRoot, false)
    modifies writer
    ensures writer.out == old(writer.out) + Separator(old(writer.levels)) + (['[' as int] + ElementsFrom(es, 0))
    ensures writer.levels == Counted(old(writer.levels)) && writer.hasRoot == (old(writer.hasRoot) || old(writer.levels) == [])
    decreases es, 1
  {
    hide Serialize, Legal, Separator, Counted, Quoted;
    ghost var all := writer.out + Separator(writer.levels) + (['[' as int] + ElementsFrom(es, 0));
    ghost var levels := Counted(writer.levels);
    writer.Start(true);
    var i := 0;
    while i < |es|
      invariant i <= |es| && writer.levels == levels + [Level(true, i)]
      invariant writer.out + ElementsFrom(es, i) == all
      invariant writer.hasRoot == (old(writer.hasRoot) || old(writer.levels) == [])
    {
      ghost var o := writer.out;
      LevelStep(levels, true, i);
      Accept(es[i], writer);
      Appended(all, o, Comma(i) + Serialize(es[i]), ElementsFrom(es, i + 1));
      assert o + (Comma(i) + Serialize(es[i])) == o + Comma(i) + Serialize(es[i]);
      i := i + 1;
    }
    writer.End(true);
  }

  method AcceptObject(ms: seq<Member>, writer: Writer)
    requires forall i :: 0 <= i < |ms| ==> Legal(ms[i].value)
    requires Expected(writer.levels, writer.hasRoot, false)
    modifies writer
    ensures writer.out == old(writer.out) + Separator(old(writer.levels)) + (['{' as int] + MembersFrom(ms, 0))
    ensures writer.levels == Counted(old(writer.levels)) && writer.hasRoot == (old(writer.hasRoot) || old(writer.levels) == [])
    decreases ms, 1
  {
    hide Serialize, Legal, Separator, Counted, Quoted;
    ghost var all := writer.out + Separator(writer.levels) + (['{' as int] + MembersFrom(ms, 0));
    ghost var levels := Counted(writer.levels);
    writer.Start(false);
    var i := 0;
    while i < |ms|
      invariant i <= |ms| && writer.levels == levels + [Level(false, 2 * i)]
      invariant writer.out + MembersFrom(ms, i) == all
      invariant writer.hasRoot == (old(writer.hasRoot) || old(writer.levels) == [])
    {
      ghost var o, name, text := writer.out, Quoted(ms[i].name), Serialize(ms[i].value);
      LevelStep(levels, false, 2 * i);
      writer.String(ms[i].name);
      LevelStep(levels, false, 2 * i + 1);
      Accept(ms[i].value, writer);
      Appended(all, o, Comma(i) + name + COLON + text, MembersFrom(ms, i + 1));
      assert o + (Comma(i) + name + COLON + text) == o + Comma(i) + name + COLON + text;
      i := i + 1;
    }
    writer.End(false);
  }
}
