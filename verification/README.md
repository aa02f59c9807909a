# Verified model of the RapidJSON cores and the serving logic

The repository is an nginx module that maps visitors' cookies between advertising partners.
Its hardest code is the RapidJSON source it carries and uses. This project models those cores
and the serving logic around them in Dafny, and proves what they promise for every input,
every run and every reachable state. Where the code does not keep a promise, the project
gives the input and the exact condition under which it does.

Code that changes state step by step is modelled by classes and methods over the same fields,
arrays and loops, each proved against a specification function; laws about those functions are
lemmas. C++ integer widths are written out where they matter.

## How the files fit together

- **Regular expressions.** `RegexSyntax` has patterns and the languages they denote, `RegexNfa`
  automata, paths and what patching does to languages, `RegexFragment` the fragments on the
  operand stack, `RegexSpelling` how tokens are written, `RegexLexer` how they are read,
  `RegexMachine` the shunting-yard algorithm on values,
  `RegexCompiler` the compiler over the mutable state array, `RegexSearch` the simulation with
  two state lists and a bit set, `RegexMatch` both together.
- **JSON.** `JsonGrammar` has the grammar of the standard with what it denotes, `JsonLexer` and
  `JsonParser` the language as the parser reads it, `JsonLanguage` their agreement, `JsonHandler`
  what a handler that stops sees, `JsonMachine` the table of the iterative parser, `JsonReader`
  the reader with both parsers, `JsonValue`, `JsonWriter` and `JsonDocument` values, the writer
  and the document's stack, `JsonMeaning` the value of a document, `JsonAccepted`,
  `JsonRoundTrip` and `JsonPipeline` what they do together.
- **Numbers.** `BigNatural`, `BigShift`, `BigDifference`, `BigInteger` and `BigDecimal` are the
  big integers; `HalfUlp` compares a decimal with a double; `DiyFloats`, `Grisu`,
  `Grisu2`, `CachedPowers` (the table of powers of ten) and `Dtoa` print a double; `Itoa` prints
  integers. `Arith`, `RealPowers` and `Numerals` are shared laws.
- **Pointers, text, memory.** `PointerTree`, `PointerText`, `PointerGrammar`,
  `PointerOctets`, `PointerParser`, `Utf8`, `MemoryPool`, `Base64`.
- **Serving.** `ThreadPool`, `Cookies`, `Partners`, `FrequencyCap`.
- `Bytes` and `Options` hold what all use.

## Model

| member | source | states |
|---|---|---|
| RegexMatch.MatchPattern | third-party/rapidjson/internal/regex.h:188-316 | Compiling a text that spells a grammar tree, whose unbounded loops have no empty bodies, and matching a subject gives true exactly when the subject is in the language of the tree. |
| RegexMatch.SearchPattern | third-party/rapidjson/internal/regex.h:629-638 | Searching gives true exactly when a part of the subject is found in the language, at the beginning if a `^` stands in the pattern as an anchor, and at the end if a `$` does. |
| RegexSpelling.LexedExactly | third-party/rapidjson/internal/regex.h:200-305 | A pattern is read as the tokens that it spells, and as no others: every operator, escape, class and counted quantifier, by a table of spellings that does not use the lexer. |
| RegexSpelling.ItemsComplete | third-party/rapidjson/internal/regex.h:478-546 | The inside of any class, its ranges, escapes and lone dashes, is taken to its closing bracket as the items that it spells. |
| RegexSpelling.ReadExactly | third-party/rapidjson/internal/regex.h:464-476 | A count is read as its number exactly if that has 32 bits or one of its digits is refused. |
| RegexSpelling.CountMisread | third-party/rapidjson/internal/regex.h:464-476 | 4294967300 is read as 4. |
| RegexMatch.WritesCompiles | third-party/rapidjson/internal/regex.h:188-316 | The tokens of any text that spells a tree, anchors anywhere, compile to that tree. |
| RegexMachine.CompileMeaning | third-party/rapidjson/internal/regex.h:196-306 | Operators by precedence, parentheses and implicit concatenation give the meaning of the grammar tree, for every tree. |
| RegexSyntax.ExpansionCorrect | third-party/rapidjson/internal/regex.h:407-444 | The copies, optional copies and loop that stand for `r{n,m}` denote exactly the counted repetition. |
| RegexNfa.PatchLanguage | third-party/rapidjson/internal/regex.h:346-351 | Leading every dangling exit to a state gives the fragment's language followed by that state's. |
| RegexNfa.LoopLanguage | third-party/rapidjson/internal/regex.h:382-402 | A fragment patched back to its split state gives all powers at the split state, all positive powers at its own entry. |
| RegexNfa.LoopSettlesExactly | third-party/rapidjson/internal/regex.h:683-696 | For one loop: following the silent steps from its split state ends exactly when the body settles and its language does not hold the empty word. |
| RegexMatch.CompilePattern | third-party/rapidjson/internal/regex.h:188-316 | For any text that spells a tree, whatever its loops: the automaton recognises the language of the tree, following silent steps ends from every state exactly when no unbounded loop has a body that may be empty, and the anchor flags say whether `^` and `$` stand in the pattern. |
| RegexMatch.NullableNeverSettles | third-party/rapidjson/internal/regex.h:683-696 | `(a?)*` is a pattern whose automaton has a state from which the silent steps never end. |
| RegexFragment.CloneFrag | third-party/rapidjson/internal/regex.h:448-462 | A block of copied and renumbered states is a fragment of the same pattern, with its own exits. |
| RegexCompiler.Regex.CloneTopOperand | third-party/rapidjson/internal/regex.h:448-462 | Cloning keeps every operand on the stack and pushes one more that recognises the same pattern; the operands own disjoint intervals of states, with edges inside them and out-lists of exactly their dangling exits. |
| RegexCompiler.Regex.EvalQuantifier | third-party/rapidjson/internal/regex.h:407-444 | The top operand becomes its counted repetition and the others stay; `{0,0}` alone is refused. |
| RegexCompiler.Regex.ParseRange | third-party/rapidjson/internal/regex.h:478-546 | A character class becomes a chain of ranges that hits exactly the characters the class lists, with its negation. |
| RegexCompiler.Regex.Parse | third-party/rapidjson/internal/regex.h:188-316 | After parsing, the state array recognises the pattern from its root, and has no silent cycle if and only if no unbounded loop has a body that may be empty. |
| RegexSearch.RegexSearcher.AddState | third-party/rapidjson/internal/regex.h:683-696 | Adds exactly the character states that silent steps reach, each once, within the reserved list, and reports whether the empty rest is accepted. |
| RegexSearch.RegexSearcher.MatchRange | third-party/rapidjson/internal/regex.h:698-706 | A chain of ranges with its negation flag, decided by a loop. |
| RegexSearch.RegexSearcher.SearchWithAnchoring | third-party/rapidjson/internal/regex.h:644-680 | For each setting of the anchors, true exactly when a part allowed by them, not empty unless the subject is, is in the language. |
| RegexSearch.RegexSearcher.Match | third-party/rapidjson/internal/regex.h:619-627 | True exactly when the whole subject is in the language. |
| RegexSearch.FoundVersusParts | third-party/rapidjson/internal/regex.h:644-680 | Searching agrees with "some part, possibly empty, matches" exactly when the subject is empty, the pattern does not match the empty word, both ends are anchored, or a non-empty part matches. |
| RegexSearch.EmptyPartMissed | third-party/rapidjson/internal/regex.h:644-680 | `a?` searched for in "b" is not found, though an empty part matches. |
| JsonReader.Reader.Parse | third-party/rapidjson/reader.h:470-505 | Recursive descent reports exactly the events of the JSON language and fails exactly outside it, for all flags and any handler. |
| JsonLanguage.DocumentExactly | third-party/rapidjson/reader.h:470-505 | For all flags, the parser ends at a place with a sequence of events exactly if the text up to there is a document with those events, by a grammar after section 2 of RFC 4627 written without the parser, comments and trailing commas where allowed. |
| JsonLanguage.ValueSound | third-party/rapidjson/reader.h:1375-1388 | What the parser takes for a value is one by the grammar, with the events reported. |
| JsonLanguage.ValueComplete | third-party/rapidjson/reader.h:1375-1388 | Every value of the grammar is taken to its end and reported by its events, whatever is behind it that does not continue a number. |
| JsonGrammar.UnicodeExactly | third-party/rapidjson/reader.h:851-867 | An escape has the code point that its digits give, in either case; a pair of surrogates that of `0x10000 + x`, with the upper ten bits of `x` in the first and the lower ten in the second. |
| JsonGrammar.StringComplete | third-party/rapidjson/reader.h:826-890 | The characters of a string, by the grammar, are read as their bytes up to the closing quote. |
| JsonGrammar.StringSound | third-party/rapidjson/reader.h:826-890 | Nothing else is read as a string. |
| JsonGrammar.GapIsSkipped | third-party/rapidjson/reader.h:546-571 | Blanks and, where allowed, both kinds of comments are skipped exactly. |
| JsonHandler.HandlerStops | third-party/rapidjson/reader.h:580-633 | A handler that ends the parse has got the events of the language up to the first after which it did not go on, and the parse fails; otherwise the outcome is that of a handler that always goes on. |
| JsonReader.Reader.IterativeParse | third-party/rapidjson/reader.h:1805-1837 | The table-driven parser with its explicit stack has the same outcome as recursive descent on every input: same events, counts, end and failure. |
| JsonMachine.MirrorsMove | third-party/rapidjson/reader.h:1465-1627 | Every move of the table keeps the frame stack a mirror of the open brackets. |
| JsonMachine.OpenStep | third-party/rapidjson/reader.h:1639-1664 | An opening bracket leaves the rest of the run as the language has it: inside first, then after the value. |
| JsonMachine.CloseStep | third-party/rapidjson/reader.h:1701-1762 | A closing bracket reports the number of members or elements counted, trailing commas allowed or not. |
| JsonReader.Reader.ParseObject | third-party/rapidjson/reader.h:574-640 | The loop over members does what the language says, with its member count. |
| JsonReader.Reader.ParseArray | third-party/rapidjson/reader.h:642-688 | The loop over elements does what the language says, with its element count. |
| JsonReader.Reader.ParseStringToStream | third-party/rapidjson/reader.h:826-890 | A string's bytes with escapes replaced, surrogate pairs joined and encoded, up to its closing quote; or failure. |
| JsonReader.Reader.ParseNumber | third-party/rapidjson/reader.h:1116-1371 | Integers in [-2^63, 2^64-1] come out exactly, as the first of the four integer events that the code chooses; all others go to the conversion to a double; nothing overflows on the way. |
| JsonReader.IntegerIs | third-party/rapidjson/reader.h:1354-1367 | Two's complement negation gives the right negative number in 32 and in 64 bits, the least one included. |
| JsonAccepted.AcceptedBuilds | third-party/rapidjson/document.h:2383-2423 | The events of every accepted document leave exactly one value on the document's stack. |
| JsonDocument.Document.EndObject | third-party/rapidjson/document.h:2411-2415 | The topmost names and values, as many pairs as reported, become the members of the object below them, in order. |
| JsonDocument.Document.Populate | third-party/rapidjson/document.h:2383-2423 | Feeding events to the document's handlers builds the value of those events. |
| JsonWriter.Accept | third-party/rapidjson/document.h:1818-1855 | Visiting a value writes its separator and exactly its text, and counts one value at its level. |
| JsonWriter.Writer.Prefix | third-party/rapidjson/writer.h:451-469 | Commas, colons and the single root, from the counters of the open levels. |
| JsonWriter.Writer.WriteString | third-party/rapidjson/writer.h:359-431 | Each byte escaped as needed between quotes. |
| JsonRoundTrip.RoundTrip | third-party/rapidjson/writer.h:359-469 | The text of any value without doubles, of any depth, with any bytes in its strings, is accepted to its end, and its events build the value again: same members in the same order, one root. |
| JsonValue.WritesVisible | third-party/rapidjson/writer.h:359-431 | No blanks are written between values, and every control character in a string is escaped. |
| JsonValue.QuotedAsIs | third-party/rapidjson/writer.h:359-431 | A string without control characters, quotes and backslashes is written as it is. |
| JsonPipeline.CopyThroughText | third-party/rapidjson/document.h:1818-1855 | Writing a value, parsing it with either parser and building a document gives an equal value. |
| JsonPipeline.ParseDocument | third-party/rapidjson/document.h:2204-2216 | Parsing succeeds exactly on documents of the grammar, and then the stack holds the one value that the text denotes, doubles included by their text. |
| JsonMeaning.DocumentMeans | third-party/rapidjson/document.h:2383-2423 | For every document of the grammar the handlers build the one value that its events describe: each scalar, elements and members in order, and a number that is no 64-bit integer by exactly its text. |
| JsonValue.ConstructorsAgree | third-party/rapidjson/document.h:681-725 | The same integer gives the same flags and bits whichever constructor made it. |
| JsonValue.NumbersEqual | third-party/rapidjson/document.h:929-936 | Comparing 64 bits is right unless two integers differ by 2^64. |
| JsonValue.MinusOneEqualsMaximum | third-party/rapidjson/document.h:929-936 | -1 and 2^64-1 compare equal. |
| BigInteger.BigInteger.AddAssign | third-party/rapidjson/internal/biginteger.h:70-85 | Adding with carries is exact whenever the sum fits. |
| BigInteger.BigInteger.MulAdd64 | third-party/rapidjson/internal/biginteger.h:249-277 | Four 32-bit products give `a * b + k` in two limbs. |
| BigInteger.BigInteger.MulAssign | third-party/rapidjson/internal/biginteger.h:87-126 | Multiplication by a limb or by half a limb is exact whenever the product fits. |
| BigInteger.BigInteger.ShiftLeft | third-party/rapidjson/internal/biginteger.h:128-152 | What a left shift gives, which places it writes, and that it multiplies by the power of two if and only if `ShiftExact` holds. |
| BigInteger.ShiftResultExact | third-party/rapidjson/internal/biginteger.h:135-138 | The result is the product exactly if the shift is not by whole limbs, or the limbs left in place happen to be the right ones. |
| BigInteger.ShiftSafe | third-party/rapidjson/internal/biginteger.h:128-152 | Single limbs and shifts by other than whole limbs are exact. |
| BigInteger.WholeLimbShiftFails | third-party/rapidjson/internal/biginteger.h:135-138 | 2^64 shifted by one limb is wrong. |
| BigInteger.FitsExactly | third-party/rapidjson/internal/biginteger.h:135-146 | All places written lie within the array if and only if there is a limb to spare, or, for whole limbs, room for the limbs moved too far. |
| BigInteger.AssertionTooWeak | third-party/rapidjson/internal/biginteger.h:133 | Exactly which shifts pass the assertion and write outside the array. |
| BigInteger.WritesOutside | third-party/rapidjson/internal/biginteger.h:133-146 | A full array shifted by one bit, and 209 limbs shifted by one limb, do. |
| BigInteger.BigInteger.MultiplyPow5 | third-party/rapidjson/internal/biginteger.h:162-182 | Exact multiplication by any power of five that fits. |
| BigInteger.BigInteger.Compare | third-party/rapidjson/internal/biginteger.h:208-219 | The sign of the numeric difference. |
| BigInteger.BigInteger.Difference | third-party/rapidjson/internal/biginteger.h:186-206 | The absolute difference plus what lost borrows add, which is nothing if and only if no borrow reaches an all-ones limb of the smaller number. |
| BigDifference.AllOnesLimbLosesBorrow | third-party/rapidjson/internal/biginteger.h:199 | 2^128 minus a number whose second limb is all ones loses a borrow. |
| BigDifference.SurplusIs | third-party/rapidjson/internal/biginteger.h:196-203 | The error of a subtraction is zero exactly when no borrow is lost. |
| BigDecimal.FromDecimals | third-party/rapidjson/internal/biginteger.h:40-53 | The value of any digit string whose last append leaves a limb free. |
| BigDecimal.TooLongOverruns | third-party/rapidjson/internal/biginteger.h:224-232 | That condition holds if and only if the last shift writes inside the array. |
| BigDecimal.SomeTooLong | third-party/rapidjson/internal/biginteger.h:40-53 | There are digit strings that do not fit. |
| HalfUlp.RatioKept | third-party/rapidjson/internal/strtod.h:54-97 | The bookkeeping of powers of 2 and 5 keeps the ratio of decimal, double and half the last place. |
| HalfUlp.Bookkeeping | third-party/rapidjson/internal/strtod.h:54-94 | The six exponents are natural and the least of one common factor. |
| HalfUlp.CheckWithinHalfULP | third-party/rapidjson/internal/strtod.h:54-109 | The sign that the big integers give, with whatever their shifts and subtraction do. |
| HalfUlp.RightExactly | third-party/rapidjson/internal/strtod.h:54-109 | If no number of several limbs is shifted by whole limbs, the reported sign is that of the distance less half a unit if and only if no borrow is lost, or the distance is beyond half a unit all the same, or what the lost borrows leave is still within it. |
| HalfUlp.ShiftedExactly | third-party/rapidjson/internal/strtod.h:97-104 | A scaled number is the product by its power of two if and only if `ShiftExact` holds. |
| HalfUlp.WholeLimbMisjudged | third-party/rapidjson/internal/strtod.h:54-109 | 4440892098500626654732592 * 10^-40 against 2^-51 is reported as beyond half a unit, and is within it: a shift by one whole limb. |
| HalfUlp.BorrowMisjudged | third-party/rapidjson/internal/strtod.h:54-109 | A decimal of 149 digits times 10^-186 against 6412742366823986 * 2^-176 is reported as beyond half a unit, and is within it: a lost borrow. |
| HalfUlp.BothAdmitted | third-party/rapidjson/internal/strtod.h:54-109 | Both inputs meet all that the comparison asks for. |
| DiyFloats.Multiply | third-party/rapidjson/internal/diyfp.h:84-98 | Four 32-bit products give the product divided by 2^64, rounded, without overflow. |
| DiyFloats.MultiplyWide | third-party/rapidjson/internal/diyfp.h:76-83 | The 128-bit form gives the same. |
| DiyFloats.Normalize | third-party/rapidjson/internal/diyfp.h:101-117 | The value is kept and the top bit set, for every number but zero. |
| DiyFloats.NormalOnce | third-party/rapidjson/internal/diyfp.h:101-117 | Only one shift does that, so all forms of the code agree. |
| DiyFloats.NormalizedBoundaries | third-party/rapidjson/internal/diyfp.h:130-137 | The two midpoints to the neighbouring doubles, exactly, with one exponent. |
| DiyFloats.LowerFits | third-party/rapidjson/internal/diyfp.h:119-137 | Number and boundaries, normalised, lie at least 512 units apart. |
| Grisu.GrisuRound | third-party/rapidjson/internal/dtoa.h:35-42 | Lowering the last digit ends at the best of all lowered numbers in the interval, and no digit falls below zero. |
| Grisu.NoneCloser | third-party/rapidjson/internal/dtoa.h:35-42 | Once one step does not come closer, no number of steps does. |
| Grisu.DigitCount | third-party/rapidjson/internal/dtoa.h:44-58 | The number of decimal digits, below 10^9. |
| Grisu.DigitGen | third-party/rapidjson/internal/dtoa.h:60-110 | Valid digits, the first not zero, of a number in the interval; no multiple of a higher power of ten lies in it; none with as many digits is closer. |
| Dtoa.DoubleDigits | third-party/rapidjson/internal/dtoa.h:112-124 | For every positive double, normal or denormal, the digits and exponent denote a decimal strictly between the midpoints to its neighbours, so that they read as that double. |
| Grisu2.Generate | third-party/rapidjson/internal/dtoa.h:118-123 | From the boundaries and any power of ten within half a unit, of at most nine integral digits, the digits and exponent denote a number strictly between the boundaries. |
| Grisu2.ReadsBack | third-party/rapidjson/internal/dtoa.h:112-124 | The rounding of three products and the step inwards by one unit lose nothing. |
| CachedPowers.AllNear | third-party/rapidjson/internal/diyfp.h:164-224 | Each of the 87 entries is within half a unit of its power of ten, in natural numbers. |
| Dtoa.TableIsNear | third-party/rapidjson/internal/diyfp.h:164-224 | Each entry is normal and within half a unit of its power of ten, from 10^-348 to 10^340. |
| CachedPowers.GetCachedPower | third-party/rapidjson/internal/diyfp.h:226-238 | For the exponent of any boundary of a double, and however the logarithm rounds, the entry chosen is in the table and leaves 34 to 60 fractional bits and at most nine integral digits. |
| Itoa.U32toa | third-party/rapidjson/internal/itoa.h:39-111 | The canonical numeral of any 32-bit number. |
| Itoa.U64toa | third-party/rapidjson/internal/itoa.h:123-289 | The canonical numeral of any 64-bit number, through all its branches. |
| Itoa.I64toa | third-party/rapidjson/internal/itoa.h:291-299 | The numeral of any signed 64-bit number, the least one included. |
| Numerals.TextIsCanonical | third-party/rapidjson/internal/itoa.h:39-289 | No other digit string without a leading zero denotes the number. |
| JsonRoundTrip.ReadNumber | third-party/rapidjson/reader.h:1116-1371 | The text of every integer in [-2^63, 2^64-1] reads back as that integer, whatever follows it in JSON. |
| Utf8.Decode | third-party/rapidjson/encodings.h:146-175 | Accepts exactly the sequences of section 4 of RFC 3629, and then gives the code point they encode. |
| Utf8.Validate | third-party/rapidjson/encodings.h:178-202 | Agrees with `Decode` on every input, and copies what it takes. |
| Utf8.EncodeIsChar | third-party/rapidjson/encodings.h:102-121 | The encoder writes a well-formed character exactly for Unicode scalar values. |
| Utf8.EncodeAllInjective | third-party/rapidjson/encodings.h:102-121 | Encoded texts can be read in one way only. |
| Utf8.EncodeAllIsText | third-party/rapidjson/encodings.h:102-121 | What the encoder writes is well-formed. |
| Utf8.DecodeAll | third-party/rapidjson/encodings.h:146-175 | Decoding whole texts inverts encoding, and succeeds exactly on well-formed ones. |
| PointerParser.Pointer.Parse | third-party/rapidjson/pointer.h:802-932 | Reads either notation into the tokens of its names, fails exactly on what is not a pointer, and stays within the name buffer and the token array. |
| PointerGrammar.PointerExactly | third-party/rapidjson/pointer.h:802-932 | A text is read as those names of which it is a pointer, by a grammar of both notations after sections 3 and 6 of RFC 6901 written without the reader: unescaped and escaped characters, and in fragments unreserved ones and triplets in either case for UTF-8. |
| PointerParser.Stringify | third-party/rapidjson/pointer.h:941-972 | Writes either notation; in a URI fragment it fails exactly on names that are not UTF-8. |
| PointerGrammar.WrittenAsIs | third-party/rapidjson/pointer.h:790-792 | In a fragment, a name of letters, digits, `-`, `.` and `_` is written as it is. |
| PointerGrammar.FragmentIsText | third-party/rapidjson/pointer.h:941-972 | A fragment holds slashes, percent signs and unreserved characters only. |
| PointerParser.WriteAndRead | third-party/rapidjson/pointer.h:802-972 | Writing names and reading them gives the same names, in plain form for all bytes, in fragment form for UTF-8. |
| PointerText.PlainRoundTrip | third-party/rapidjson/pointer.h:802-972 | The plain notation of any names reads back as those names (sections 3 and 4 of RFC 6901). |
| PointerText.FragmentRoundTrip | third-party/rapidjson/pointer.h:802-972 | So does the fragment notation, which exists exactly if all names are UTF-8 (section 6 of RFC 6901). |
| PointerOctets.DecodedExactly | third-party/rapidjson/pointer.h:840-892 | A fragment is read as the pointer of its percent-decoded octets exactly if no slash in it is percent-encoded and no tilde has a percent-encoded character behind it. |
| PointerOctets.DecodedDiffers | third-party/rapidjson/pointer.h:840-892 | `#/~%30` is refused, and `#/%2F` is one name. |
| PointerText.IndexExactly | third-party/rapidjson/pointer.h:899-921 | Which index any name gets: its number modulo 2^32 if it is canonical and no step of the loop comes out smaller, else none. |
| PointerText.IndexOfDigits | third-party/rapidjson/pointer.h:899-921 | Digits get their own number exactly when they are canonical and it fits. |
| PointerText.IndexOfNumeral | third-party/rapidjson/pointer.h:899-921 | Canonical numerals below 2^32 get their number. |
| PointerText.TenDigits | third-party/rapidjson/pointer.h:904-918 | For ten digits, exactly when the overflow test catches a number that is too large. |
| PointerText.OverflowMissed | third-party/rapidjson/pointer.h:904-918 | 6000000000 becomes index 1705032704. |
| PointerTree.Get | third-party/rapidjson/pointer.h:479-507 | The value the tokens lead to, or the first token that does not resolve. |
| PointerTree.CreateExist | third-party/rapidjson/pointer.h:401-447 | `alreadyExist` is reported exactly when the tokens resolved before; then nothing changes, else the new value is null. |
| PointerTree.CreateFound | third-party/rapidjson/pointer.h:401-447 | After creation, the tokens that lead there now find the created value. |
| PointerTree.CreateKeepsExactly | third-party/rapidjson/pointer.h:401-447 | Whatever other tokens find that neither lead to the created value nor to a parent of it stays the same, for all of them, exactly if no array with elements meets a token that is neither an index nor a dash. |
| PointerTree.ChildAdded | third-party/rapidjson/pointer.h:405-441 | An array keeps its elements first, with nulls up to the place wanted; an object keeps its members first, with a null of the wanted name last; anything else becomes an array of nulls exactly for a token with an index. |
| PointerTree.ReplacedOnly | third-party/rapidjson/pointer.h:401-447 | Changing a child leaves all other elements and members in their places. |
| PointerTree.CreatePath | third-party/rapidjson/pointer.h:401-447 | They are the given tokens exactly when no dash is applied to an array on the way. |
| PointerTree.CreateToken | third-party/rapidjson/pointer.h:401-447 | Each of them has the given name; it differs only where a dash became an index. |
| PointerTree.CreateThenGet | third-party/rapidjson/pointer.h:401-447 | The given tokens find the created value exactly when no dash is applied to an array on the way, and nothing otherwise. |
| MemoryPool.MemoryPoolAllocator.Malloc | third-party/rapidjson/allocators.h:176-188 | In 64-bit arithmetic: if nothing computed leaves 64 bits, one new aligned block that overlaps no other, while all blocks stay where they are, inside their chunks; the block fits into the memory of its chunk exactly in that case. A new chunk, of the larger of the two capacities, is asked for exactly if the newest has no room. |
| MemoryPool.MemoryPoolAllocator.Realloc | third-party/rapidjson/allocators.h:191-222 | With the true old size, and nothing leaving 64 bits, the contents are kept, no other block changes, and all stay apart; the block stays in place exactly if it does not grow beyond its reserve or is the last one and has room. |
| MemoryPool.MemoryPoolAllocator.Size | third-party/rapidjson/allocators.h:168-173 | The bytes served never exceed the capacity. |
| MemoryPool.MemoryPoolAllocator.Clear | third-party/rapidjson/allocators.h:145-153 | Only the user's buffer remains, emptied. |
| MemoryPool.SizeWithinCapacity | third-party/rapidjson/allocators.h:158-173 | Size never exceeds capacity. |
| MemoryPool.AlignWordExactly | third-party/rapidjson/rapidjson.h:273 | Rounding up in 64 bits is right exactly up to 2^64-8, and gives 0 above. |
| MemoryPool.SumWordExactly | third-party/rapidjson/allocators.h:181 | The sum of the bytes served is right exactly below 2^64; beyond, 64 bits find room that is not there. |
| ThreadPool.InvStep | logger/utils/threadPool.h:34-96 | Every step of any worker, caller or the destructor keeps the invariant. |
| ThreadPool.Safety | logger/utils/threadPool.h:34-96 | In every state of every interleaving the queue is first in first out, no task runs twice, and no wake-up is lost. |
| ThreadPool.TakenInOrder | logger/utils/threadPool.h:43-56 | Tasks are taken in the order in which they were accepted. |
| ThreadPool.DestructorDrains | logger/utils/threadPool.h:87-96 | When the destructor returns, every accepted task has run exactly once. |
| ThreadPool.NothingAfterStop | logger/utils/threadPool.h:63-84 | Once stopped, the pool stays so, and no task is accepted. |
| ThreadPool.PushAccepts | logger/utils/threadPool.h:72-84 | A call that finds the pool running has its task accepted, behind all that wait; one that finds it stopped changes nothing but gives the mutex back. |
| ThreadPool.AcceptedCount | logger/utils/threadPool.h:72-84 | In every run as many tasks are accepted as calls found the pool running. |
| ThreadPool.QueueSteps | logger/utils/threadPool.h:43-56 | Apart from calls, what waits changes only by a worker that takes the first task, and only that. |
| ThreadPool.OthersStay | logger/utils/threadPool.h:34-96 | A step of one worker, or one that wakes it, leaves the others as they are; the last notification wakes exactly those that are blocked. |
| ThreadPool.EffortShrinks | logger/utils/threadPool.h:34-96 | Every step of the pool, or of a caller that holds the mutex, lowers one measure, at any time. |
| ThreadPool.Settles | logger/utils/threadPool.h:34-96 | A run without steps from outside is no longer than the measure it uses up. |
| ThreadPool.Progress | logger/utils/threadPool.h:34-96 | As long as an accepted task has not run, such a step is possible. |
| ThreadPool.AtRest | logger/utils/threadPool.h:34-96 | A pool in which nothing but steps from outside is possible has run every accepted task. |
| ThreadPool.ShutdownShrinks | logger/utils/threadPool.h:87-96 | After the last notification every step of the pool brings the end closer. |
| ThreadPool.ShutdownProgress | logger/utils/threadPool.h:87-96 | Until the destructor returns there is always such a step. |
| Cookies.GetCookie | src/utils/cookie.h:33-48 | The search loop, on any header. |
| Cookies.LookupFirst | src/utils/cookie.h:33-48 | On any header, a name without separators gives the value behind the first place where it starts a cookie. |
| Cookies.LookupInJar | src/utils/cookie.h:33-48 | From the header of any cookie jar, the value of the first cookie of that name, though other names may contain it. |
| Cookies.ReceivedIsSent | src/utils/cookie.h:82-84 | A browser that reads the header sent keeps the name and value meant. |
| Partners.Mapping.CheckValidExpire | src/handler/mapping.h:450-496 | A partner that may be visited, of the greatest weight, or none; for any order of the tables and any tie-break. |
| Partners.NoChoiceExactly | src/handler/mapping.h:476-495 | There is no choice exactly when the weights of the candidates add up to a multiple of 2^32. |
| Partners.SelectedIsBest | src/handler/mapping.h:450-496 | The choice has a positive weight that no partner eligible all along exceeds. |
| Partners.SomeoneSelected | src/handler/mapping.h:450-496 | There is a choice whenever an eligible partner has a positive weight and all weights fit into 32 bits. |
| Partners.WeightsVanish | src/handler/mapping.h:478-495 | Four weights of 2^30 add up to zero, and no partner is chosen. |
| Partners.Mapping.Handle | src/handler/mapping.h:115-156 | Where the visitor is sent, and which time cookie is set, from the choice on. |
| FrequencyCap.Serve | src/handler/mapping.h:115-156 | The handler and a browser that keeps what it is sent make one step of a run. |
| FrequencyCap.Capped | src/handler/mapping.h:140-143 | In every run, a partner visited at one time is visited again only when more than its period has passed, if that sum fits into 32 bits. |
| FrequencyCap.CappedExactly | src/handler/mapping.h:470 | The cap holds for every time of the next request if and only if the sum fits or the period is negative. |
| FrequencyCap.TooSoon | src/handler/mapping.h:470 | A period of a day in 2038: the partner is visited again after one second. |
| FrequencyCap.ReturnedStaysEligible | src/handler/mapping.h:118-126 | A visit that goes back to Tencent keeps no time, so the partner stays eligible for every later request. |
| FrequencyCap.ReturnedNotCapped | src/handler/mapping.h:118-126 | Two such visits within one period. |
| FrequencyCap.BarredNeverChosen | src/handler/mapping.h:462-467 | The pairs 6 to 4 and 4 to 7 are never visited by a browser that has no time for them. |
| FrequencyCap.MayBeVisited | src/handler/mapping.h:456-473 | With no time kept, a partner may be visited unless the pair is one of those two; with a time kept, exactly when more than the period has passed, as long as the sum fits into 32 bits. |
| Base64.Encode | src/utils/helper.h:71-112 | Groups of three bytes, padded at the end, by the loops over two small arrays. |
| Base64.Decode | src/utils/helper.h:114-153 | The characters before the first one outside the alphabet, in groups of four, with tails of two and three. |
| Base64.RoundTrip | src/utils/helper.h:71-153 | Decoding inverts encoding, for every byte string. |
| Base64.CharIs | src/utils/helper.h:71-112 | Each character is that of Table 1 of RFC 4648 for the next six bits of the bytes, with zeros behind the last. |
| Base64.SameNumber | src/utils/helper.h:81-84 | Three bytes and their four characters denote the same 24 bits (section 4 of RFC 4648). |
| Base64.PaddedLength | src/utils/helper.h:71-112 | The length is a multiple of four with at most two pads. |

## Findings

Where the code does not do what its callers or its documentation expect, and exactly when.

- third-party/rapidjson/internal/biginteger.h:135-138: a left shift by a multiple of 64 is wrong
  for numbers of several limbs (`ShiftResultExact`; `WholeLimbShiftFails`).
- third-party/rapidjson/internal/biginteger.h:133: the assertion of that shift allows writes
  outside the array (`AssertionTooWeak`; `WritesOutside`).
- third-party/rapidjson/internal/biginteger.h:199: a borrow into an all-ones limb is lost
  (`Difference`, `SurplusIs`; `AllOnesLimbLosesBorrow`).
- third-party/rapidjson/internal/biginteger.h:224-232: the last append of a long digit string
  writes outside the array (`TooLongOverruns`; `SomeTooLong`).
- third-party/rapidjson/internal/strtod.h:97-104: the first of these makes
  `CheckWithinHalfULP` report the wrong side (`ShiftedExactly`; `WholeLimbMisjudged`).
- third-party/rapidjson/internal/strtod.h:106-109: so does a lost borrow (`RightExactly`;
  `BorrowMisjudged`).
- third-party/rapidjson/document.h:929-936: integers that differ by 2^64 compare equal
  (`NumbersEqual`; `MinusOneEqualsMaximum`).
- third-party/rapidjson/pointer.h:904-918: an index of 2^32 or more is not always refused
  (`IndexExactly`, `TenDigits`; `OverflowMissed`).
- third-party/rapidjson/pointer.h:840-892: a fragment with a percent-encoded slash, or with a
  percent-encoded character behind a tilde, is not read as its decoded octets (`DecodedExactly`;
  `DecodedDiffers`).
- third-party/rapidjson/pointer.h:401-447: the pointer that created a value does not find it
  again if a dash was applied to an array (`CreateThenGet`).
- third-party/rapidjson/internal/regex.h:464-476: a count in a pattern that does not fit into 32
  bits is not always refused (`ReadExactly`; `CountMisread`).
- third-party/rapidjson/internal/regex.h:683-696: `AddState` does not end on a pattern with an
  unbounded loop whose body may be empty (`CompilePattern`; `NullableNeverSettles`).
- third-party/rapidjson/internal/regex.h:644-680: an unanchored `Search` does not find an empty
  part of a subject (`FoundVersusParts`; `EmptyPartMissed`).
- third-party/rapidjson/allocators.h:176-188: sizes near 2^64 give a block that does not fit into
  its chunk (`Malloc`, `SumWordExactly`, `AlignWordExactly`).
- src/handler/mapping.h:470: the frequency cap fails when time and period together exceed 2^31-1
  (`CappedExactly`; `TooSoon`).
- src/handler/mapping.h:118-126: visits that go back to Tencent are not capped
  (`ReturnedStaysEligible`; `ReturnedNotCapped`).
- src/handler/mapping.h:478-495: weights that add up to a multiple of 2^32 leave no choice
  (`NoChoiceExactly`; `WeightsVanish`).

## Left out

- JsonReader.Reader.ParseNumber: the conversion to a double is not modelled; a double is kept as its text, and a parameter `tooBig` says which texts exceed the range of doubles.
- JsonReader.Reader.ParseStringToStream: the flag that validates encodings and the in-situ and SIMD variants are not modelled.
- JsonReader.Reader.IterativeParse: error codes and offsets are not modelled, only that parsing fails; the two parsers report different codes for a bad first token.
- JsonRoundTrip.RoundTrip: values with doubles are not covered, as their text depends on the conversion.
- JsonDocument.Document.Populate: the stack holds values, not raw memory, and string storage (copied, short or referenced) is not modelled.
- RegexMatch.MatchPattern: a text that spells no tree is not covered, nor one with a loop whose body may be empty, on which matching does not end.
- RegexCompiler.Regex.Parse: repetition counts near 2^32, whose reading may wrap around, are outside its precondition, which bounds the number of states below 2^32.
- BigInteger.BigInteger.ShiftLeft: reads of limbs that were never written are modelled as arbitrary limbs.
- HalfUlp.WholeLimbMisjudged: `StrtodDiyFp`, which decides most decimals before the comparison, is not part of this model, nor is that it leaves this one and that of `BorrowMisjudged` to the comparison.
- HalfUlp.CheckWithinHalfULP: the double comes as its integer significand and exponent; equal scaled numbers, on which the code asserts, are excluded.
- Grisu.DigitGen: the range of its inputs is a precondition, which `Dtoa.DoubleDigits` establishes for all doubles; beyond the eighth decimal place the code does not round the last digit, and the model says so.
- Dtoa.DoubleDigits: the double comes as its integer significand and exponent; the product with log10(2) comes as any number within 10^-9 of the exact one, which covers the rounding of double arithmetic; `Prettify`, zero and the sign are not modelled.
- PointerTree.CreateFound: creation is modelled on values, so the update of the tree in place, and references into it, are not captured.
- PointerParser.Pointer.Parse: the buffer is at least as large as the source's, and tokens name their text instead of pointing into the buffer.
- PointerOctets.DecodedExactly: fragments with characters other than slashes and unreserved ones as they are, which RFC 3986 allows and the code refuses, are outside.
- MemoryPool.MemoryPoolAllocator.Realloc: when something leaves 64 bits, what becomes of the other blocks is stated only through `Malloc`.
- MemoryPool.MemoryPoolAllocator.Size: the sum over all chunks is not reduced to 64 bits.
- MemoryPool.MemoryPoolAllocator.WithBuffer: the buffer is aligned, which the code does not check.
- ThreadPool.Safety: tasks end, and neither throw nor wait for each other; fairness of the scheduler is not modelled.
- Partners.Mapping.CheckValidExpire: sums of `int` wrap around as on two's complement hardware, though the language leaves them undefined.
- Partners.Mapping.Handle: reading the request, logging, and filling of addresses are parameters.
- FrequencyCap.Capped: the browser sends its cookies in order and keeps them; other cookies may change between requests.
- Encodings other than UTF-8, and the transcoder.
- The JSON schema validator, and error messages.
- nginx glue, Redis, Cassandra, message queues, logging and the scripts.
- Base62, query strings and user-agent matching.
