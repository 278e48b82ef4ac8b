# Verified models of the serialization, arithmetic and hand-over code

This project models, in Dafny, the parts of the repository whose correctness rests on an argument rather than on
reading one function, and proves those arguments. `dafny verify dfyconfig.toml` checks everything.

- **JSON text and documents** (`Json`, `Grammar`, `JsonGrammar`, `Iterative`, `Drivers`, `Reader`, `Printer`,
  `PrinterScalars`, `RoundTrip`, `Writer`, `Layout`, `PrettyLayout`, `Document`). One grammar is implemented by a
  recursive, an iterative and a pull driver; all three are shown to be the same function of the text, by way of the
  invariant of the iterative parser's stack, and what they accept and report is exactly what the grammar of RFC 8259
  derives and means. A printed tree, compact or indented, parses back to the same tree, and the indented text is the
  compact text laid out by the brackets open at each point.
- **Key filter** (`FilterKey`). The event handler refines a recursive transformation of trees, which leaves out
  exactly the members of the key.
- **Schema validation** (`Schema`, `SchemaVerdict`, `SchemaMeaning`, `SchemaStrict`, `SchemaSafety`, `SchemaNested`,
  `SchemaCompile`, `SchemaStream`, `SchemaValidator`). The stack of contexts with its parallel sub-validators decides
  exactly whether a value satisfies the keywords of the compiled schema, on the events of a value and on the events of
  the reader.
- **JSON Pointer** (`Pointer`, `PointerGrammar`, `PointerText`, `PointerObject`, `PointerTree`, `PointerEffects`,
  `PointerDocument`). The texts that parse, the names they denote and the errors of the others are those of RFC 6901
  and of the code's reading of it; parsing and the two printed forms are inverse; creating, reading and erasing agree
  about what a pointer resolves to, and leave the rest of the tree as it was.
- **UTF-8, base58 and 128-bit integers** (`Utf8`, `Radix`, `Base58`, `Bits`, `WideArithmetic`, `Uint128`,
  `Uint128Text`). Codecs are inverse to each other and keep the numbers they code, and word-by-word arithmetic
  computes the integers it stands for.
- **Pool allocator** (`Pool`, `PoolPlacement`, `PoolAllocator`). In every run live blocks stay disjoint and inside
  their chunk, and behave as separate arrays would.
- **Hand-over between threads and callbacks** (`ParseByParts`, `PartsReader`, `WriteQueue`). State machines over the
  stretches of code that run undisturbed, with properties of every run.

`Characters`, `Numerals` and `Options` hold what the modules share. Pure code is modelled by functions; code that
updates state is modelled by classes and loops, each method proved to compute a specification function, and the
results are proved about those functions. A text is a string with one `char` per C++ `char`; a stream is the string
that is still unread, and reading past its end gives NUL.

Where the code departs from what one would state of it, the model follows the code, and the exact condition is proved:

- Looking up a pointer's token in an object passes the name as a C string, so a name is cut at its first NUL, while a
  new member gets the whole name; and a value appended with the token `-` is not found by it again: inputs in
  `PointerTree.NulNameNotFound` and `PointerTree.AppendedNotFound`, the condition in `PointerTree.CreateThenGet`.
- The overflow test of array indices misses some numerals of ten digits and more: an input in
  `PointerText.OverflowMissed`, the condition in `PointerText.IndexFound`, for ten digits in `PointerText.TenDigits`,
  and when the index is the value in `PointerText.IndexExact`.
- The allocator's sums of sizes wrap for requests near 2^64: an input in `Pool.WrapCollides`; a non-null result is
  memory of the size asked for exactly when none does (`PoolAllocator.MemoryPoolAllocator.Malloc`).
- The base58 table has an entry for NUL: an input in `Base58.NulDecodes`, the condition in
  `Base58.OnlyAlphabetAndNul`, `Base58.RefusedExactly` and `Base58.EncodeDecode`.
- The reader refuses a high surrogate that no low one follows, accepts a comma in front of a closing bracket under its
  flag, and does not look behind a NUL: inputs in `JsonGrammar.LoneSurrogateRefused`,
  `JsonGrammar.TrailingCommaByFlag` and `JsonGrammar.BehindNulIgnored`, the condition in `JsonGrammar.AcceptsGrammar`.
- A parser that takes the terminator of the last part sleeps for ever when it looks at the stream again; the reader
  takes none (`PartsReader.ParseAll`), except with validation of encodings: an input in
  `PartsReader.ValidationSleeps`, the condition in `ParseByParts.NoDeadlock` and `ParseByParts.PeekingParserJoins`.
- An empty tuple of `items` is no keyword: an input in `SchemaVerdict.EmptyTupleAccepts`, for every value
  `SchemaVerdict.EmptyTupleIgnored`.
- A property that is required but whose schema has a non-empty default string is not missed when it is absent: an
  input in `SchemaStrict.DefaultAccepted`, the condition for one object in `SchemaStrict.RequiredExact`, for a whole
  value in `SchemaStrict.StrictExact`, and a condition on the schema alone in `SchemaStrict.StrictVerdict`.

## Model

| member | source | states |
|---|---|---|
| Iterative.Transit | external/rapidjson/include/rapidjson/reader.h:1995-2144 | One transition keeps the stack as one (saved state, count) pair per open container with Start only at the bottom and a value position above, consumes input, and sends one event, or none for a delimiter |
| Iterative.FinishInContainer | external/rapidjson/include/rapidjson/reader.h:2064-2122 | When a closing token is predicted a container is open, so both pops find their cells, and the character taken is no NUL |
| Iterative.Next | external/rapidjson/include/rapidjson/reader.h:618-670 | A pull call keeps the stack invariant and consumes input until the parse is complete |
| Drivers.RunValue | external/rapidjson/include/rapidjson/reader.h:1736-1749 | From any state that expects a value, the iterative machine reads exactly the value the recursive parser reads and comes back to the state and stack it started from |
| Drivers.RunElements | external/rapidjson/include/rapidjson/reader.h:806-851 | The iterative machine inside an array does what the recursive element loop does, with the same element count |
| Drivers.RunMembers | external/rapidjson/include/rapidjson/reader.h:736-803 | The iterative machine inside an object does what the recursive member loop does, with the same member count |
| Drivers.IterativeIsRecursive | external/rapidjson/include/rapidjson/reader.h:2175-2208 | For every text, with trailing commas allowed or not, the iterative driver accepts exactly what the recursive one accepts, with the same events and counts |
| Drivers.PullIsRun | external/rapidjson/include/rapidjson/reader.h:618-670 | Pulling from any intermediate state gives the events of the iterative loop from that state |
| Drivers.PullIsRecursive | external/rapidjson/include/rapidjson/reader.h:618-670 | Pulling event by event accepts the same texts with the same events as the recursive parser |
| Drivers.OneEventPerCall | external/rapidjson/include/rapidjson/reader.h:656-658 | Each successful pull before completion sends exactly one event |
| Drivers.DefaultCases | external/rapidjson/include/rapidjson/reader.h:2124-2165 | In every reachable state the default case of the transition is only the single value, ObjectFinish, ArrayFinish and Value are never current, and the error handler's default can only be Element |
| Reader.GenericReader.SkipWs | external/rapidjson/include/rapidjson/reader.h:264-271 | The loop leaves the text behind the leading whitespace |
| Reader.GenericReader.ReadHex4 | external/rapidjson/include/rapidjson/reader.h:903-923 | Four hexadecimal digits as a 16-bit unit without wrap, or an error at the first other character |
| Reader.GenericReader.ReadString | external/rapidjson/include/rapidjson/reader.h:989-1054 | The string loop reads the content up to the closing quote, or fails, as the grammar of strings says |
| Reader.GenericReader.ReadUnicode | external/rapidjson/include/rapidjson/reader.h:1010-1024 | Escaped code units and surrogate pairs become the UTF-8 bytes of the code point |
| Reader.GenericReader.Accumulate32 | external/rapidjson/include/rapidjson/reader.h:1467-1499 | The 32-bit accumulator holds the exact decimal value of the digits taken and stops before the digit that would leave the range |
| Reader.GenericReader.Accumulate64 | external/rapidjson/include/rapidjson/reader.h:1525-1548 | The 64-bit accumulator likewise |
| Reader.GenericReader.ReadMagnitude | external/rapidjson/include/rapidjson/reader.h:1467-1559 | The narrowest accumulator that holds the digits holds their exact value; the double path is taken exactly when none does |
| Reader.GenericReader.ReadInteger | external/rapidjson/include/rapidjson/reader.h:1715-1728 | The integer event of the digits: Int, Uint, Int64 or Uint64 by value, none outside those ranges |
| Reader.GenericReader.ParseNumberToken | external/rapidjson/include/rapidjson/reader.h:1454-1733 | The number token does what the grammar of numbers says: one exact integer event, one double event, or an error |
| Reader.GenericReader.ParseArray | external/rapidjson/include/rapidjson/reader.h:806-851 | The array loop sends the events of the recursive grammar |
| Reader.GenericReader.ParseObject | external/rapidjson/include/rapidjson/reader.h:738-803 | The member loop sends the events of the recursive grammar |
| Reader.GenericReader.Parse | external/rapidjson/include/rapidjson/reader.h:557-588 | The recursive parse accepts and reports exactly what the recursive functions of Grammar define, and takes no NUL from the stream, whether it succeeds or not |
| Reader.GenericReader.Advance | external/rapidjson/include/rapidjson/reader.h:1995-2144 | The transition on the mutable stack computes the next state, stack, text and event of the machine |
| Reader.GenericReader.ParseIteratively | external/rapidjson/include/rapidjson/reader.h:2175-2208 | The iterative parse with its explicit stack accepts and reports exactly what those functions define, and takes no NUL |
| Reader.GenericReader.IterativeParseNext | external/rapidjson/include/rapidjson/reader.h:618-670 | The pull method does one step of the pull machine |
| Reader.DecimalGrows | external/rapidjson/include/rapidjson/reader.h:1478-1498 | A prefix of a digit run never denotes more than the run, so a failed range check on a prefix is final |
| Reader.GenericReader.OutOfRange | external/rapidjson/include/rapidjson/reader.h:1531-1536 | A range check that fails on a prefix of the digits fails on all of them |
| Numerals.HexValueIs | external/rapidjson/include/rapidjson/reader.h:903-923 | The hexadecimal digits are those of either case, each with the value of its place among the digits |
| JsonGrammar.PiecesRead | external/rapidjson/include/rapidjson/reader.h:989-1054 | A string derived by section 7 of RFC 8259 whose high surrogates are followed by low ones is read to its closing quote, as what it means: plain characters, the eight two-character escapes, code units by the places of their digits, and pairs as the code point whose UTF-16 units they are |
| JsonGrammar.PiecesOf | external/rapidjson/include/rapidjson/reader.h:989-1054 | What is read as a string is such a derived string |
| JsonGrammar.NumeralRead | external/rapidjson/include/rapidjson/reader.h:1461-1730 | A number derived by section 6 of RFC 8259 is scanned to its end, as the narrowest integer event of its sign that holds its place value exactly when it has no fraction or exponent and is in range |
| JsonGrammar.NumeralOf | external/rapidjson/include/rapidjson/reader.h:1461-1730 | What is scanned as a number is a derived number |
| JsonGrammar.TreeRead | external/rapidjson/include/rapidjson/reader.h:736-851 | A value derived by sections 2 to 5 of RFC 8259 is accepted up to its end, in front of anything that does not continue a number, with exactly the events of its syntax tree |
| JsonGrammar.TreeOf | external/rapidjson/include/rapidjson/reader.h:736-851 | What is accepted as a value is derived, with a comma in front of a closing bracket only under the flag |
| JsonGrammar.AcceptsGrammar | external/rapidjson/include/rapidjson/reader.h:557-588 | The accepted texts are exactly those that syntax trees of RFC 8259 spell, where high surrogates are followed by low ones and doubles are in range, with trailing commas under the flag, and with anything behind a NUL; the events are those of the syntax tree, contents, numbers and counts included |
| JsonGrammar.JsonTextAccepted | external/rapidjson/include/rapidjson/reader.h:557-588 | Every text of the grammar with paired surrogates and doubles in range is accepted, whatever the flag, with the events of its syntax tree |
| JsonGrammar.AcceptedIsJsonText | external/rapidjson/include/rapidjson/reader.h:557-588 | Without the flag, an accepted text without NUL is a text of the grammar |
| JsonGrammar.LoneSurrogateRefused | external/rapidjson/include/rapidjson/reader.h:1012-1020 | A text of the grammar that is refused: a string of one high surrogate |
| JsonGrammar.TrailingCommaByFlag | external/rapidjson/include/rapidjson/reader.h:834-848 | A comma in front of a closing bracket is accepted exactly under the flag |
| JsonGrammar.BehindNulIgnored | external/rapidjson/include/rapidjson/reader.h:577-583 | Whatever follows a NUL behind the value, the text is accepted |
| RoundTrip.IntegerLiteral | external/rapidjson/include/rapidjson/reader.h:1467-1559 | An integer literal of any length is an exact integer event in the ranges of the four events, -0 included, and a double exactly outside them |
| RoundTrip.EscapeCharRoundTrip | external/rapidjson/include/rapidjson/writer.h:376-470 | The escape of any character, NUL included, reads back as that character |
| RoundTrip.StringRoundTrip | external/rapidjson/include/rapidjson/writer.h:376-470 | The escaped form of any string, followed by a quote, reads back as the string |
| PrinterScalars.EscapeExact | external/rapidjson/include/rapidjson/writer.h:376-470 | Every character is written behind a backslash as its letter where it has one of seven, as a four-digit code with capitals where it is another control character, and as itself otherwise |
| PrinterScalars.IntegerExact | external/rapidjson/include/rapidjson/writer.h:312-346 | An integer is written in decimal by its place value, without leading zeros, behind a minus sign exactly when it is negative |
| RoundTrip.IntegerRoundTrip | external/rapidjson/include/rapidjson/writer.h:312-346 | The printed form of every 64-bit integer, signed or unsigned, reads back as that integer |
| RoundTrip.ValueRoundTrip | external/rapidjson/include/rapidjson/writer.h:473-491 | A printed value, in any layout and whatever follows it, reads back as the value's events, integers by value |
| RoundTrip.TextRoundTrip | external/rapidjson/include/rapidjson/writer.h:473-491 | Parsing the printed text of any tree without doubles gives the tree's events, with trailing commas allowed or not |
| Writer.WriteValue | external/rapidjson/include/rapidjson/writer.h:181-256 | In any open context, the events of a value append exactly its printed text (a double as the literal read), count it as one value and leave the levels below alone |
| Writer.WriteDocument | external/rapidjson/include/rapidjson/writer.h:181-256 | A fresh writer that is sent the events of a value holds its printed text (a double as the literal read) and is complete |
| Writer.ValueSafe | external/rapidjson/include/rapidjson/writer.h:473-491 | Wherever a value may be written, none of its events violates the writer's assertions: one root, names where an object expects them, and each end matching its level, after an even count in an object |
| Writer.TextWriter.CompactPrefix | external/rapidjson/include/rapidjson/writer.h:473-491 | The comma or colon before a value or name, and the count of the level |
| Writer.TextWriter.WriteString | external/rapidjson/include/rapidjson/writer.h:376-470 | The character loop writes the quoted, escaped string |
| Writer.TextWriter.FinishObject | external/rapidjson/include/rapidjson/prettywriter.h:137-155 | Closing an object pops its level and writes the indentation, if it is not empty, and the brace |
| Writer.TextWriter.PrettyPrefix | external/rapidjson/include/rapidjson/prettywriter.h:208-250 | The separator, line break and indentation before a value or name, for both array layouts |
| Writer.TextWriter.WriteIndent | external/rapidjson/include/rapidjson/prettywriter.h:252-255 | The loop writes as many indentation characters as there are open levels times the indent |
| Layout.StripConcat | external/rapidjson/include/rapidjson/prettywriter.h:208-250 | Deleting whitespace outside literals splits over concatenation when the literal state is carried over |
| Layout.QuoteStrips | external/rapidjson/include/rapidjson/writer.h:376-470 | Nothing inside a written literal is deleted, and its escapes never end it early |
| Layout.PrintStrips | external/rapidjson/include/rapidjson/prettywriter.h:123-255 | For every tree, indent and array layout, deleting the whitespace outside literals from the indented text gives exactly the compact text |
| PrettyLayout.ValueRelays | external/rapidjson/include/rapidjson/prettywriter.h:123-250 | At any depth, the indented text of a value is its compact text read once from left to right: a line break behind each opening bracket, each comma and in front of each closing bracket, except in empty containers and in arrays kept on one line, indented by the indent for each bracket that stays open, and one space behind a colon |
| PrettyLayout.PrettyIsRelaid | external/rapidjson/include/rapidjson/prettywriter.h:123-255 | The indented text of a document is exactly its compact text so laid out |
| PrettyLayout.WriterRelays | external/rapidjson/include/rapidjson/prettywriter.h:123-255 | Sent the same document, a pretty writer holds the text of a compact writer so laid out |
| Document.NumberFlags | external/rapidjson/include/rapidjson/document.h:705-742 | A stored number answers to exactly the integer accessors whose range holds its value |
| Document.AcceptIgnoresConstructor | external/rapidjson/include/rapidjson/document.h:1862-1899 | The event a number is reported with depends on its value only, whichever constructor stored it |
| Document.BuildValue | external/rapidjson/include/rapidjson/document.h:2430-2471 | The events of a value push exactly that value on the stack, above what was there |
| Document.ParsedTree | external/rapidjson/include/rapidjson/reader.h:1736-1749 | Every successful parse is the event sequence of some value, all member and element counts included |
| Document.AcceptedTextIsDocument | external/rapidjson/include/rapidjson/document.h:2253-2261 | Every accepted text leaves exactly one value on the stack, and its events are those of that value |
| Document.PrintThenParse | external/rapidjson/include/rapidjson/document.h:2253-2261 | Printing a tree without doubles in any layout and parsing the text rebuilds the same tree |
| Document.GenericDocument.PushScalar | external/rapidjson/include/rapidjson/document.h:2430-2457 | Scalar, name and opening handlers push one value |
| Document.GenericDocument.FinishObject | external/rapidjson/include/rapidjson/document.h:2459-2463 | The closing handler of an object replaces the names and values above it by one object with those members in order |
| Document.GenericDocument.FinishArray | external/rapidjson/include/rapidjson/document.h:2467-2471 | The closing handler of an array replaces its elements by one array |
| FilterKey.FilterMembers | external/rapidjson/example/filterkey/filterkey.cpp:47-58 | The filtered members contain no member of the key |
| FilterKey.FilterLeavesOut | external/rapidjson/example/filterkey/filterkey.cpp:26-99 | At every depth exactly the members of the key are left out: each other member keeps its name and comes behind as many members as stay in front of it, and elements keep their places |
| FilterKey.DropValue | external/rapidjson/example/filterkey/filterkey.cpp:26-99 | Inside a dropped value nothing is forwarded, and its end switches forwarding on again |
| FilterKey.FilterValue | external/rapidjson/example/filterkey/filterkey.cpp:26-99 | The events of a value become exactly the events of the value without that key at every depth, with reduced member counts, and depth and count stack are restored |
| FilterKey.ValueSafe | external/rapidjson/example/filterkey/filterkey.cpp:47-72 | Whatever the state, no name or end of object in the events of a value finds the stack of counts empty when it needs it |
| FilterKey.FilterProgram | external/rapidjson/example/filterkey/filterkey.cpp:108-135 | Reader, filter and writer in a row print, for every accepted text, the filtered document (a double as the literal read), end with depth 0 and no open count, and send neither the filter nor the writer an event its state does not allow |
| FilterKey.FilterKeyHandler.Scalar | external/rapidjson/example/filterkey/filterkey.cpp:26-34 | A scalar handler forwards or drops the event |
| FilterKey.FilterKeyHandler.BeginObject | external/rapidjson/example/filterkey/filterkey.cpp:36-45 | The handler of an opening brace |
| FilterKey.FilterKeyHandler.Name | external/rapidjson/example/filterkey/filterkey.cpp:47-58 | The handler of a name starts dropping, or counts and forwards |
| FilterKey.FilterKeyHandler.FinishObject | external/rapidjson/example/filterkey/filterkey.cpp:60-71 | The handler of a closing brace reports the filtered count |
| FilterKey.FilterKeyHandler.BeginArray | external/rapidjson/example/filterkey/filterkey.cpp:73-80 | The handler of an opening bracket |
| FilterKey.FilterKeyHandler.FinishArray | external/rapidjson/example/filterkey/filterkey.cpp:82-89 | The handler of a closing bracket |
| Schemas.FindProperty | external/rapidjson/include/rapidjson/schema.h:1219-1230 | The index is that of the first property with the name, or there is none |
| SchemaCompile.FindPropertyIndex | external/rapidjson/include/rapidjson/schema.h:1219-1230 | The search loop returns the first index |
| SchemaCompile.AddUniqueElement | external/rapidjson/include/rapidjson/schema.h:1090-1096 | A name is added unless it is there, and names stay distinct |
| SchemaCompile.CompileProperties | external/rapidjson/include/rapidjson/schema.h:485-521 | Compilation gives one property per name in properties or required, with the schema of the name's last declaration and the required flag of exactly the required names |
| SchemaCompile.LastSchemaIs | external/rapidjson/include/rapidjson/schema.h:485-521 | The schema of a name is that of its last declaration, and the typeless one where there is none |
| SchemaCompile.MarkRequired | external/rapidjson/include/rapidjson/schema.h:538-546 | Exactly the properties whose name is listed become required |
| SchemaVerdict.BoundsByValue | external/rapidjson/include/rapidjson/schema.h:1232-1326 | The signed and the unsigned check agree with comparing the integers, whatever the width of the event and the signedness of the bound; a double bound refuses the same integers in both |
| SchemaVerdict.VerdictsCombine | external/rapidjson/include/rapidjson/schema.h:703-783 | When its sub-validators saw exactly the value, the end check of a context decides allOf, anyOf, oneOf and not |
| SchemaVerdict.EndSettles | external/rapidjson/include/rapidjson/schema.h:2261-2298 | A finished context has watched exactly its value, and is popped exactly when the value satisfies its schema |
| SchemaVerdict.ChildOpens | external/rapidjson/include/rapidjson/schema.h:2230-2259 | The first event of an element or member value opens a context with the schema the parent chose, and reaches the sub-validators of all open contexts |
| SchemaVerdict.KeySteps | external/rapidjson/include/rapidjson/schema.h:2119-2125 | A name chooses the schema of the member and reaches all sub-validators, or is refused |
| SchemaVerdict.ElementsSettle | external/rapidjson/include/rapidjson/schema.h:673-701 | Feeding elements leaves the array's context in place exactly when each satisfies the schema of its position |
| SchemaVerdict.MembersSettle | external/rapidjson/include/rapidjson/schema.h:892-939 | Feeding members leaves the object's context in place exactly when each satisfies its schema, with exactly the properties that went by marked |
| SchemaStrict.RequiredExact | external/rapidjson/include/rapidjson/schema.h:941-948 | Every required property is present exactly when the code's check passes and no default string stands in for an absent one |
| SchemaStrict.DefaultAccepted | external/rapidjson/include/rapidjson/schema.h:941-948 | The empty object is accepted although its required property, which has a default string, is absent |
| SchemaStrict.StrictExact | external/rapidjson/include/rapidjson/schema.h:941-948 | When only the schema's own properties may have such a default, a value satisfies the schema without its defaults exactly when it satisfies the schema and no default stands in |
| SchemaStrict.StrictMeaning | external/rapidjson/include/rapidjson/schema.h:941-948 | When no required property at any depth has a default string, a value satisfies the schema with its defaults exactly when it does without them |
| SchemaStrict.StrictVerdict | external/rapidjson/include/rapidjson/schema.h:2074-2145 | The streaming verdict is that of the schema without its defaults for every value when no required property has one, and otherwise except where one stands in |
| SchemaVerdict.RequiredMarked | external/rapidjson/include/rapidjson/schema.h:941-960 | The marks decide the required keyword, properties whose schema has a default excepted |
| SchemaVerdict.ValueSettles | external/rapidjson/include/rapidjson/schema.h:2074-2145 | A value fed on top of any stack ends valid, with the stack below having seen its events, exactly when it satisfies the schema chosen for it |
| SchemaVerdict.StreamingVerdict | external/rapidjson/include/rapidjson/schema.h:2074-2145 | A fresh validator fed the events of any value ends valid exactly when the value satisfies the schema's recursive meaning, and is then as it started |
| SchemaStream.FeedAlike | external/rapidjson/include/rapidjson/schema.h:2101-2111 | Two events for the same integer do the same to a validator and all validators inside it |
| SchemaStream.ReaderVerdict | external/rapidjson/include/rapidjson/schema.h:1750-1770 | A validator fed by the reader ends valid exactly when the document parsed from the text satisfies the schema, for every accepted text |
| SchemaMeaning.DividesMeans | external/rapidjson/include/rapidjson/schema.h:1266-1270 | A number is accepted by multipleOf exactly when it is a product of the divisor and an integer |
| SchemaMeaning.MeetsSaysKeywords | external/rapidjson/include/rapidjson/schema.h:673-960 | A value meets a compiled schema exactly when it satisfies each keyword in its own words: types, allOf, anyOf, oneOf, not, bounds, the counts, the schema of the list or of the position in the tuple or of additional items, the schema of every property of a member's name or of additional properties, and the required properties |
| SchemaMeaning.VerdictSaysKeywords | external/rapidjson/include/rapidjson/schema.h:2074-2145 | A fresh validator fed the events of any value ends valid exactly when the value satisfies these keywords |
| SchemaMeaning.ReaderSaysKeywords | external/rapidjson/include/rapidjson/schema.h:1750-1770 | A validator fed by the reader ends valid exactly when the document of the text satisfies these keywords |
| SchemaSafety.ValueSafe | external/rapidjson/include/rapidjson/schema.h:2244-2244 | No assertion of an event method fails on the events of any value, and the open containers are restored |
| SchemaValidator.CreateParallelValidator | external/rapidjson/include/rapidjson/schema.h:1182-1217 | The validator array holds one started validator per sub-schema, in the order the checks read them |
| SchemaNested.FeedNested | external/rapidjson/include/rapidjson/schema.h:2074-2145 | An event that the open containers allow leaves the stack of the validator, and that of every sub-validator from its own container on, mirroring the open containers |
| SchemaNested.NestedSafe | external/rapidjson/include/rapidjson/schema.h:2244-2244 | On the events of any value no assertion of an event method fails in any sub-validator, at any depth |
| SchemaVerdict.EmptyTupleIgnored | external/rapidjson/include/rapidjson/schema.h:594-599 | An empty tuple of items, whose array is a null pointer, means what an absent keyword means, whatever additionalItems says |
| SchemaVerdict.EmptyTupleAccepts | external/rapidjson/include/rapidjson/schema.h:681-696 | With no items and no additional items allowed, an array of one element is accepted |
| SchemaValidator.BeginElement | external/rapidjson/include/rapidjson/schema.h:673-701 | The schema of an element is that of the list, of its position in a tuple that is not empty, or of the additional items |
| SchemaValidator.MemberKey | external/rapidjson/include/rapidjson/schema.h:892-939 | The schema of a member is that of its property or of the additional properties |
| SchemaValidator.CheckObject | external/rapidjson/include/rapidjson/schema.h:941-960 | The loop over required properties and the two counts |
| SchemaValidator.CheckValue | external/rapidjson/include/rapidjson/schema.h:745-782 | The loops over the sub-validators' verdicts: all, at least one, exactly one, not |
| SchemaValidator.GenericSchemaValidator.BeginValue | external/rapidjson/include/rapidjson/schema.h:2230-2259 | Pushes the context of the root or of the schema the parent chose |
| SchemaValidator.GenericSchemaValidator.ForwardEvent | external/rapidjson/include/rapidjson/schema.h:2081-2091 | The event reaches every sub-validator of every context on the stack |
| SchemaValidator.GenericSchemaValidator.Scalar | external/rapidjson/include/rapidjson/schema.h:2096-2111 | A scalar event updates the stack and the validity as one step of the machine |
| SchemaValidator.GenericSchemaValidator.Start | external/rapidjson/include/rapidjson/schema.h:2113-2117 | StartObject and StartArray likewise |
| SchemaValidator.GenericSchemaValidator.Key | external/rapidjson/include/rapidjson/schema.h:2119-2125 | A name likewise |
| SchemaValidator.GenericSchemaValidator.EndObject | external/rapidjson/include/rapidjson/schema.h:2127-2132 | The end of an object: forward, check, then close |
| SchemaValidator.GenericSchemaValidator.EndArray | external/rapidjson/include/rapidjson/schema.h:2140-2145 | The end of an array likewise |
| SchemaValidator.GenericSchemaValidator.Reset | external/rapidjson/include/rapidjson/schema.h:1843-1851 | Unwinds to a fresh validator |
| SchemaValidator.GenericSchemaValidator.Validate | external/rapidjson/include/rapidjson/schema.h:2101-2145 | Sending a value event by event until one is refused answers whether the value satisfies the schema, keyword by keyword |
| PointerText.IndexExact | external/rapidjson/include/rapidjson/pointer.h:904-920 | The index of a numeral is its value exactly when that is below 2^32 - 1 |
| PointerText.IndexFound | external/rapidjson/include/rapidjson/pointer.h:904-920 | The index of a numeral of any length is its value modulo 2^32, unless the running number is seen to drop at some digit or the outcome is the invalid index |
| PointerText.TenDigits | external/rapidjson/include/rapidjson/pointer.h:907-918 | Of ten-digit numerals the overflow test stops exactly those whose value modulo 2^32 is below their first nine digits |
| PointerText.OverflowMissed | external/rapidjson/include/rapidjson/pointer.h:907-918 | A ten-digit numeral the overflow test misses |
| PointerText.ParsesGrammar | external/rapidjson/include/rapidjson/pointer.h:805-935 | A string that is not a fragment parses exactly when it follows the grammar of section 3 of RFC 6901 |
| PointerGrammar.TripletsRead | external/rapidjson/include/rapidjson/pointer.h:983-1040 | Triplets with digits of either case are read as the bytes of their place values when these are one UTF-8 character |
| PointerGrammar.NameRead | external/rapidjson/include/rapidjson/pointer.h:836-897 | A reference token, as a string or in a fragment, is read up to what follows it as the name it denotes: characters for themselves, escapes, in a fragment also with the tilde as a triplet, and percent-encoded characters |
| PointerGrammar.StuckFails | external/rapidjson/include/rapidjson/pointer.h:836-897 | Where no piece of a token can follow, the error code is that of the reason: no escape, no encoded character, or a character that must be encoded |
| PointerGrammar.ParsesExactly | external/rapidjson/include/rapidjson/pointer.h:805-935 | Exactly the texts of sections 3 and 6 of RFC 6901 parse, the latter behind #, and to exactly the names they denote with the indices of these names |
| PointerGrammar.FailsExactly | external/rapidjson/include/rapidjson/pointer.h:805-935 | Every other text fails with the code of the first place where no piece follows, or because it does not begin with a solidus |
| PointerGrammar.PrintsShortest | external/rapidjson/include/rapidjson/pointer.h:943-975 | Both printed forms spell the pointer with literal tildes, triplets with capitals, and triplets only for characters that are neither unreserved nor a solidus |
| PointerGrammar.IndexMeans | external/rapidjson/include/rapidjson/pointer.h:898-920 | A name has its place value as index exactly when it is an array index of section 4 of RFC 6901 below 2^32 - 1, and no name that is not such an index has any |
| PointerText.ParseFits | external/rapidjson/include/rapidjson/pointer.h:814-821 | One token per solidus, and names with their terminators fit the buffer allocated for the text |
| PointerText.PercentRoundTrip | external/rapidjson/include/rapidjson/pointer.h:983-1040 | Decoding the percent-encoding of a UTF-8 character gives the character |
| PointerText.NameRoundTrip | external/rapidjson/include/rapidjson/pointer.h:836-897 | Parsing a printed name gives it back, in both forms |
| PointerText.PrintsWellFormed | external/rapidjson/include/rapidjson/pointer.h:944-975 | A name has a fragment form exactly when it is well-formed UTF-8 |
| PointerText.StringRoundTrip | external/rapidjson/include/rapidjson/pointer.h:943-975 | Parsing the string form of any pointer gives the pointer back |
| PointerText.FragmentRoundTrip | external/rapidjson/include/rapidjson/pointer.h:943-975 | The URI fragment form exists exactly for UTF-8 names, and parsing it gives the pointer back |
| PointerText.ParsedPrints | external/rapidjson/include/rapidjson/pointer.h:805-935 | A pointer parsed from a string prints as that string |
| PointerObject.PercentDecodeStream.Take | external/rapidjson/include/rapidjson/pointer.h:994-1014 | One triplet as a byte, or 0 and invalid |
| PointerObject.PercentDecodeStream.Validate | external/rapidjson/include/rapidjson/pointer.h:848-856 | Validation from the stream accepts exactly one percent-encoded UTF-8 sequence |
| PointerObject.GenericPointer.ParseToken | external/rapidjson/include/rapidjson/pointer.h:836-897 | The inner loop reads one reference token and knows whether it is all digits |
| PointerObject.GenericPointer.ConvertIndex | external/rapidjson/include/rapidjson/pointer.h:898-920 | The conversion loop computes the index of the name |
| PointerObject.GenericPointer.Parse | external/rapidjson/include/rapidjson/pointer.h:805-935 | The parser's tokens, one per solidus with the index of their name, or its error with no tokens |
| PointerObject.GenericPointer.Stringify | external/rapidjson/include/rapidjson/pointer.h:943-975 | The printing loops write the text of the pointer, or stop at a name that is not UTF-8 |
| Characters.CString | external/rapidjson/include/rapidjson/pointer.h:434-434 | A name looked up as a C string ends at its first NUL |
| PointerTree.PathPlug | external/rapidjson/include/rapidjson/pointer.h:482-510 | A pointer that resolves splits the tree into its path and the value, which can be replaced there |
| PointerTree.CreateExisting | external/rapidjson/include/rapidjson/pointer.h:404-450 | Create reports an existing value exactly when Get resolves, and then leaves the tree unchanged |
| PointerTree.CreateThenGet | external/rapidjson/include/rapidjson/pointer.h:404-450 | After Create or Set, Get gives the value exactly when no step appended to an array or added a name that holds a NUL; otherwise it does not resolve |
| PointerTree.AppendedNotFound | external/rapidjson/include/rapidjson/pointer.h:404-450 | A value appended to an empty array by the token - is not found by it |
| PointerTree.NulNameNotFound | external/rapidjson/include/rapidjson/pointer.h:404-450 | A member created under a name with a NUL inside is not found by that name |
| PointerTree.PlainTokensRetrace | external/rapidjson/include/rapidjson/pointer.h:404-450 | Pointers without the token - and without NULs are among those |
| PointerTree.EraseExact | external/rapidjson/include/rapidjson/pointer.h:714-752 | Erase succeeds exactly for a non-empty pointer that resolves, takes one child out of the parent with the others in order, and otherwise changes nothing |
| PointerEffects.GetResolves | external/rapidjson/include/rapidjson/pointer.h:482-510 | Get gives a value exactly when the pointer leads to it by the first member of each name and the element of each index |
| PointerEffects.CreateMakes | external/rapidjson/include/rapidjson/pointer.h:404-450 | Create and Set make exactly this: old members and elements stay in place, a missing member comes last with the name of its token, an array is filled with nulls up to the index, - adds one element, a value that cannot hold the token becomes an empty container first, and the child on the path is made in turn |
| PointerEffects.EraseCuts | external/rapidjson/include/rapidjson/pointer.h:714-752 | Erase succeeds with exactly this tree: the first member of the name, or the element of the index, is taken out of its container, those behind it move up with their names, and all else stays |
| PointerEffects.EraseKeeps | external/rapidjson/include/rapidjson/pointer.h:714-752 | After an erasure every pointer that turns off the path of the erased one, lowered by one where its index is behind the erased element, gives the same outcome as before |
| PointerDocument.FindMemberNamed | external/rapidjson/include/rapidjson/document.h:1248-1256 | The first member of the name, or none |
| PointerDocument.MakeChild | external/rapidjson/include/rapidjson/pointer.h:409-443 | One step of Create: coercion, padding, appending or adding a member |
| PointerDocument.Document.GetValueByPointer | external/rapidjson/include/rapidjson/pointer.h:482-510 | The value the pointer leads to, or the index of the first token that does not resolve |
| PointerDocument.Document.CreateValueByPointer | external/rapidjson/include/rapidjson/pointer.h:404-450 | The document after creation or setting, with the rest of the tree as it was, and whether the value existed |
| PointerDocument.Document.EraseValueByPointer | external/rapidjson/include/rapidjson/pointer.h:714-752 | The document with the value cut out, or as it was, and whether something was erased |
| Utf8.MaskMeaning | external/rapidjson/include/rapidjson/encodings.h:204-220 | The bits of the range table are the tail-byte ranges of RFC 3629 |
| Utf8.DecodeExact | external/rapidjson/include/rapidjson/encodings.h:146-176 | Decode succeeds exactly on a sequence allowed by section 4 of RFC 3629 at the head of the stream, and takes just that |
| Utf8.DecodeEncode | external/rapidjson/include/rapidjson/encodings.h:102-121 | Decoding what Encode writes for a scalar value gives it back and takes exactly those bytes |
| Utf8.EncodeBits | external/rapidjson/include/rapidjson/encodings.h:102-121 | Encode writes as many bytes as section 3 of RFC 3629 gives the number, the lead byte of that length, and six bits in each further byte, for every number up to 0x10FFFF |
| Utf8.AcceptsWellFormed | external/rapidjson/include/rapidjson/encodings.h:146-176 | Repeated decoding accepts exactly the strings of section 4 of RFC 3629, and re-encoding gives the same bytes |
| Utf8.DecodeAllEncodeAll | external/rapidjson/include/rapidjson/encodings.h:102-121 | Decoding the encoding of any sequence of scalar values gives the sequence |
| Utf8.ValidateAgrees | external/rapidjson/include/rapidjson/encodings.h:178-201 | Validate agrees with Decode and copies exactly the bytes it takes |
| Utf8.Streams.EncodePut | external/rapidjson/include/rapidjson/encodings.h:102-121 | Encode on a stream appends the bytes of the code point |
| Utf8.Streams.DecodeTake | external/rapidjson/include/rapidjson/encodings.h:146-176 | Decode on a stream |
| Utf8.Streams.ValidateCopy | external/rapidjson/include/rapidjson/encodings.h:178-201 | Validate on streams |
| Radix.AbsorbValue | libraries/clcrypto/base58.cpp:30-37 | The carry loop multiplies the number by one base and adds a digit, exactly |
| Radix.CanonicalUnique | libraries/clcrypto/base58.cpp:47-70 | Two numerals without leading zeros and of the same value are the same |
| Radix.ConvertRoundTrip | libraries/clcrypto/base58.cpp:22-70 | Converting digits to another base and back, leading zeros kept one for one, gives the digits back, for any two bases |
| Radix.ConvertKeeps | libraries/clcrypto/base58.cpp:22-70 | Converting digits to another base keeps the number they denote and the count of leading zeros |
| Base58.SameNumber | libraries/clcrypto/base58.cpp:47-70 | The text denotes, by the positions of its characters in the alphabet, the number that the bytes denote, behind as many 1s as there are leading zero bytes |
| Base58.OnlyAlphabetAndNul | libraries/clcrypto/base58.cpp:11-18 | The table has an entry for the 58 characters and, because the terminator is counted, for NUL |
| Base58.NulDecodes | libraries/clcrypto/base58.cpp:11-18 | A NUL decodes like "21", so with NUL in the text decoding is not injective and encoding does not undo it |
| Base58.RefusedExactly | libraries/clcrypto/base58.cpp:22-28 | A text is refused exactly when it holds a character outside the alphabet that is not NUL |
| Base58.DecodeEncode | libraries/clcrypto/base58.cpp:22-70 | Decoding the encoding of any byte string returns it |
| Base58.EncodeDecode | libraries/clcrypto/base58.cpp:22-70 | Encoding the decoding of any text over the alphabet returns it |
| Base58.CarryBound | libraries/clcrypto/base58.cpp:50-62 | A carry below the factor stays below it: at most 255 when encoding |
| Base58.AbsorbDigit | libraries/clcrypto/base58.cpp:30-37 | The inner loop of decoding, with carries at most 57 for digits of the alphabet |
| Base58.AbsorbByte | libraries/clcrypto/base58.cpp:53-61 | The inner loop of encoding, with carries at most 255 |
| Base58.Base58ToBinary | libraries/clcrypto/base58.cpp:22-45 | The decoding loops append exactly the decoded bytes, or refuse |
| Base58.BinaryToBase58 | libraries/clcrypto/base58.cpp:47-70 | The encoding loops compute the encoding |
| Uint128.Uint128.AddAssign | libraries/fc/include/fc/uint128.hpp:65-65 | Addition modulo 2^128 |
| Uint128.Uint128.SubAssign | libraries/fc/include/fc/uint128.hpp:66-66 | Subtraction modulo 2^128 |
| Uint128.Uint128.Negate | libraries/fc/include/fc/uint128.hpp:51-54 | Two's complement negation |
| Uint128.Uint128.Less | libraries/fc/include/fc/uint128.hpp:48-48 | Comparison of the numbers |
| Uint128.Uint128.ShlAssign | libraries/fc/src/uint128.cpp:154-187 | Multiplication by a power of two modulo 2^128, for every amount |
| Uint128.Uint128.ShrAssign | libraries/fc/src/uint128.cpp:189-222 | Division by a power of two, for every amount |
| Uint128.Uint128.MulAssign | libraries/fc/src/uint128.cpp:257-295 | Multiplication modulo 2^128 |
| WideArithmetic.Horner | libraries/fc/src/uint128.cpp:279-292 | Shifting and adding limb columns modulo 2^128 loses only multiples of 2^128 |
| WideArithmetic.Columns | libraries/fc/src/uint128.cpp:269-277 | The product of two four-limb numbers, columns of weight 2^128 and above split off |
| Uint128.Uint128.FullProduct | libraries/fc/src/uint128.cpp:297-349 | high * 2^128 + low equals the product exactly |
| WideArithmetic.FullColumns | libraries/fc/src/uint128.cpp:331-346 | The carried word sums are the product, and the last limb sum does not wrap |
| Uint128.Uint128.Divide | libraries/fc/src/uint128.cpp:13-45 | Quotient and remainder are exact and the remainder is below the divisor, for every divisor but zero, its top bit set or not |
| Uint128.OrSetsBit | libraries/fc/src/uint128.cpp:35-35 | Or with a bit that is not set adds it |
| Uint128.ReadPositional | libraries/fc/src/uint128.cpp:78-109 | A text of digits reads as its positional value modulo 2^128, in each radix |
| Uint128Text.DigitValueIs | libraries/fc/src/uint128.cpp:78-100 | In every radix up to 36 a character is a digit exactly when it is one of the digits and letters, of either case, below the radix, and has its value |
| Uint128Text.TextMeans | libraries/fc/src/uint128.cpp:47-117 | Every text is read as the place value of its digits modulo 2^128, decimal, octal behind 0 or hexadecimal behind 0x, and as its negation behind a minus sign, whatever follows the digits |
| Uint128Text.EveryText | libraries/fc/src/uint128.cpp:47-117 | Every text is spelled by such a sign, prefix, digits and rest |
| Uint128.Uint128.FromText | libraries/fc/src/uint128.cpp:47-117 | The constructor reads sign, radix prefix and digits up to the first other character |
| Uint128.Uint128.ToText | libraries/fc/src/uint128.cpp:131-151 | The conversion writes the canonical decimal digits, and the buffer test never stops it early |
| Uint128.TextRoundTrip | libraries/fc/src/uint128.cpp:131-151 | The text of every 128-bit number reads back as that number; no non-zero number is read as octal |
| Pool.PushSound | external/rapidjson/include/rapidjson/allocators.h:250-262 | A region that meets no chunk can become the head: blocks stay disjoint and inside, the user's buffer stays last |
| Pool.BumpSound | external/rapidjson/include/rapidjson/allocators.h:198-200 | The next bytes of the head meet no live block |
| Pool.ExtendSound | external/rapidjson/include/rapidjson/allocators.h:218-225 | The last block can grow in place without meeting another |
| Pool.LastBlock | external/rapidjson/include/rapidjson/allocators.h:219-219 | The address comparison finds only the block at the end of the head chunk |
| Pool.OldHeadExact | external/rapidjson/include/rapidjson/allocators.h:193-195 | In the head chunk a block fits the memory obtained exactly when the 64-bit sums do not wrap |
| Pool.NewHeadExact | external/rapidjson/include/rapidjson/allocators.h:195-196 | In a new chunk likewise |
| Pool.NewChunk | external/rapidjson/include/rapidjson/allocators.h:195-196 | A new chunk has the larger of the configured and the requested capacity: no less than either, and equal to one; it is empty, and the others stay as they are |
| PoolPlacement.MallocPlaces | external/rapidjson/include/rapidjson/allocators.h:189-201 | A block goes to the next bytes of the head exactly when it has that many left behind its used part, otherwise to the first bytes of a new chunk, and there is none exactly when no chunk is to be had |
| PoolPlacement.ReallocPlaces | external/rapidjson/include/rapidjson/allocators.h:204-235 | A live block made no longer stays, the last one of the head grows in place exactly when the head has the difference left, and any other is placed like a new one |
| Pool.WrapExamples | external/rapidjson/include/rapidjson/allocators.h:193-194 | Sizes near 2^64 for which the sums wrap |
| Pool.WrapCollides | external/rapidjson/include/rapidjson/allocators.h:189-201 | In a pool over a small buffer, a request of 2^64 - 7 bytes and the next one get the same address |
| Pool.StepRefines | external/rapidjson/include/rapidjson/allocators.h:158-235 | Each allocation, reallocation, clearing or write of the caller keeps the pool sound and changes its blocks as it would change separate arrays: a new array, one replaced with its bytes kept, all gone, or one byte |
| Pool.RunSound | external/rapidjson/include/rapidjson/allocators.h:158-262 | In every run where sizes are true and no sum wraps, live blocks are disjoint and inside the used part of their chunk, chunks stay within capacity, the user's buffer stays last, and the blocks behave as separate arrays throughout |
| Pool.RunKeeps | external/rapidjson/include/rapidjson/allocators.h:158-262 | In every run a block that is not resized, written or freed keeps its length and its bytes |
| PoolAllocator.MemoryPoolAllocator.WithBuffer | external/rapidjson/include/rapidjson/allocators.h:138-147 | The user's buffer becomes the first chunk of a valid pool |
| PoolAllocator.MemoryPoolAllocator.Malloc | external/rapidjson/include/rapidjson/allocators.h:189-201 | Null or a new block that meets no live one, chunks within capacity, the buffer last; a non-null result is memory of the size asked for exactly when no sum wraps; the whole new state is the one the runs are about |
| PoolAllocator.MemoryPoolAllocator.Realloc | external/rapidjson/include/rapidjson/allocators.h:204-235 | The block keeps its contents, other live blocks and their bytes are untouched and the pool stays valid, in place or moved; nothing changes when memory is refused; with a wrap the result is not such memory |
| PoolAllocator.MemoryPoolAllocator.ExtendLast | external/rapidjson/include/rapidjson/allocators.h:218-225 | Growth in place, for exactly the last block and if there is room |
| PoolAllocator.MemoryPoolAllocator.Move | external/rapidjson/include/rapidjson/allocators.h:227-234 | Allocation elsewhere and copy of the old bytes |
| PoolAllocator.MemoryPoolAllocator.Clear | external/rapidjson/include/rapidjson/allocators.h:158-166 | Frees each chunk once, the head first, except the user's buffer, which is emptied |
| PoolAllocator.MemoryPoolAllocator.Capacity | external/rapidjson/include/rapidjson/allocators.h:171-176 | The sum of the capacities modulo 2^64 |
| PoolAllocator.MemoryPoolAllocator.Size | external/rapidjson/include/rapidjson/allocators.h:181-186 | The sum of the used sizes modulo 2^64 |
| PoolAllocator.TotalsAdd | external/rapidjson/include/rapidjson/allocators.h:171-186 | The two totals of one chunk are its capacity and its used size, and those of two lists of chunks add up |
| PoolAllocator.Copy | external/rapidjson/include/rapidjson/allocators.h:229-230 | Copying between ranges that do not meet changes only the destination |
| ParseByParts.StepKeeps | external/rapidjson/example/parsebyparts/parsebyparts.cpp:34-112 | Every step of either thread, spurious wake-ups included, keeps the invariant |
| ParseByParts.TakenIsPrefix | external/rapidjson/example/parsebyparts/parsebyparts.cpp:97-112 | In every interleaving the characters taken are a prefix of the parts in order and the terminator, and Tell counts them |
| ParseByParts.StreamIsWholeText | external/rapidjson/example/parsebyparts/parsebyparts.cpp:87-95 | While it works, the parser sees at each position the character of the whole text, however it was cut |
| ParseByParts.NoUnreadOverwritten | external/rapidjson/example/parsebyparts/parsebyparts.cpp:66-69 | Before completion the buffer is replaced only when it is empty |
| ParseByParts.WaitsAreNotified | external/rapidjson/example/parsebyparts/parsebyparts.cpp:79-109 | The two wait conditions never hold together, and a step that ends one notifies who waits on it |
| ParseByParts.NotificationsArrive | external/rapidjson/example/parsebyparts/parsebyparts.cpp:79-109 | A sleeper that was notified is marked until it runs |
| ParseByParts.NoDeadlock | external/rapidjson/example/parsebyparts/parsebyparts.cpp:34-112 | Without spurious wake-ups, the reachable states from which nothing moves are those past the join and those where the parser sleeps after it took the terminator itself |
| ParseByParts.PeekingParserJoins | external/rapidjson/example/parsebyparts/parsebyparts.cpp:87-112 | A parser that takes no NUL, however often it looks at the terminator, leaves every stuck state past the join |
| ParseByParts.TerminatorTaken | external/rapidjson/example/parsebyparts/parsebyparts.cpp:87-112 | Once the terminator is taken, looking at the stream or taking from it again never returns |
| PartsReader.ParseAll | external/rapidjson/example/parsebyparts/parsebyparts.cpp:74-82 | The reader without validation of encodings takes a prefix of the whole text without a NUL, so no interleaving in which the parser thread takes no more gets stuck before the join |
| PartsReader.ValidationSleeps | external/rapidjson/include/rapidjson/encodings.h:179-207 | With validation of encodings a text cut behind the byte 0xF0 makes the parser take the terminator and sleep, and the producer waits in the join |
| ParseByParts.JoinedIsOver | external/rapidjson/example/parsebyparts/parsebyparts.cpp:52-52 | After the join the parser is done and nothing is left to move |
| ParseByParts.AsyncDocumentParser.ParsePart | external/rapidjson/example/parsebyparts/parsebyparts.cpp:55-70 | The producer's code under the mutex is one step |
| ParseByParts.AsyncDocumentParser.Terminate | external/rapidjson/example/parsebyparts/parsebyparts.cpp:34-50 | The destructor's likewise |
| ParseByParts.AsyncDocumentParser.ReadStream | external/rapidjson/example/parsebyparts/parsebyparts.cpp:87-112 | Peek and Take likewise |
| ParseByParts.AsyncDocumentParser.Complete | external/rapidjson/example/parsebyparts/parsebyparts.cpp:73-80 | The end of the parse likewise |
| WriteQueue.RunKeeps | libraries/net/websocket_session.cpp:190-223 | Every callback keeps one write in flight, that of the queue's front, exactly while there is a queue and nothing failed |
| WriteQueue.QueueDelivers | libraries/net/websocket_session.cpp:190-223 | In every order of callbacks at most one write is outstanding, and what was written followed by the queue is what was sent, in order |
| WriteQueue.FailureIsFinal | libraries/net/websocket_session.cpp:207-211 | After a failed write none is started |
| WriteQueue.Drains | libraries/net/websocket_session.cpp:213-222 | While writes succeed, as many completions as there are queued messages deliver everything |
| WriteQueue.WebsocketSession.OnSend | libraries/net/websocket_session.cpp:190-205 | The handler of a posted message is one step |
| WriteQueue.WebsocketSession.OnWrite | libraries/net/websocket_session.cpp:207-223 | The completion handler likewise |

## Left out

- Floating point: a double is the literal it was read from. Which literals overflow to an error is a set, possibly
  infinite, given with the parse flags; a schema gives the set of double literals its bounds refuse, and a bound that
  is a double is given by the integers it refuses. The round trips are for trees without doubles, and the layout
  theorems need the texts of doubles to hold no quotes, no whitespace and, for the place of line breaks, no brackets,
  commas or colons.
- Reader.GenericReader.ParseNumberToken: which double literals overflow is the given set; the value of a double is not
  computed.
- Writer.WriteValue: the writer formats a double anew, while the model writes the literal it was read from.
- Writer.WriteDocument: likewise for a whole document.
- FilterKey.FilterProgram: likewise, so for texts with doubles the printed numbers may be spelled differently.
- Error codes and offsets of the reader and of pointer parsing: a failed parse of the reader is one outcome, and of a
  pointer the code is kept without the offset.
- Parse flags other than trailing commas: comments, in-situ parsing, NaN and infinity, numbers as strings, stopping
  when done, and validation of encodings, of which only the bytes taken by one validation are used.
- JsonGrammar.AcceptsGrammar: strings are sequences of bytes, so that a text is well-formed UTF-8 (section 8.1 of RFC
  8259) is neither asked nor shown.
- Handlers that stop the parse by returning false; the reader's handler always returns true.
- The widths of member and element counts, nesting depths and buffer capacities, which are natural numbers here.
- Decimal printing of integers: the text of an integer is its canonical decimal text; internal/itoa.h is not part of
  this model.
- SIMD variants of the scanning loops.
- Lone low surrogates: an escape outside the pairs is encoded as the reader encodes it, so decoded strings need not be
  valid UTF-8.
- SchemaValidator.GenericSchemaValidator.ForwardEvent: the sub-validators of a context are values that the forwarding
  loop replaces, not objects of their own; each of them is updated by the same step function the class is proved
  against.
- SchemaCompile.CompileProperties: of the compilation of a schema document only the property table is modelled; the
  other keywords are taken as compiled.
- SchemaVerdict.StreamingVerdict: schemas are trees, so a schema that refers back to itself is not one of them; of the
  keywords, those of the next line are missing.
- SchemaStream.ReaderVerdict: likewise.
- Schema keywords decided by hashes or regular expressions (enum, uniqueItems, pattern, patternProperties), string
  lengths, dependencies, references between schemas, and the construction of error reports.
- SchemaValidator.CreateParallelValidator: without the hashers and the validators of schema dependencies.
- SchemaValidator.BeginElement: without the flag of uniqueItems.
- SchemaValidator.MemberKey: without patternProperties.
- SchemaValidator.CheckObject: without dependencies.
- SchemaValidator.CheckValue: without the verdicts on enum and on patterns.
- SchemaValidator.GenericSchemaValidator.BeginValue: without validators for patterns and without the document path.
- SchemaValidator.GenericSchemaValidator.Scalar: without string lengths and the output handler that events are passed
  to.
- SchemaValidator.GenericSchemaValidator.Start: without the output handler.
- SchemaValidator.GenericSchemaValidator.Key: without the output handler and the document path.
- SchemaValidator.GenericSchemaValidator.EndObject: without the output handler.
- SchemaValidator.GenericSchemaValidator.EndArray: without the output handler.
- PointerObject.GenericPointer.Parse: the error code is kept, the offset of the error is not.
- Utf8.Encode, Uint128 and the allocator write bit operations as arithmetic on natural numbers, except the
  disjunctions of Uint128, which are bitwise, and the masks of the UTF-8 table, which are bit vectors.
- PointerDocument.Document.CreateValueByPointer: values are copied, so the reference returned by Create is modelled by
  the value that is put there, and the growth of arrays has no capacity.
- PoolAllocator.MemoryPoolAllocator.Malloc: what the base allocator answers is a parameter that may be null or any
  region that meets no chunk; alignment is relative to the chunk.
- PoolAllocator.MemoryPoolAllocator.Size: that the sums of sizes fit 64 bits is not stated.
- ParseByParts: the parser is any sequence of Peek, Take and the end of the parse; the mutex and the condition
  variables are those of the language, with wake-ups of sleepers that may also be spurious.
- WriteQueue: sockets, the executor's queue of posted messages, and reading from the connection.
- Uint128: division by operator/=, which calls another library, conversions to bigint, and population counts.
- The rest of the repository: block production, consensus, storage, networking set-up, key handling, command line
  tools and user interfaces, which are I/O, calls into other libraries or thin wrappers.
