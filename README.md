# ProtoSchemaParser in Dafny

This project models `ProtoSchemaParser`, a hand-written recursive-descent
parser for `.proto` schema text. The parser holds the whole document as a
character buffer and keeps a cursor `pos` into it. It also keeps two fields of
line bookkeeping, `line` (newlines consumed so far) and `lineStart` (where the
current line begins), and four lists that it collects:

- the package name;
- the imported files;
- every message, nested ones included;
- every enum, nested ones included.

Character-level readers skip whitespace and comments, and read words, quoted
strings, integers and comment text. The declaration readers are the dispatcher
`readDeclaration` and the builders for messages, enums, fields, option lists
and enum constants. Every syntax error aborts the parse and reports a line and
a column.

The model has two layers.

- **Specification functions.** These are pure functions over a `Cursor`
  (modules `Scanner` and `Grammar`). A `Cursor` holds the input, the position
  and the line bookkeeping. The declaration functions work on a `State`, which
  is a cursor together with the collected lists. Each function returns
  `Next(value, state after)` or `Abort(error)`. `Error` carries an error kind,
  a 1-based line and a 1-based column.
- **The parser object.** `Parser.ProtoSchemaParser` is a class with the
  parser's fields. Its methods update those fields in place, with the same
  loops as the parser. The one exception is the block-comment loop, which
  runs the corrected scan described under Findings. Each method is proved to return what the specification
  function of the same name returns. On success it is also proved to leave the
  fields in the state that function ends in: `Agrees(r, F(old(state)), state)`.
  The proofs also show that every loop and every recursive call terminates.
  The measure is the input left to read: every iteration consumes at least
  one character.

The properties are proved about the specification functions:

- in `ScannerProperties`: words, quoted strings, comments and documentation;
- in `GrammarProperties`: where each declaration may appear, what each
  declaration records, and whole-file parsing;
- in `OrderedMap`: the insertion-ordered option map;
- in `ReadBack`: well-formed declarations are accepted. The text of a field or
  an enum constant reads back as the value it spells, for any word names and
  any tag word that parses, and a word after a block comment is read back.

The module `AsWritten` holds the block-comment scan as the source writes it
(see Findings).

The model follows these behaviours of the code, which a reader of the `.proto`
format might not expect:

- `readWord` and `readString` skip comments as well as whitespace.
- `import` is accepted inside a message.
- Nested messages and enums are parsed and appended to the flat lists. A
  message is appended after everything nested in it.
- `/** doc */` documents with `* doc `: the body is exactly the text between
  the markers.
- Tags are limited to the 32-bit range, because the source parses them with
  `Integer.valueOf`.

## Model

| member | source | states |
|---|---|---|
| Parser.ProtoSchemaParser.constructor | src/main/java/com/squareup/protoss/schema/ProtoSchemaParser.java:57-59 | a new parser is at offset 0 on line 0 with nothing collected (`Grammar.Start`) |
| Parser.ProtoSchemaParser.Newline | src/main/java/com/squareup/protoss/schema/ProtoSchemaParser.java:375-378 | counts one more line and starts the next line at the current position |
| Parser.ProtoSchemaParser.Consume | src/main/java/com/squareup/protoss/schema/ProtoSchemaParser.java:362-363 | consuming one character keeps the line bookkeeping right: a newline starts the next line just after it |
| Parser.ProtoSchemaParser.SkipWhitespace | src/main/java/com/squareup/protoss/schema/ProtoSchemaParser.java:358-370 | the loop returns and ends where `SkipWhitespaceF` does, including comment errors |
| Scanner.SkipWhitespaceF | src/main/java/com/squareup/protoss/schema/ProtoSchemaParser.java:358-370 | stops at the end of input or at a character it does not skip; with comment skipping, a `/` under the cursor starts a comment read by `ReadCommentF`, after which the skip goes on from the comment's end, and an error of that read is passed on unchanged; without comment skipping it never fails and passes only whitespace; where there is nothing to skip it moves nowhere |
| Parser.ProtoSchemaParser.ReadComment | src/main/java/com/squareup/protoss/schema/ProtoSchemaParser.java:323-352 | returns the comment body and the cursor after it, as `ReadCommentF` does |
| Parser.ProtoSchemaParser.BlockCommentBody | src/main/java/com/squareup/protoss/schema/ProtoSchemaParser.java:327-338 | the block-comment loop agrees with the corrected scan `BlockCommentF`, not with the loop as written (see Findings) |
| Parser.ProtoSchemaParser.LineCommentBody | src/main/java/com/squareup/protoss/schema/ProtoSchemaParser.java:339-348 | the line-comment loop agrees with `LineCommentF`: it ends where `LineCommentEnd` says and returns the same text or the same error |
| Scanner.LineCommentF | src/main/java/com/squareup/protoss/schema/ProtoSchemaParser.java:339-348 | a line comment ends just past its first newline, or at the end of the input, and its text is everything before that end except the last character read; a `//` with nothing after it fails with the out-of-bounds error |
| Scanner.ReadCommentF | src/main/java/com/squareup/protoss/schema/ProtoSchemaParser.java:323-352 | a comment read consumes its marker and keeps the line tracking right; it fails with "unexpected '/'" exactly when the `/` is followed by neither `*` nor `/` |
| Scanner.BlockCommentF | src/main/java/com/squareup/protoss/schema/ProtoSchemaParser.java:326-339 | a block comment ends just past the first `*/`, and its value is the text between the markers; otherwise it is an unterminated comment |
| Scanner.BlockCommentFirstCloser | src/main/java/com/squareup/protoss/schema/ProtoSchemaParser.java:328-331 | no `*/` occurs before the one that ends the comment |
| Scanner.BlockCommentUnterminated | src/main/java/com/squareup/protoss/schema/ProtoSchemaParser.java:327-338 | the scan fails exactly when no `*/` follows |
| Scanner.LineCommentEnd | src/main/java/com/squareup/protoss/schema/ProtoSchemaParser.java:340-347 | a line comment's scan stops just past the first newline, or at the end of the input |
| ScannerProperties.ReadBlockComment | src/main/java/com/squareup/protoss/schema/ProtoSchemaParser.java:326-333 | `/*` body `*/`, with no `*/` inside the body, reads back exactly the body |
| ScannerProperties.DocCommentBody | src/main/java/com/squareup/protoss/schema/ProtoSchemaParser.java:326-333 | `/** doc */` has the body `* doc ` |
| ScannerProperties.ReadLineComment | src/main/java/com/squareup/protoss/schema/ProtoSchemaParser.java:339-348 | `//` text newline reads back the text, and the cursor ends past the newline |
| ScannerProperties.LineCommentAtEndOfInput | src/main/java/com/squareup/protoss/schema/ProtoSchemaParser.java:339-348 | a line comment that runs to the end of the input loses its last character |
| Parser.ProtoSchemaParser.ReadDocumentation | src/main/java/com/squareup/protoss/schema/ProtoSchemaParser.java:306-318 | the loop agrees with `ReadDocumentationF` |
| Scanner.ReadDocumentationF | src/main/java/com/squareup/protoss/schema/ProtoSchemaParser.java:306-318 | documentation stops at the end of input or at a significant character; it can fail only with a comment error |
| ScannerProperties.ReadDocumentationJoins | src/main/java/com/squareup/protoss/schema/ProtoSchemaParser.java:306-318 | documentation is the comment bodies before the next token, in order, joined by single newlines, and `""` when there is none; it fails where reading them fails |
| ScannerProperties.DocumentationLoopJoins | src/main/java/com/squareup/protoss/schema/ProtoSchemaParser.java:308-317 | the loop adds each comment body, after a newline, to the text so far |
| Parser.ProtoSchemaParser.PeekChar | src/main/java/com/squareup/protoss/schema/ProtoSchemaParser.java:234-238 | agrees with `PeekCharF` |
| Scanner.PeekCharF | src/main/java/com/squareup/protoss/schema/ProtoSchemaParser.java:234-238 | returns the character `SkipWhitespaceF` (with comments) stops at, and leaves the cursor exactly where that scan ends, without consuming the character; a character that needs no skipping is returned in place; when the scan reaches the end of the input it is "unexpected end of file"; a comment error of the scan is passed on unchanged; it succeeds whenever that scan stops before the end of the input |
| Parser.ProtoSchemaParser.ReadChar | src/main/java/com/squareup/protoss/schema/ProtoSchemaParser.java:224-228 | agrees with `ReadCharF` |
| Scanner.ReadCharF | src/main/java/com/squareup/protoss/schema/ProtoSchemaParser.java:224-228 | returns the character `PeekCharF` finds, wherever it is, and consumes it: the cursor ends one past where peeking leaves it; peeking's error is passed on unchanged |
| Parser.ProtoSchemaParser.ReadWord | src/main/java/com/squareup/protoss/schema/ProtoSchemaParser.java:269-287 | the loop agrees with `ReadWordF` |
| Scanner.ReadWordF | src/main/java/com/squareup/protoss/schema/ProtoSchemaParser.java:269-287 | after whitespace and comments, returns the maximal non-empty run of `[A-Za-z0-9_.-]` with the cursor just past it; once the skip succeeds it succeeds exactly when that run is non-empty, and fails with "expected a word" at the skip's end otherwise; an error of the skip is passed on unchanged |
| Scanner.WordAtF | src/main/java/com/squareup/protoss/schema/ProtoSchemaParser.java:272-287 | the run of word characters under the cursor is read with the cursor just past it, and it is "expected a word" exactly when that run is empty |
| ScannerProperties.ReadWordAt | src/main/java/com/squareup/protoss/schema/ProtoSchemaParser.java:269-287 | a maximal run of word characters under the cursor is read back exactly |
| Parser.ProtoSchemaParser.ReadInt | src/main/java/com/squareup/protoss/schema/ProtoSchemaParser.java:292-299 | agrees with `ReadIntF` |
| Scanner.ReadIntF | src/main/java/com/squareup/protoss/schema/ProtoSchemaParser.java:292-299 | a tag is the next word, with the cursor just past it, and its value is that word parsed by `ParseInt` as a 32-bit decimal; a word that parses is always accepted, it is "expected an integer" exactly when the word does not parse, and an error of `ReadWordF` is passed on unchanged |
| Numbers.ParseInt | src/main/java/com/squareup/protoss/schema/ProtoSchemaParser.java:295 | a parse succeeds only on an optional `-` and at least one digit, within the 32-bit range |
| Numbers.ParseDecimalString | src/main/java/com/squareup/protoss/schema/ProtoSchemaParser.java:295 | every 32-bit integer written in decimal parses back to itself |
| Parser.ProtoSchemaParser.ReadQuotedString | src/main/java/com/squareup/protoss/schema/ProtoSchemaParser.java:248-264 | agrees with `ReadQuotedStringF` |
| Parser.ProtoSchemaParser.QuotedBody | src/main/java/com/squareup/protoss/schema/ProtoSchemaParser.java:251-263 | the loop agrees with `QuotedBodyF` |
| Scanner.ReadQuotedStringF | src/main/java/com/squareup/protoss/schema/ProtoSchemaParser.java:248-264 | a quoted string consumes at least its two quotes; it fails only as an unterminated string or an unexpected end of file |
| ScannerProperties.ReadQuotedStringRoundTrip | src/main/java/com/squareup/protoss/schema/ProtoSchemaParser.java:248-264 | a string written with a backslash before each quote and backslash reads back as that string, and the cursor ends past the closing quote |
| ScannerProperties.ReadQuotedStringUnescapes | src/main/java/com/squareup/protoss/schema/ProtoSchemaParser.java:248-264 | any quoted body, with no unescaped quote and no backslash at its end, reads as `Unescape` of it: each backslash dropped and the character after it, whatever it is, kept; the cursor ends past the closing quote |
| ScannerProperties.QuotedBodyUnescapes | src/main/java/com/squareup/protoss/schema/ProtoSchemaParser.java:251-263 | the reading loop appends what a quoted body stands for and stops just past the quote after it |
| ScannerProperties.UnescapeEscape | src/main/java/com/squareup/protoss/schema/ProtoSchemaParser.java:254-258 | writing a string with `Escape` gives a quoted body, and `Unescape` of it is the string again |
| ScannerProperties.QuotedBodyKeepsPrefix | src/main/java/com/squareup/protoss/schema/ProtoSchemaParser.java:260 | the characters read so far stay at the front of the result |
| ScannerProperties.ReadQuotedStringEndsAtQuote | src/main/java/com/squareup/protoss/schema/ProtoSchemaParser.java:253 | a quoted string ends just past a quote |
| ScannerProperties.QuotedBodyUnterminated | src/main/java/com/squareup/protoss/schema/ProtoSchemaParser.java:250-263 | for every quoted body, escapes of any character included, input that ends inside the string is "unterminated string" |
| ScannerProperties.QuotedBodyTrailingBackslash | src/main/java/com/squareup/protoss/schema/ProtoSchemaParser.java:250-256 | for every quoted body, input that ends right after an escaping backslash is "unexpected end of file" |
| ScannerProperties.ReadQuotedStringUnterminated | src/main/java/com/squareup/protoss/schema/ProtoSchemaParser.java:248-264 | an opening quote followed by any quoted body and then the end of the input is "unterminated string", and with a lone backslash after the body it is "unexpected end of file" |
| Parser.ProtoSchemaParser.ReadString | src/main/java/com/squareup/protoss/schema/ProtoSchemaParser.java:243-246 | agrees with `ReadStringF` |
| Scanner.ReadStringF | src/main/java/com/squareup/protoss/schema/ProtoSchemaParser.java:243-246 | a `"` as the next significant character starts a quoted string, read by `ReadQuotedStringF`; any other character starts a word, read by `ReadWordF`; peeking's error is passed on; a string read always consumes input and keeps the line bookkeeping right |
| Scanner.PositionOfTracked | src/main/java/com/squareup/protoss/schema/ProtoSchemaParser.java:375-386 | with the bookkeeping right, `line()` is one more than the newlines before the cursor, and `column()` is one more than the characters since the last newline |
| Scanner.Advance | src/main/java/com/squareup/protoss/schema/ProtoSchemaParser.java:375-378 | consuming a character keeps the line bookkeeping right |
| Parser.ProtoSchemaParser.Expect | src/main/java/com/squareup/protoss/schema/ProtoSchemaParser.java:168 | agrees with `ExpectF` |
| Grammar.ExpectF | src/main/java/com/squareup/protoss/schema/ProtoSchemaParser.java:168 | succeeds exactly when the next significant character is the expected one, and consumes it; any other character is the given error, reported just after that character |
| Parser.ProtoSchemaParser.ReadOptions | src/main/java/com/squareup/protoss/schema/ProtoSchemaParser.java:186-208 | agrees with `ReadOptionsF` |
| Parser.ProtoSchemaParser.OptionEntries | src/main/java/com/squareup/protoss/schema/ProtoSchemaParser.java:195-207 | the loop agrees with `OptionEntriesF` |
| Grammar.ReadOptionsF | src/main/java/com/squareup/protoss/schema/ProtoSchemaParser.java:186-208 | after the `[`, a `]` as the next significant character is the empty list; any other character starts the entries, read by `OptionEntriesF` from the empty map; peeking's error is passed on; the names of the list are distinct |
| Grammar.OptionEntriesF | src/main/java/com/squareup/protoss/schema/ProtoSchemaParser.java:195-207 | entries only add names, after the names already present, and keep the names distinct |
| GrammarProperties.EmptyOptions | src/main/java/com/squareup/protoss/schema/ProtoSchemaParser.java:190-193 | `[]` is the empty option list |
| GrammarProperties.OptionEntryStep | src/main/java/com/squareup/protoss/schema/ProtoSchemaParser.java:195-207 | each entry is put into the map; then `]` ends the list, `,` goes on, and anything else is "expected ','" |
| OrderedMap.Put | src/main/java/com/squareup/protoss/schema/ProtoSchemaParser.java:199 | the name then maps to the value and every other name is unchanged; a repeated name keeps its first place, and a new name goes last |
| OrderedMap.PutKeepsKeysUnique | src/main/java/com/squareup/protoss/schema/ProtoSchemaParser.java:199 | putting keeps the names already present at the front, in their order, and keeps distinct names distinct |
| OrderedMap.GetFindsEntry | src/main/java/com/squareup/protoss/schema/ProtoSchemaParser.java:173-175 | with distinct names, a lookup finds exactly the stored pair |
| OrderedMap.GetAbsent | src/main/java/com/squareup/protoss/schema/ProtoSchemaParser.java:173-175 | a lookup finds nothing exactly when no pair has the name |
| Parser.ProtoSchemaParser.ReadField | src/main/java/com/squareup/protoss/schema/ProtoSchemaParser.java:161-184 | agrees with `ReadFieldF` |
| Parser.ProtoSchemaParser.FieldHead | src/main/java/com/squareup/protoss/schema/ProtoSchemaParser.java:166-169 | agrees with `FieldHeadF` |
| Parser.ProtoSchemaParser.FieldOptions | src/main/java/com/squareup/protoss/schema/ProtoSchemaParser.java:170-177 | agrees with `FieldOptionsF` |
| Grammar.ReadFieldF | src/main/java/com/squareup/protoss/schema/ProtoSchemaParser.java:161-184 | a field keeps the label and documentation it is given; its type, name and tag are those `FieldHeadF` reads; its tag is 32-bit; when the head and options are read and `;` follows, the field is accepted with the cursor just past the `;` |
| Grammar.FieldHeadF | src/main/java/com/squareup/protoss/schema/ProtoSchemaParser.java:166-169 | the type is the first word and the name the second; then `=` must follow, and the tag is what `ReadIntF` reads after it, with the cursor just past the tag; when both words, the `=` and the integer are read, the head is accepted |
| Grammar.FieldOptionsF | src/main/java/com/squareup/protoss/schema/ProtoSchemaParser.java:170-177 | without a `[` there are no options; after a `[` the options are exactly those `ReadOptionsF` reads, and when that list reads and a significant character follows, the options are accepted with the cursor left on that character; the names are distinct |
| GrammarProperties.FieldTakesOptions | src/main/java/com/squareup/protoss/schema/ProtoSchemaParser.java:170-176 | a field is deprecated exactly when a `deprecated` option reads as true; it has a default exactly when there is a `default` option, and then it is that option's raw value |
| GrammarProperties.FieldWithoutOptions | src/main/java/com/squareup/protoss/schema/ProtoSchemaParser.java:162-171 | a field without options is not deprecated and has no default |
| GrammarProperties.FieldNeedsSemicolon | src/main/java/com/squareup/protoss/schema/ProtoSchemaParser.java:178-183 | a field not ended by `;` is "expected ';'" |
| GrammarProperties.ParseBooleanExamples | src/main/java/com/squareup/protoss/schema/ProtoSchemaParser.java:174 | `true`, `TRUE` and `True` read as true; `false`, `1`, `yes` and `truer` do not |
| GrammarProperties.ParseBooleanIgnoresCase | src/main/java/com/squareup/protoss/schema/ProtoSchemaParser.java:174 | for every string: it reads as true exactly when it has four characters, `t`, `r`, `u`, `e`, each in either case |
| Grammar.LabelOf | src/main/java/com/squareup/protoss/schema/ProtoSchemaParser.java:97 | exactly `required`, `optional` and `repeated` are labels, each naming its own cardinality |
| Parser.ProtoSchemaParser.ReadEnumValue | src/main/java/com/squareup/protoss/schema/ProtoSchemaParser.java:213-219 | agrees with `ReadEnumValueF` |
| Grammar.ReadEnumValueF | src/main/java/com/squareup/protoss/schema/ProtoSchemaParser.java:213-219 | an enum constant is named by its first word and keeps the documentation it is given; after `=` its tag is what `ReadIntF` reads, a 32-bit value; when the name, `=`, a tag that parses and `;` are read, the constant is accepted |
| ReadBack.EnumValueRoundTrip | src/main/java/com/squareup/protoss/schema/ProtoSchemaParser.java:213-219 | `name=k;`, with `name` a word and `k` a word that parses as `n`, reads as the constant `name` with tag `n` and the given documentation, with the cursor just past the `;` |
| ReadBack.FieldHeadRoundTrip | src/main/java/com/squareup/protoss/schema/ProtoSchemaParser.java:166-169 | ` type name=k` reads as the type, the name and the tag `k` spells, with the cursor just past `k` and the rest of the input untouched |
| ReadBack.FieldRoundTrip | src/main/java/com/squareup/protoss/schema/ProtoSchemaParser.java:161-184 | ` type name=k;` after a label reads as the field with that label, type, name, tag and documentation, no default and not deprecated, with the cursor just past the `;` |
| ReadBack.FieldSteps | src/main/java/com/squareup/protoss/schema/ProtoSchemaParser.java:170-181 | a field head followed directly by `;` has no options: no default, not deprecated, and the cursor ends past the `;` |
| ReadBack.WordAfterComment | src/main/java/com/squareup/protoss/schema/ProtoSchemaParser.java:358-370 | a comment under the cursor that is read and is followed by a word character is skipped: the word read from the start of the comment is the one read from its end |
| ReadBack.WordAfterBlockComment | src/main/java/com/squareup/protoss/schema/ProtoSchemaParser.java:358-370 | a block comment before a word is skipped: `/*body*/` followed by a word reads back that word, with the cursor just past it |
| ReadBack.TagSpelling | src/main/java/com/squareup/protoss/schema/ProtoSchemaParser.java:292-299 | every 32-bit integer has a decimal spelling that is a word and parses back to it, so every tag can be written |
| Parser.ProtoSchemaParser.ReadEnumType | src/main/java/com/squareup/protoss/schema/ProtoSchemaParser.java:143-156 | agrees with `ReadEnumTypeF`, including the enum it appends |
| Parser.ProtoSchemaParser.EnumBody | src/main/java/com/squareup/protoss/schema/ProtoSchemaParser.java:147-154 | the loop agrees with `EnumBodyF` |
| Grammar.ReadEnumTypeF | src/main/java/com/squareup/protoss/schema/ProtoSchemaParser.java:143-156 | appends exactly one enum, named by the word after `enum` and with the given documentation, and changes nothing else |
| Grammar.EnumBodyF | src/main/java/com/squareup/protoss/schema/ProtoSchemaParser.java:147-154 | constants are only added after those already read, and input is consumed |
| Grammar.RecordEnum | src/main/java/com/squareup/protoss/schema/ProtoSchemaParser.java:155 | the enum becomes the last one, and everything else stays as it was |
| GrammarProperties.EnumBodyCollectsValues | src/main/java/com/squareup/protoss/schema/ProtoSchemaParser.java:147-154 | an enum body appends exactly the constants read one by one by `ReadEnumValueF` (`EnumValuesF`), in order, to those read before it; it ends where they end and fails as they fail |
| GrammarProperties.EnumRecordedWithValues | src/main/java/com/squareup/protoss/schema/ProtoSchemaParser.java:143-156 | an enum is appended once, after its body, under its name and documentation, with exactly the constants of its body |
| Parser.ProtoSchemaParser.ReadDeclaration | src/main/java/com/squareup/protoss/schema/ProtoSchemaParser.java:71-117 | agrees with `ReadDeclarationF`, including what it records |
| Parser.ProtoSchemaParser.KeywordDeclaration | src/main/java/com/squareup/protoss/schema/ProtoSchemaParser.java:82-116 | agrees with `KeywordDeclarationF` |
| Parser.ProtoSchemaParser.PackageName | src/main/java/com/squareup/protoss/schema/ProtoSchemaParser.java:85-86 | agrees with `PackageNameF` |
| Parser.ProtoSchemaParser.FileOption | src/main/java/com/squareup/protoss/schema/ProtoSchemaParser.java:91-94 | agrees with `FileOptionF` |
| Parser.ProtoSchemaParser.ExtensionsRange | src/main/java/com/squareup/protoss/schema/ProtoSchemaParser.java:103-106 | agrees with `ExtensionsRangeF` |
| Parser.ProtoSchemaParser.Import | src/main/java/com/squareup/protoss/schema/ProtoSchemaParser.java:110-111 | agrees with `ImportF` |
| Grammar.PackageNameF | src/main/java/com/squareup/protoss/schema/ProtoSchemaParser.java:85-86 | the package name is the next word; the declaration is accepted exactly when a word and then `;` are read, with the cursor just past the `;` |
| Grammar.FileOptionF | src/main/java/com/squareup/protoss/schema/ProtoSchemaParser.java:91-94 | an option is accepted exactly when a word, `=`, a string and `;` are read in turn, and input is consumed |
| Grammar.ExtensionsRangeF | src/main/java/com/squareup/protoss/schema/ProtoSchemaParser.java:103-106 | an extensions range is accepted exactly when three words and then `;` are read in turn, consuming more than three characters |
| Grammar.ImportF | src/main/java/com/squareup/protoss/schema/ProtoSchemaParser.java:110-111 | the imported name is the next string; the declaration is accepted exactly when a string and then `;` are read, with the cursor just past the `;` |
| Grammar.ReadDeclarationF | src/main/java/com/squareup/protoss/schema/ProtoSchemaParser.java:71-117 | a declaration consumes input and only adds to what was collected; a field is returned only inside a message, and then nothing is recorded |
| Grammar.KeywordDeclarationF | src/main/java/com/squareup/protoss/schema/ProtoSchemaParser.java:82-116 | the same for the declarations other than messages and enums |
| GrammarProperties.ContextRules | src/main/java/com/squareup/protoss/schema/ProtoSchemaParser.java:71-117 | a nested `package` or `option`, a second package, a top-level field or `extensions`, and an unknown first word each fail with their own error, reported just after the word |
| GrammarProperties.AllowedAtAnyDepth | src/main/java/com/squareup/protoss/schema/ProtoSchemaParser.java:74-112 | `message`, `enum` and `import` parse the same at any depth |
| GrammarProperties.NoTopLevelFields | src/main/java/com/squareup/protoss/schema/ProtoSchemaParser.java:97-99 | no top-level declaration yields a field |
| GrammarProperties.PackageSetsName | src/main/java/com/squareup/protoss/schema/ProtoSchemaParser.java:82-87 | the first package declaration sets the package name to the word after it |
| GrammarProperties.ImportAppendsOne | src/main/java/com/squareup/protoss/schema/ProtoSchemaParser.java:109-112 | an import appends exactly its file name, last, and changes nothing else |
| Parser.ProtoSchemaParser.ReadMessage | src/main/java/com/squareup/protoss/schema/ProtoSchemaParser.java:122-138 | agrees with `ReadMessageF`, including the message it appends |
| Parser.ProtoSchemaParser.MessageBody | src/main/java/com/squareup/protoss/schema/ProtoSchemaParser.java:126-136 | the loop agrees with `MessageBodyF` |
| Grammar.ReadMessageF | src/main/java/com/squareup/protoss/schema/ProtoSchemaParser.java:122-138 | a message only adds to what was collected; the last message is the one just read, with its name and documentation |
| Grammar.MessageBodyF | src/main/java/com/squareup/protoss/schema/ProtoSchemaParser.java:126-136 | a body only adds to what was collected, and only adds fields after those already read |
| Grammar.RecordMessage | src/main/java/com/squareup/protoss/schema/ProtoSchemaParser.java:137 | the message becomes the last one, and everything else stays as it was |
| GrammarProperties.MessageBodyCollectsFields | src/main/java/com/squareup/protoss/schema/ProtoSchemaParser.java:126-136 | a message's fields are exactly the fields its declarations yield, in order |
| GrammarProperties.MessageRecordedAfterNested | src/main/java/com/squareup/protoss/schema/ProtoSchemaParser.java:122-138 | a message is appended once, after everything declared inside it, with exactly the fields of its body |
| Parser.ProtoSchemaParser.ReadProtoFile | src/main/java/com/squareup/protoss/schema/ProtoSchemaParser.java:61-69 | agrees with `ReadProtoFileF` |
| Parser.ProtoSchemaParser.FileBody | src/main/java/com/squareup/protoss/schema/ProtoSchemaParser.java:62-68 | the loop agrees with `FileBodyF` |
| Grammar.ReadProtoFileF | src/main/java/com/squareup/protoss/schema/ProtoSchemaParser.java:61-69 | a file is read to the end of its input, and holds the given file name and everything collected |
| Grammar.FileBodyF | src/main/java/com/squareup/protoss/schema/ProtoSchemaParser.java:62-68 | the declarations are read to the end of the input, and only add to what was collected |
| Grammar.ParseF | src/main/java/com/squareup/protoss/schema/ProtoSchemaParser.java:57-69 | a successful parse of a fresh parser ends at the end of input with the line bookkeeping right |
| GrammarProperties.ParseConsumesInput | src/main/java/com/squareup/protoss/schema/ProtoSchemaParser.java:61-69 | a successful parse consumes the whole input; `line()` is then the number of newlines plus one, and `column()` is one more than the length of the last line |
| GrammarProperties.OnlyCommentsIsEmpty | src/main/java/com/squareup/protoss/schema/ProtoSchemaParser.java:61-69 | input of only whitespace and comments is an empty file |
| AsWritten.BlockCommentAsWritten | src/main/java/com/squareup/protoss/schema/ProtoSchemaParser.java:326-338 | the block-comment loop as written: it examines the character it has just stepped onto |
| AsWritten.SameTextAsCorrected | src/main/java/com/squareup/protoss/schema/ProtoSchemaParser.java:326-338 | the written loop reads the same text and stops at the same place as the corrected one |
| AsWritten.NewlineAfterOpenerIsMissed | src/main/java/com/squareup/protoss/schema/ProtoSchemaParser.java:333-334 | a newline right after `/*` is never counted |
| AsWritten.NewlineCountedOneEarly | src/main/java/com/squareup/protoss/schema/ProtoSchemaParser.java:333-334 | any other newline is counted while the cursor stands on it, so the next line's columns come out one too large |

## Left out

- Error messages are modelled as an error kind, not as the formatted text of
  `unexpected` (lines 388-391). The Java exception types are not modelled.
- The three `AssertionError` checks (lines 187, 249 and 324) are preconditions
  of `ReadOptions`, `ReadQuotedString` and `ReadComment`.
- A bare `//` as the last two characters makes the source take a substring of
  length -1, which throws a runtime exception. The model reports this as the
  error kind `CommentOutOfBounds`.
- `Label.valueOf(label.toUpperCase(Locale.US))` is modelled as a direct map from
  the three label words to `Label`.
- Library routines are modelled by their behaviour, not their code:
  - `Boolean.valueOf` is a case-insensitive comparison with `true`. For the
    letters of `true`, Java's case-insensitive comparison matches only their
    ASCII upper and lower cases;
  - `Integer.valueOf` is a decimal parse with an optional `-` and the 32-bit
    range (`Numbers.ParseInt`);
  - `equals` on strings is sequence equality.
- The constructors of `ProtoFile`, `MessageType`, `EnumType` and their nested
  records are not part of this model. They are plain datatype constructors.
- `ProtoFile` holds the collected lists as values. The source hands over the
  live lists themselves, so later changes to the parser would show through them.
- After a failure the parser's fields are left unconstrained. The source also
  abandons the parser on any error, but its fields may hold partial updates:
  `packageName` is set before the `;` is checked, and an import is added before
  its `;` is checked.
- Characters are Dafny `char`s, which are Unicode scalar values. The source
  holds UTF-16 units. Columns therefore count characters, not UTF-16 units: a
  character outside the Basic Multilingual Plane counts 1 column here and 2 in
  the source. A lone surrogate cannot be represented.
- Parser.ProtoSchemaParser.BlockCommentBody and Scanner.ReadCommentF run the
  corrected block-comment scan. After a block comment that contains a newline,
  the reported line or column therefore differs from the source's. For
  `/*` newline `*/ x`, the error after `x` is at line 2, column 5 here; the
  source's bookkeeping gives line 1, column 8. The text read and the end
  position are the same (see Findings).

## Findings

| source | as written | input that shows it | evidently intended | confidence | as-written member | corrected member |
|---|---|---|---|---|---|---|
| src/main/java/com/squareup/protoss/schema/ProtoSchemaParser.java:333-334 | In a block comment, the loop steps past a character and then tests the character it has stepped onto for a newline. | In `/*` newline `*/` the newline is never counted: the scan ends on line 0 after consuming a newline. In `/*a` newline `b*/` the next line is taken to start at the newline itself, so every column on it is one too large. | Count each newline as it is consumed, as `skipWhitespace` and the line-comment loop do, so that `line` and `lineStart` match the text consumed. | not executed | AsWritten.BlockCommentAsWritten, AsWritten.NewlineAfterOpenerIsMissed, AsWritten.NewlineCountedOneEarly | Scanner.BlockCommentF (used by Parser.ProtoSchemaParser.BlockCommentBody) |
