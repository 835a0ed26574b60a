/** The parser as the object it is: the input, a cursor into it, the line
    bookkeeping and the lists it collects, all updated in place. Every method
    is proved to return what the specification function of the same name
    returns and to leave the parser in the state that function ends in. */
module Parser {
  import opened Outcomes
  import opened Schema
  import opened Scanner
  import opened OrderedMap
  import opened Grammar
  import Numbers

  class ProtoSchemaParser {
    /** The entire document. */
    const data: string
    /** `data[pos]` is the next character to be read. */
    var pos: nat
    /** The number of newline characters consumed so far. */
    var line: nat
    /** The offset at which the current line begins. */
    var lineStart: nat
    /** The package name, once a package declaration was read. */
    var packageName: Option<string>
    /** Imported files, in order. */
    var dependencies: seq<string>
    /** Declared messages, nested ones included, each after those nested in it. */
    var messageTypes: seq<MessageType>
    /** Declared enums, nested ones included. */
    var enumTypes: seq<EnumType>

    function Cur(): Cursor
      reads this`pos, this`line, this`lineStart
    {
      Cursor(data, pos, line, lineStart)
    }

    function St(): State
      reads this
    {
      State(Cur(), Acc(packageName, dependencies, messageTypes, enumTypes))
    }

    constructor(data: string)
      ensures this.data == data && St() == Start(data)
    {
      this.data := data;
      pos, line, lineStart := 0, 0, 0;
      packageName, dependencies, messageTypes, enumTypes := None, [], [], [];
    }

    /** The bookkeeping for a newline just consumed. */
    method Newline()
      modifies this`line, this`lineStart
      ensures Cur() == Scanner.Newline(old(Cur()))
    {
      line := line + 1;
      lineStart := pos;
    }

    /** Consumes one character, with the bookkeeping for it when it is a newline. */
    method Consume()
      requires Wf(Cur()) && pos < |data|
      modifies this`pos, this`line, this`lineStart
      ensures Cur() == Advance(old(Cur()))
    {
      var ch := data[pos];
      pos := pos + 1;
      if ch == '\n' {
        Newline();
      }
    }

    /** Skips whitespace and, when `skipComments` holds, comments. */
    method SkipWhitespace(skipComments: bool) returns (r: Result<()>)
      requires Wf(Cur())
      modifies this`pos, this`line, this`lineStart
      ensures Agrees(r, SkipWhitespaceF(old(Cur()), skipComments), Cur())
    {
      while pos < |data|
        invariant Wf(Cur()) && SkipWhitespaceF(Cur(), skipComments) == SkipWhitespaceF(old(Cur()), skipComments)
        decreases |data| - pos
      {
        var ch := data[pos];
        ghost var before := Cur();
        if IsWhitespace(ch) {
          pos := pos + 1;
          if ch == '\n' {
            Newline();
          }
          assert Cur() == Advance(before);
        } else if skipComments && ch == '/' {
          var _ :- ReadComment();
          assert Cur() == ReadCommentF(before).next;
        } else {
          break;
        }
      }
      return Success(());
    }

    /** Reads the comment at the `/` under the cursor and returns its body. */
    method ReadComment() returns (r: Result<string>)
      requires Wf(Cur()) && pos < |data| && data[pos] == '/'
      modifies this`pos, this`line, this`lineStart
      ensures Agrees(r, ReadCommentF(old(Cur())), Cur())
    {
      ghost var c := Cur();
      pos := pos + 1;
      var commentType: int := -1;
      if pos < |data| {
        commentType := data[pos] as int;
        pos := pos + 1;
      }
      if commentType == '*' as int {
        assert Cur() == c.(pos := c.pos + 2);
        ReadCommentBlockCase(c);
        r := BlockCommentBody(pos);
      } else if commentType == '/' as int {
        assert Cur() == c.(pos := c.pos + 2);
        ReadCommentLineCase(c);
        r := LineCommentBody();
      } else {
        ReadCommentOtherCase(c);
        return Failure(Unexpected(Cur(), UnexpectedSlash));
      }
    }

    /** The loop of a block comment, whose body began at `start`. A character
        is consumed before it is examined for a newline, so that the line
        bookkeeping stays right. */
    method BlockCommentBody(start: nat) returns (r: Result<string>)
      requires Wf(Cur()) && start <= pos
      modifies this`pos, this`line, this`lineStart
      ensures Agrees(r, BlockCommentF(old(Cur()), start), Cur())
    {
      ghost var c := Cur();
      while pos + 1 < |data|
        invariant Wf(Cur()) && start <= pos && BlockCommentF(Cur(), start) == BlockCommentF(c, start)
        decreases |data| - pos
      {
        ghost var before := Cur();
        if data[pos] == '*' && data[pos + 1] == '/' {
          pos := pos + 2;
          BlockCommentCloses(before, start);
          return Success(data[start..pos - 2]);
        } else {
          Consume();
          BlockCommentSkips(before, start);
        }
      }
      return Failure(Unexpected(Cur(), UnterminatedComment));
    }

    /** The loop of a line comment, whose body begins at the cursor: up to and
        including the next newline, or to the end of the input. */
    method LineCommentBody() returns (r: Result<string>)
      requires Wf(Cur())
      modifies this`pos, this`line, this`lineStart
      ensures Agrees(r, LineCommentF(old(Cur())), Cur())
    {
      var start := pos;
      ghost var end := LineCommentEnd(Cur());
      while pos < |data|
        invariant Wf(Cur()) && start <= pos && LineCommentEnd(Cur()) == end
        decreases |data| - pos
      {
        ghost var before := Cur();
        var ch := data[pos];
        pos := pos + 1;
        if ch == '\n' {
          Newline();
          assert Cur() == Advance(before) == end;
          break;
        }
        assert Cur() == Advance(before);
      }
      if pos - 1 - start < 0 {
        return Failure(Unexpected(Cur(), CommentOutOfBounds));
      }
      return Success(data[start..pos - 1]);
    }

    /** The next significant character, without consuming it. */
    method PeekChar() returns (r: Result<char>)
      requires Wf(Cur())
      modifies this`pos, this`line, this`lineStart
      ensures Agrees(r, PeekCharF(old(Cur())), Cur())
    {
      var _ :- SkipWhitespace(true);
      if pos == |data| {
        return Failure(Unexpected(Cur(), UnexpectedEndOfFile));
      }
      return Success(data[pos]);
    }

    /** The next significant character, consumed. */
    method ReadChar() returns (r: Result<char>)
      requires Wf(Cur())
      modifies this`pos, this`line, this`lineStart
      ensures Agrees(r, ReadCharF(old(Cur())), Cur())
    {
      var result :- PeekChar();
      pos := pos + 1;
      return Success(result);
    }

    /** A non-empty run of word characters after whitespace and comments. */
    method ReadWord() returns (r: Result<string>)
      requires Wf(Cur())
      modifies this`pos, this`line, this`lineStart
      ensures Agrees(r, ReadWordF(old(Cur())), Cur())
    {
      var _ :- SkipWhitespace(true);
      ghost var skipped := Cur();
      var start := pos;
      while pos < |data|
        invariant start <= pos <= |data| && WordEnd(data, pos) == WordEnd(data, start)
        invariant Cur() == skipped.(pos := pos)
        decreases |data| - pos
      {
        var c := data[pos];
        if IsWordChar(c) {
          pos := pos + 1;
        } else {
          break;
        }
      }
      assert pos == WordEnd(data, start);
      if start == pos {
        return Failure(Unexpected(Cur(), ExpectedWord));
      }
      return Success(data[start..pos]);
    }

    /** A word read as a 32-bit decimal integer. */
    method ReadInt() returns (r: Result<int>)
      requires Wf(Cur())
      modifies this`pos, this`line, this`lineStart
      ensures Agrees(r, ReadIntF(old(Cur())), Cur())
    {
      var tag :- ReadWord();
      match Numbers.ParseInt(tag)
      case Some(n) =>
        return Success(n);
      case None =>
        return Failure(Unexpected(Cur(), ExpectedInteger(tag)));
    }

    /** A quoted string, from its opening quote; a backslash makes the next
        character literal. */
    method ReadQuotedString() returns (r: Result<string>)
      requires Wf(Cur()) && pos < |data| && data[pos] == '"'
      modifies this`pos, this`line, this`lineStart
      ensures Agrees(r, ReadQuotedStringF(old(Cur())), Cur())
    {
      var opening := ReadChar();
      assert opening.Success?;
      r := QuotedBody("");
    }

    /** The loop of a quoted string, after the opening quote, with `acc` read so far. */
    method QuotedBody(acc: string) returns (r: Result<string>)
      requires Wf(Cur())
      modifies this`pos, this`line, this`lineStart
      ensures Agrees(r, QuotedBodyF(old(Cur()), acc), Cur())
    {
      ghost var c0 := Cur();
      var result := acc;
      while pos < |data|
        invariant Wf(Cur()) && QuotedBodyF(Cur(), result) == QuotedBodyF(c0, acc)
        decreases |data| - pos
      {
        ghost var before := Cur();
        var c := data[pos];
        if c == '"' {
          pos := pos + 1;
          QuotedBodyCloses(before, result);
          return Success(result);
        }
        if c == '\\' {
          if pos + 1 == |data| {
            pos := pos + 1;
            QuotedBodyEscapeAtEnd(before, result);
            return Failure(Unexpected(Cur(), UnexpectedEndOfFile));
          }
          QuotedBodyEscape(before, result);
          pos := pos + 1;
          c := data[pos];
        } else {
          QuotedBodyPlain(before, result);
        }
        result := result + [c];
        Consume();
      }
      return Failure(Unexpected(Cur(), UnterminatedString));
    }

    /** A quoted string when the next significant character is a quote, otherwise a word. */
    method ReadString() returns (r: Result<string>)
      requires Wf(Cur())
      modifies this`pos, this`line, this`lineStart
      ensures Agrees(r, ReadStringF(old(Cur())), Cur())
    {
      var _ :- SkipWhitespace(true);
      var c :- PeekChar();
      if c == '"' {
        r := ReadQuotedString();
      } else {
        r := ReadWord();
      }
    }

    /** The bodies of the comments before the next token, joined by newlines. */
    method ReadDocumentation() returns (r: Result<string>)
      requires Wf(Cur())
      modifies this`pos, this`line, this`lineStart
      ensures Agrees(r, ReadDocumentationF(old(Cur())), Cur())
    {
      var result: Option<string> := None;
      while true
        invariant Wf(Cur()) && DocumentationLoopF(Cur(), result) == ReadDocumentationF(old(Cur()))
        decreases |data| - pos
      {
        ghost var before := Cur();
        var skipped := SkipWhitespace(false);
        if pos == |data| || data[pos] != '/' {
          return Success(match result case Some(text) => text case None => "");
        }
        var comment :- ReadComment();
        result := Some(match result case None => comment case Some(text) => text + "\n" + comment);
      }
    }

    /** Reads the next significant character and fails with `kind` when it is not `ch`. */
    method Expect(ch: char, kind: ErrorKind) returns (r: Result<()>)
      requires Wf(Cur())
      modifies this`pos, this`line, this`lineStart
      ensures Agrees(r, ExpectF(old(Cur()), ch, kind), Cur())
    {
      var read :- ReadChar();
      if read != ch {
        return Failure(Unexpected(Cur(), kind));
      }
      return Success(());
    }

    /** The bracketed options of a field, from its `[`, in the order their
        names first appear; a repeated name keeps its place and takes the
        later value. */
    method ReadOptions() returns (r: Result<Entries>)
      requires Wf(Cur()) && pos < |data| && data[pos] == '['
      modifies this`pos, this`line, this`lineStart
      ensures Agrees(r, ReadOptionsF(old(Cur())), Cur())
    {
      var open := ReadChar();
      assert open.Success?;
      var c :- PeekChar();
      if c == ']' {
        pos := pos + 1;
        return Success([]);
      }
      r := OptionEntries([]);
    }

    /** The loop of an option list: `name = value` entries separated by `,`
        up to the `]`, added to `m`. */
    method OptionEntries(m: Entries) returns (r: Result<Entries>)
      requires Wf(Cur())
      modifies this`pos, this`line, this`lineStart
      ensures Agrees(r, OptionEntriesF(old(Cur()), m), Cur())
    {
      var result := m;
      while true
        invariant Wf(Cur()) && OptionEntriesF(Cur(), result) == OptionEntriesF(old(Cur()), m)
        decreases |data| - pos
      {
        var optionName :- ReadWord();
        var _ :- Expect('=', ExpectedEquals);
        var optionValue :- ReadString();
        result := Put(result, optionName, optionValue);
        var c :- ReadChar();
        if c == ']' {
          return Success(result);
        } else if c != ',' {
          return Failure(Unexpected(Cur(), ExpectedComma));
        }
      }
    }

    /** A field after its label: type, name, `=`, tag, optional options and `;`.
        The field is deprecated when its `deprecated` option reads as true, and
        its default is its `default` option. */
    method ReadField(documentation: string, cardinality: Label) returns (r: Result<Field>)
      requires Wf(Cur())
      modifies this`pos, this`line, this`lineStart
      ensures Agrees(r, ReadFieldF(old(Cur()), documentation, cardinality), Cur())
    {
      ghost var start := Cur();
      var head :- FieldHead();
      ghost var afterHead := Cur();
      var (typeName, name, tag) := head;
      var options :- FieldOptions();
      assert FieldHeadF(start) == Next(head, afterHead) && FieldOptionsF(afterHead) == Next(options, Cur());
      if data[pos] == ';' {
        Consume();
        return Success(Field(cardinality, typeName, name, tag,
                             Get(options, "default"), Deprecated(options), documentation));
      }
      return Failure(Unexpected(Cur(), ExpectedSemicolon));
    }

    /** A field's type, name, `=` and tag. */
    method FieldHead() returns (r: Result<(string, string, int)>)
      requires Wf(Cur())
      modifies this`pos, this`line, this`lineStart
      ensures Agrees(r, FieldHeadF(old(Cur())), Cur())
    {
      var typeName :- ReadWord();
      var name :- ReadWord();
      var _ :- Expect('=', ExpectedEquals);
      var tag :- ReadInt();
      return Success((typeName, name, tag));
    }

    /** The options after a field's tag, if the next significant character is
        `[`; the cursor is left on the significant character after them. */
    method FieldOptions() returns (r: Result<Entries>)
      requires Wf(Cur())
      modifies this`pos, this`line, this`lineStart
      ensures Agrees(r, FieldOptionsF(old(Cur())), Cur())
    {
      var c :- PeekChar();
      if c == '[' {
        var options :- ReadOptions();
        var _ :- PeekChar();
        return Success(options);
      }
      return Success([]);
    }

    /** An enum constant: name, `=`, tag and `;`. */
    method ReadEnumValue(documentation: string) returns (r: Result<EnumValue>)
      requires Wf(Cur())
      modifies this`pos, this`line, this`lineStart
      ensures Agrees(r, ReadEnumValueF(old(Cur()), documentation), Cur())
    {
      var name :- ReadWord();
      var _ :- Expect('=', ExpectedEquals);
      var tag :- ReadInt();
      var _ :- Expect(';', ExpectedSemicolon);
      return Success(EnumValue(name, tag, documentation));
    }

    /** An enum after the word `enum`: name, `{`, constants and `}`; the enum
        is then recorded. */
    method ReadEnumType(documentation: string) returns (r: Result<()>)
      requires Wf(Cur())
      modifies this`pos, this`line, this`lineStart, this`enumTypes
      ensures Agrees(r, ReadEnumTypeF(old(St()), documentation), St())
    {
      ghost var s0 := St();
      var name :- ReadWord();
      var _ :- Expect('{', ExpectedOpenBrace);
      var values :- EnumBody([]);
      ghost var body := St();
      assert body.acc == s0.acc;
      enumTypes := enumTypes + [EnumType(name, documentation, values)];
      assert St() == State(body.cur, RecordEnum(body.acc, EnumType(name, documentation, values)));
      return Success(());
    }

    /** The loop of an enum: documented constants up to the `}`, after `values`. */
    method EnumBody(values: seq<EnumValue>) returns (r: Result<seq<EnumValue>>)
      requires Wf(Cur())
      modifies this`pos, this`line, this`lineStart
      ensures Agrees(r, EnumBodyF(old(Cur()), values), Cur())
    {
      var result := values;
      while true
        invariant Wf(Cur()) && EnumBodyF(Cur(), result) == EnumBodyF(old(Cur()), values)
        decreases |data| - pos
      {
        var valueDocumentation :- ReadDocumentation();
        var c :- PeekChar();
        if c == '}' {
          pos := pos + 1;
          return Success(result);
        }
        var value :- ReadEnumValue(valueDocumentation);
        result := result + [value];
      }
    }

    /** One declaration, after its documentation; a field is returned, anything
        else is recorded or dropped. */
    method ReadDeclaration(documentation: string, nested: bool) returns (r: Result<Option<Field>>)
      requires Wf(Cur())
      modifies this
      ensures Agrees(r, ReadDeclarationF(old(St()), documentation, nested), St())
      decreases |data| - pos, 0
    {
      var word :- ReadWord();
      if word == "message" {
        var _ :- ReadMessage(documentation);
        return Success(None);
      } else if word == "enum" {
        var _ :- ReadEnumType(documentation);
        return Success(None);
      }
      r := KeywordDeclaration(documentation, word, nested);
    }

    /** A declaration other than a message or an enum, after its first word. */
    method KeywordDeclaration(documentation: string, word: string, nested: bool) returns (r: Result<Option<Field>>)
      requires Wf(Cur())
      modifies this`pos, this`line, this`lineStart, this`packageName, this`dependencies
      ensures Agrees(r, KeywordDeclarationF(old(St()), documentation, word, nested), St())
    {
      if word == "package" {
        if nested {
          return Failure(Unexpected(Cur(), NestedPackage));
        }
        if packageName.Some? {
          return Failure(Unexpected(Cur(), TooManyPackageNames));
        }
        var name :- PackageName();
        packageName := Some(name);
        return Success(None);
      } else if word == "option" {
        if nested {
          return Failure(Unexpected(Cur(), NestedOption));
        }
        var _ :- FileOption();
        return Success(None);
      } else if LabelOf(word).Some? {
        if !nested {
          return Failure(Unexpected(Cur(), FieldsMustBeNested));
        }
        var field :- ReadField(documentation, LabelOf(word).value);
        return Success(Some(field));
      } else if word == "extensions" {
        if !nested {
          return Failure(Unexpected(Cur(), ExtensionsMustBeNested));
        }
        var _ :- ExtensionsRange();
        return Success(None);
      } else if word == "import" {
        var dependency :- Import();
        dependencies := dependencies + [dependency];
        return Success(None);
      }
      return Failure(Unexpected(Cur(), UnexpectedLabel(word)));
    }

    /** The rest of a `package` declaration: the name and `;`. */
    method PackageName() returns (r: Result<string>)
      requires Wf(Cur())
      modifies this`pos, this`line, this`lineStart
      ensures Agrees(r, PackageNameF(old(Cur())), Cur())
    {
      var name :- ReadWord();
      var _ :- Expect(';', ExpectedSemicolon);
      return Success(name);
    }

    /** The rest of a file-level `option` declaration: name, `=`, value and `;`,
        all dropped. */
    method FileOption() returns (r: Result<()>)
      requires Wf(Cur())
      modifies this`pos, this`line, this`lineStart
      ensures Agrees(r, FileOptionF(old(Cur())), Cur())
    {
      var _ :- ReadWord();
      var _ :- Expect('=', ExpectedEqualsInOption);
      var _ :- ReadString();
      var _ :- Expect(';', ExpectedSemicolon);
      return Success(());
    }

    /** The rest of an `extensions` declaration: start, `to`, end and `;`, all dropped. */
    method ExtensionsRange() returns (r: Result<()>)
      requires Wf(Cur())
      modifies this`pos, this`line, this`lineStart
      ensures Agrees(r, ExtensionsRangeF(old(Cur())), Cur())
    {
      var _ :- ReadWord();
      var _ :- ReadWord();
      var _ :- ReadWord();
      var _ :- Expect(';', ExpectedSemicolon);
      return Success(());
    }

    /** The rest of an `import` declaration: the file name and `;`. */
    method Import() returns (r: Result<string>)
      requires Wf(Cur())
      modifies this`pos, this`line, this`lineStart
      ensures Agrees(r, ImportF(old(Cur())), Cur())
    {
      var dependency :- ReadString();
      var _ :- Expect(';', ExpectedSemicolon);
      return Success(dependency);
    }

    /** A message after the word `message`: name, `{`, declarations and `}`;
        the message is then recorded, after those nested in it. */
    method ReadMessage(documentation: string) returns (r: Result<()>)
      requires Wf(Cur())
      modifies this
      ensures Agrees(r, ReadMessageF(old(St()), documentation), St())
      decreases |data| - pos, 0
    {
      ghost var s0 := St();
      var name :- ReadWord();
      var _ :- Expect('{', ExpectedOpenBrace);
      ghost var open := Cur();
      var fields :- MessageBody([]);
      ghost var body := St();
      messageTypes := messageTypes + [MessageType(name, documentation, fields)];
      assert St() == State(body.cur, RecordMessage(body.acc, MessageType(name, documentation, fields)));
      return Success(());
    }

    /** The loop of a message: documented declarations up to the `}`; the
        fields among them are added to `fields`. */
    method MessageBody(fields: seq<Field>) returns (r: Result<seq<Field>>)
      requires Wf(Cur())
      modifies this
      ensures Agrees(r, MessageBodyF(old(St()), fields), St())
      decreases |data| - pos, 1
    {
      var result := fields;
      while true
        invariant Wf(Cur()) && old(pos) <= pos
        invariant MessageBodyF(St(), result) == MessageBodyF(old(St()), fields)
        decreases |data| - pos
      {
        ghost var before := St();
        var nestedDocumentation :- ReadDocumentation();
        ghost var documented := Cur();
        var c :- PeekChar();
        if c == '}' {
          MessageBodyCloses(before, result, nestedDocumentation, documented, Cur());
          pos := pos + 1;
          return Success(result);
        }
        MessageBodyStep(before, result, nestedDocumentation, documented, c, Cur());
        var declared :- ReadDeclaration(nestedDocumentation, true);
        if declared.Some? {
          result := result + [declared.value];
        }
      }
    }

    /** Reads the whole input as the file `fileName` and returns what it declares. */
    method ReadProtoFile(fileName: string) returns (r: Result<ProtoFile>)
      requires Wf(Cur())
      modifies this
      ensures Agrees(r, ReadProtoFileF(old(St()), fileName), St())
    {
      var _ :- FileBody();
      return Success(ProtoFile(fileName, packageName, dependencies, messageTypes, enumTypes));
    }

    /** The loop of a file: documented declarations up to the end of the input. */
    method FileBody() returns (r: Result<()>)
      requires Wf(Cur())
      modifies this
      ensures Agrees(r, FileBodyF(old(St())), St())
    {
      while true
        invariant Wf(Cur()) && FileBodyF(St()) == FileBodyF(old(St()))
        decreases |data| - pos
      {
        ghost var before := St();
        var documentation :- ReadDocumentation();
        if pos == |data| {
          FileBodyEnds(before, documentation, Cur());
          return Success(());
        }
        FileBodyStep(before, documentation, Cur());
        var _ :- ReadDeclaration(documentation, false);
      }
    }
  }
}
