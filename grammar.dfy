/** The declaration level of the parser as pure functions: options, fields,
    enum values, enums, messages, declarations and whole files. The functions
    that may record a declaration work on a `State`, the cursor together with
    what the parser has collected so far. */
module Grammar {
  import opened Outcomes
  import opened Schema
  import opened Scanner
  import opened OrderedMap
  import Numbers

  /** What the parser has collected: the package name, the imports, and every
      message and enum declared so far, nested ones included. */
  datatype Acc = Acc(
    packageName: Option<string>,
    dependencies: seq<string>,
    messageTypes: seq<MessageType>,
    enumTypes: seq<EnumType>)

  datatype State = State(cur: Cursor, acc: Acc)

  const Empty: Acc := Acc(None, [], [], [])

  /** `b` is what `a` becomes when the parser only records more: a package
      name once set stays, and the lists only grow at their ends. */
  predicate Extends(a: Acc, b: Acc)
  {
    (a.packageName.Some? ==> b.packageName == a.packageName) &&
    a.dependencies <= b.dependencies &&
    a.messageTypes <= b.messageTypes &&
    a.enumTypes <= b.enumTypes
  }

  lemma ExtendsTrans(a: Acc, b: Acc, c: Acc)
    requires Extends(a, b) && Extends(b, c)
    ensures Extends(a, c)
  {
  }

  /** ASCII lower case. */
  function ToLower(ch: char): char
  {
    if 'A' <= ch <= 'Z' then (ch as int + 32) as char else ch
  }

  /** `s` reads as the boolean true, ignoring case. */
  predicate ParseBoolean(s: string)
  {
    |s| == 4 && ToLower(s[0]) == 't' && ToLower(s[1]) == 'r' && ToLower(s[2]) == 'u' && ToLower(s[3]) == 'e'
  }

  /** A field is deprecated when its `deprecated` option reads as true. */
  predicate Deprecated(options: Entries)
  {
    match Get(options, "deprecated")
    case Some(text) => ParseBoolean(text)
    case None => false
  }

  /** The cardinality a field label names, if it names one. */
  function LabelOf(word: string): (r: Option<Label>)
    ensures r.Some? <==> word == "required" || word == "optional" || word == "repeated"
    ensures r == Some(Required) <==> word == "required"
    ensures r == Some(Repeated) <==> word == "repeated"
  {
    if word == "required" then Some(Required)
    else if word == "optional" then Some(Optional)
    else if word == "repeated" then Some(Repeated)
    else None
  }

  /** Reads the next significant character and fails with `kind`, reported
      just after it, when it is not `ch`. */
  function ExpectF(c: Cursor, ch: char, kind: ErrorKind): (r: Step<(), Cursor>)
    requires Wf(c)
    ensures r.Next? <==> ReadCharF(c).Next? && ReadCharF(c).value == ch
    ensures r.Next? ==> r.next == ReadCharF(c).next && Moved(c, r.next) && c.pos < r.next.pos
    ensures ReadCharF(c).Next? && ReadCharF(c).value != ch ==> r == Abort(Unexpected(ReadCharF(c).next, kind))
  {
    var read :- ReadCharF(c);
    if read.value == ch then Next((), read.next) else Abort(Unexpected(read.next, kind))
  }

  /** The bracketed options of a field, from its `[`. */
  function ReadOptionsF(c: Cursor): (r: Step<Entries, Cursor>)
    requires Wf(c) && c.pos < |c.data| && c.data[c.pos] == '['
    ensures r.Next? ==> Moved(c, r.next) && c.pos < r.next.pos
    ensures r.Next? ==> UniqueKeys(r.value)
    ensures var open := c.(pos := c.pos + 1);
            Wf(open) &&
            (PeekCharF(open).Next? && PeekCharF(open).value == ']' ==> r == Next([], Advance(PeekCharF(open).next))) &&
            (PeekCharF(open).Next? && PeekCharF(open).value != ']' ==> r == OptionEntriesF(PeekCharF(open).next, [])) &&
            (PeekCharF(open).Abort? ==> r == Abort(PeekCharF(open).error))
  {
    var open := ReadCharF(c).next;
    var peeked :- PeekCharF(open);
    if peeked.value == ']' then
      Next([], Advance(peeked.next))
    else
      OptionEntriesF(peeked.next, [])
  }

  /** The `name = value` entries of an option list, `m` being those read so far. */
  function OptionEntriesF(c: Cursor, m: Entries): (r: Step<Entries, Cursor>)
    requires Wf(c)
    ensures r.Next? ==> Moved(c, r.next) && c.pos < r.next.pos
    ensures r.Next? ==> Keys(m) <= Keys(r.value)
    ensures r.Next? && UniqueKeys(m) ==> UniqueKeys(r.value)
    decreases |c.data| - c.pos
  {
    var name :- ReadWordF(c);
    var equals :- ExpectF(name.next, '=', ExpectedEquals);
    var value :- ReadStringF(equals.next);
    var separator :- ReadCharF(value.next);
    var m' := Put(m, name.value, value.value);
    PutKeepsKeysUnique(m, name.value, value.value);
    assert Keys(m) <= Keys(m');
    assert separator.next.data == c.data;
    if separator.value == ']' then
      Next(m', separator.next)
    else if separator.value == ',' then
      var more := OptionEntriesF(separator.next, m');
      if more.Next? then
        more
      else
        more
    else
      Abort(Unexpected(separator.next, ExpectedComma))
  }

  /** The options after a field's tag: the bracketed list when the next
      significant character is `[`, none otherwise. The cursor is left on the
      next significant character after them, which must be the `;`. */
  function FieldOptionsF(c: Cursor): (r: Step<Entries, Cursor>)
    requires Wf(c)
    ensures r.Next? ==> Moved(c, r.next) && r.next.pos < |c.data|
    ensures r.Next? ==> !IsWhitespace(c.data[r.next.pos]) && c.data[r.next.pos] != '/'
    ensures r.Next? ==> UniqueKeys(r.value)
    ensures PeekCharF(c).Next? && PeekCharF(c).value != '[' ==> r == Next([], PeekCharF(c).next)
    ensures r.Next? ==>
              PeekCharF(c).Next? &&
              (PeekCharF(c).value == '[' ==>
                 ReadOptionsF(PeekCharF(c).next).Next? && r.value == ReadOptionsF(PeekCharF(c).next).value)
    ensures PeekCharF(c).Next? && PeekCharF(c).value == '[' && ReadOptionsF(PeekCharF(c).next).Next? &&
            PeekCharF(ReadOptionsF(PeekCharF(c).next).next).Next? ==>
              r == Next(ReadOptionsF(PeekCharF(c).next).value, PeekCharF(ReadOptionsF(PeekCharF(c).next).next).next)
  {
    var peeked :- PeekCharF(c);
    if peeked.value == '[' then
      var options :- ReadOptionsF(peeked.next);
      var after :- PeekCharF(options.next);
      Next(options.value, after.next)
    else
      Next([], peeked.next)
  }

  /** A field's type, name and tag, with the `=` between name and tag. */
  function FieldHeadF(c: Cursor): (r: Step<(string, string, int), Cursor>)
    requires Wf(c)
    ensures r.Next? ==> Moved(c, r.next) && c.pos < r.next.pos
    ensures r.Next? ==> ReadWordF(c).Next? && r.value.0 == ReadWordF(c).value
    ensures r.Next? ==> Numbers.MinInt <= r.value.2 <= Numbers.MaxInt
    ensures r.Next? ==>
              var name := ReadWordF(ReadWordF(c).next);
              name.Next? && r.value.1 == name.value &&
              ExpectF(name.next, '=', ExpectedEquals).Next? &&
              ReadIntF(ExpectF(name.next, '=', ExpectedEquals).next) == Next(r.value.2, r.next)
    ensures ReadWordF(c).Next? &&
            (var name := ReadWordF(ReadWordF(c).next);
             name.Next? && ExpectF(name.next, '=', ExpectedEquals).Next? &&
             ReadIntF(ExpectF(name.next, '=', ExpectedEquals).next).Next?) ==>
              r.Next?
  {
    var typeName :- ReadWordF(c);
    var name :- ReadWordF(typeName.next);
    var equals :- ExpectF(name.next, '=', ExpectedEquals);
    var tag :- ReadIntF(equals.next);
    Next((typeName.value, name.value, tag.value), tag.next)
  }

  /** A field after its label: type, name, `=`, tag, optional options and `;`.
      The field is deprecated when its `deprecated` option reads as true, and
      its default is its `default` option. */
  function ReadFieldF(c: Cursor, documentation: string, cardinality: Label): (r: Step<Field, Cursor>)
    requires Wf(c)
    ensures r.Next? ==> Moved(c, r.next) && c.pos < r.next.pos
    ensures r.Next? ==> r.value.cardinality == cardinality && r.value.documentation == documentation
    ensures r.Next? ==> ReadWordF(c).Next? && r.value.typeName == ReadWordF(c).value
    ensures r.Next? ==> Numbers.MinInt <= r.value.tag <= Numbers.MaxInt
    ensures r.Next? ==> FieldHeadF(c).Next? && FieldHeadF(c).value == (r.value.typeName, r.value.name, r.value.tag)
    ensures FieldHeadF(c).Next? && FieldOptionsF(FieldHeadF(c).next).Next? &&
            c.data[FieldOptionsF(FieldHeadF(c).next).next.pos] == ';' ==>
              r.Next? && r.next.pos == FieldOptionsF(FieldHeadF(c).next).next.pos + 1
  {
    var head :- FieldHeadF(c);
    var options :- FieldOptionsF(head.next);
    var end := options.next;
    if c.data[end.pos] == ';' then
      Next(Field(cardinality, head.value.0, head.value.1, head.value.2,
                 Get(options.value, "default"), Deprecated(options.value), documentation), Advance(end))
    else
      Abort(Unexpected(end, ExpectedSemicolon))
  }

  /** An enum constant: name, `=`, tag and `;`. */
  function ReadEnumValueF(c: Cursor, documentation: string): (r: Step<EnumValue, Cursor>)
    requires Wf(c)
    ensures r.Next? ==> Moved(c, r.next) && c.pos < r.next.pos
    ensures r.Next? ==> ReadWordF(c).Next? && r.value.name == ReadWordF(c).value
    ensures r.Next? ==> r.value.documentation == documentation
    ensures r.Next? ==> Numbers.MinInt <= r.value.tag <= Numbers.MaxInt
    ensures r.Next? ==>
              ExpectF(ReadWordF(c).next, '=', ExpectedEquals).Next? &&
              ReadIntF(ExpectF(ReadWordF(c).next, '=', ExpectedEquals).next).Next? &&
              r.value.tag == ReadIntF(ExpectF(ReadWordF(c).next, '=', ExpectedEquals).next).value
    ensures ReadWordF(c).Next? &&
            (var equals := ExpectF(ReadWordF(c).next, '=', ExpectedEquals);
             equals.Next? && ReadIntF(equals.next).Next? &&
             ExpectF(ReadIntF(equals.next).next, ';', ExpectedSemicolon).Next?) ==>
              r.Next?
  {
    var name :- ReadWordF(c);
    var equals :- ExpectF(name.next, '=', ExpectedEquals);
    var tag :- ReadIntF(equals.next);
    var semicolon :- ExpectF(tag.next, ';', ExpectedSemicolon);
    Next(EnumValue(name.value, tag.value, documentation), semicolon.next)
  }

  /** The constants of an enum up to its `}`, `values` being those read so far. */
  function EnumBodyF(c: Cursor, values: seq<EnumValue>): (r: Step<seq<EnumValue>, Cursor>)
    requires Wf(c)
    ensures r.Next? ==> Moved(c, r.next) && c.pos < r.next.pos
    ensures r.Next? ==> values <= r.value
    decreases |c.data| - c.pos
  {
    var documentation :- ReadDocumentationF(c);
    var peeked :- PeekCharF(documentation.next);
    if peeked.value == '}' then
      Next(values, Advance(peeked.next))
    else
      var value :- ReadEnumValueF(peeked.next, documentation.value);
      var more := EnumBodyF(value.next, values + [value.value]);
      if more.Next? then
        more
      else
        more
  }

  /** An enum after the word `enum`: name, `{`, constants, `}`. The enum is
      recorded after all that went before. */
  function ReadEnumTypeF(s: State, documentation: string): (r: Step<(), State>)
    requires Wf(s.cur)
    ensures r.Next? ==> Moved(s.cur, r.next.cur) && s.cur.pos < r.next.cur.pos
    ensures r.Next? ==> r.next.acc.(enumTypes := s.acc.enumTypes) == s.acc
    ensures r.Next? ==> Extends(s.acc, r.next.acc) && |r.next.acc.enumTypes| == |s.acc.enumTypes| + 1
    ensures r.Next? ==>
              ReadWordF(s.cur).Next? &&
              Last(r.next.acc.enumTypes).name == ReadWordF(s.cur).value &&
              Last(r.next.acc.enumTypes).documentation == documentation
  {
    var name :- ReadWordF(s.cur);
    var open :- ExpectF(name.next, '{', ExpectedOpenBrace);
    var body :- EnumBodyF(open.next, []);
    Next((), State(body.next, RecordEnum(s.acc, EnumType(name.value, documentation, body.value))))
  }

  /** `acc` with the enum `e` recorded after all it holds. */
  function RecordEnum(acc: Acc, e: EnumType): (r: Acc)
    ensures Extends(acc, r) && |r.enumTypes| == |acc.enumTypes| + 1 && Last(r.enumTypes) == e
    ensures r.(enumTypes := acc.enumTypes) == acc
  {
    var r := acc.(enumTypes := acc.enumTypes + [e]);
    assert acc.enumTypes <= r.enumTypes;
    r
  }

  /** The rest of a `package` declaration: the package name and `;`. */
  function PackageNameF(c: Cursor): (r: Step<string, Cursor>)
    requires Wf(c)
    ensures r.Next? ==> Moved(c, r.next) && c.pos < r.next.pos
    ensures r.Next? ==> ReadWordF(c).Next? && r.value == ReadWordF(c).value
    ensures r.Next? <==> ReadWordF(c).Next? && ExpectF(ReadWordF(c).next, ';', ExpectedSemicolon).Next?
    ensures r.Next? ==> r.next == ExpectF(ReadWordF(c).next, ';', ExpectedSemicolon).next
  {
    var name :- ReadWordF(c);
    var semicolon :- ExpectF(name.next, ';', ExpectedSemicolon);
    Next(name.value, semicolon.next)
  }

  /** The rest of a file-level `option` declaration: name, `=`, value and `;`;
      the option itself is dropped. */
  function FileOptionF(c: Cursor): (r: Step<(), Cursor>)
    requires Wf(c)
    ensures r.Next? ==> Moved(c, r.next) && c.pos < r.next.pos
    ensures r.Next? <==>
              ReadWordF(c).Next? &&
              (var equals := ExpectF(ReadWordF(c).next, '=', ExpectedEqualsInOption);
               equals.Next? && ReadStringF(equals.next).Next? &&
               ExpectF(ReadStringF(equals.next).next, ';', ExpectedSemicolon).Next?)
  {
    var name :- ReadWordF(c);
    var equals :- ExpectF(name.next, '=', ExpectedEqualsInOption);
    var value :- ReadStringF(equals.next);
    var semicolon :- ExpectF(value.next, ';', ExpectedSemicolon);
    Next((), semicolon.next)
  }

  /** The rest of an `extensions` declaration: three words (start, `to`, end)
      and `;`; the range itself is dropped. */
  function ExtensionsRangeF(c: Cursor): (r: Step<(), Cursor>)
    requires Wf(c)
    ensures r.Next? ==> Moved(c, r.next) && c.pos + 3 < r.next.pos
    ensures r.Next? <==>
              ReadWordF(c).Next? &&
              (var toWord := ReadWordF(ReadWordF(c).next);
               toWord.Next? && ReadWordF(toWord.next).Next? &&
               ExpectF(ReadWordF(toWord.next).next, ';', ExpectedSemicolon).Next?)
  {
    var rangeStart :- ReadWordF(c);
    var toWord :- ReadWordF(rangeStart.next);
    var rangeEnd :- ReadWordF(toWord.next);
    var semicolon :- ExpectF(rangeEnd.next, ';', ExpectedSemicolon);
    Next((), semicolon.next)
  }

  /** The rest of an `import` declaration: the imported file name and `;`. */
  function ImportF(c: Cursor): (r: Step<string, Cursor>)
    requires Wf(c)
    ensures r.Next? ==> Moved(c, r.next) && c.pos < r.next.pos
    ensures r.Next? ==> ReadStringF(c).Next? && r.value == ReadStringF(c).value
    ensures r.Next? <==> ReadStringF(c).Next? && ExpectF(ReadStringF(c).next, ';', ExpectedSemicolon).Next?
    ensures r.Next? ==> r.next == ExpectF(ReadStringF(c).next, ';', ExpectedSemicolon).next
  {
    var dependency :- ReadStringF(c);
    var semicolon :- ExpectF(dependency.next, ';', ExpectedSemicolon);
    Next(dependency.value, semicolon.next)
  }

  /** One declaration, after its documentation: the word that starts it decides
      which. `nested` says whether it is inside a message; a field is returned,
      everything else is recorded in the state or dropped. */
  function ReadDeclarationF(s: State, documentation: string, nested: bool): (r: Step<Option<Field>, State>)
    requires Wf(s.cur)
    ensures r.Next? ==> Moved(s.cur, r.next.cur) && s.cur.pos < r.next.cur.pos
    ensures r.Next? ==> Extends(s.acc, r.next.acc)
    ensures r.Next? && r.value.Some? ==> nested && r.next.acc == s.acc
    decreases |s.cur.data| - s.cur.pos, 0
  {
    var labelWord :- ReadWordF(s.cur);
    var c := labelWord.next;
    var word := labelWord.value;
    if word == "message" then
      var message :- ReadMessageF(State(c, s.acc), documentation);
      Next(None, message.next)
    else if word == "enum" then
      var enumType :- ReadEnumTypeF(State(c, s.acc), documentation);
      Next(None, enumType.next)
    else
      KeywordDeclarationF(State(c, s.acc), documentation, word, nested)
  }

  /** A declaration other than a message or an enum, after the word `word`
      that starts it. */
  function KeywordDeclarationF(s: State, documentation: string, word: string, nested: bool): (r: Step<Option<Field>, State>)
    requires Wf(s.cur)
    ensures r.Next? ==> Moved(s.cur, r.next.cur)
    ensures r.Next? ==> Extends(s.acc, r.next.acc)
    ensures r.Next? && r.value.Some? ==> nested && r.next.acc == s.acc
  {
    var c := s.cur;
    if word == "package" then
      if nested then Abort(Unexpected(c, NestedPackage))
      else if s.acc.packageName.Some? then Abort(Unexpected(c, TooManyPackageNames))
      else
        var name :- PackageNameF(c);
        Next(None, State(name.next, s.acc.(packageName := Some(name.value))))
    else if word == "option" then
      if nested then Abort(Unexpected(c, NestedOption))
      else
        var option :- FileOptionF(c);
        Next(None, State(option.next, s.acc))
    else if LabelOf(word).Some? then
      if !nested then Abort(Unexpected(c, FieldsMustBeNested))
      else
        var field :- ReadFieldF(c, documentation, LabelOf(word).value);
        Next(Some(field.value), State(field.next, s.acc))
    else if word == "extensions" then
      if !nested then Abort(Unexpected(c, ExtensionsMustBeNested))
      else
        var range :- ExtensionsRangeF(c);
        Next(None, State(range.next, s.acc))
    else if word == "import" then
      var dependency :- ImportF(c);
      Next(None, State(dependency.next, s.acc.(dependencies := s.acc.dependencies + [dependency.value])))
    else
      Abort(Unexpected(c, UnexpectedLabel(word)))
  }

  /** A message after the word `message`: name, `{`, declarations, `}`. The
      message is recorded after everything declared inside it. */
  function ReadMessageF(s: State, documentation: string): (r: Step<(), State>)
    requires Wf(s.cur)
    ensures r.Next? ==> Moved(s.cur, r.next.cur) && s.cur.pos < r.next.cur.pos
    ensures r.Next? ==> Extends(s.acc, r.next.acc) && |s.acc.messageTypes| < |r.next.acc.messageTypes|
    ensures r.Next? ==>
              ReadWordF(s.cur).Next? &&
              Last(r.next.acc.messageTypes).name == ReadWordF(s.cur).value &&
              Last(r.next.acc.messageTypes).documentation == documentation
    decreases |s.cur.data| - s.cur.pos, 0
  {
    var name :- ReadWordF(s.cur);
    var open :- ExpectF(name.next, '{', ExpectedOpenBrace);
    var body :- MessageBodyF(State(open.next, s.acc), []);
    var after := body.next;
    var acc := RecordMessage(after.acc, MessageType(name.value, documentation, body.value));
    ExtendsTrans(s.acc, after.acc, acc);
    Next((), State(after.cur, acc))
  }

  /** `acc` with the message `m` recorded after all it holds. */
  function RecordMessage(acc: Acc, m: MessageType): (r: Acc)
    ensures Extends(acc, r) && |r.messageTypes| == |acc.messageTypes| + 1 && Last(r.messageTypes) == m
    ensures r.(messageTypes := acc.messageTypes) == acc
  {
    var r := acc.(messageTypes := acc.messageTypes + [m]);
    assert acc.messageTypes <= r.messageTypes;
    r
  }

  /** The declarations of a message up to its `}`, `fields` being the fields
      read so far. */
  function MessageBodyF(s: State, fields: seq<Field>): (r: Step<seq<Field>, State>)
    requires Wf(s.cur)
    ensures r.Next? ==> Moved(s.cur, r.next.cur) && s.cur.pos < r.next.cur.pos
    ensures r.Next? ==> Extends(s.acc, r.next.acc) && fields <= r.value
    decreases |s.cur.data| - s.cur.pos, 1
  {
    var documentation :- ReadDocumentationF(s.cur);
    var peeked :- PeekCharF(documentation.next);
    if peeked.value == '}' then
      Next(fields, State(Advance(peeked.next), s.acc))
    else
      var declared :- ReadDeclarationF(State(peeked.next, s.acc), documentation.value, true);
      var fields' := match declared.value case Some(field) => fields + [field] case None => fields;
      var more := MessageBodyF(declared.next, fields');
      if more.Next? then
        ExtendsTrans(s.acc, declared.next.acc, more.next.acc);
        more
      else
        more
  }

  /** The steps of `MessageBodyF` after a declaration's documentation and its
      first significant character `ch`, found at `p`. */
  lemma MessageBodyCloses(s: State, fields: seq<Field>, documentation: string, d: Cursor, p: Cursor)
    requires Wf(s.cur) && ReadDocumentationF(s.cur) == Next(documentation, d) && PeekCharF(d) == Next('}', p)
    ensures MessageBodyF(s, fields) == Next(fields, State(Advance(p), s.acc))
  {
  }

  lemma MessageBodyStep(s: State, fields: seq<Field>, documentation: string, d: Cursor, ch: char, p: Cursor)
    requires Wf(s.cur) && ReadDocumentationF(s.cur) == Next(documentation, d) && PeekCharF(d) == Next(ch, p)
    requires ch != '}'
    ensures MessageBodyF(s, fields) ==
              match ReadDeclarationF(State(p, s.acc), documentation, true)
              case Abort(e) => Abort(e)
              case Next(declared, t) =>
                MessageBodyF(t, match declared case Some(field) => fields + [field] case None => fields)
  {
  }

  function Last<T>(xs: seq<T>): T
    requires xs != []
  {
    xs[|xs| - 1]
  }

  /** The declarations of a file up to the end of its input. */
  function FileBodyF(s: State): (r: Step<(), State>)
    requires Wf(s.cur)
    ensures r.Next? ==> Moved(s.cur, r.next.cur) && r.next.cur.pos == |s.cur.data|
    ensures r.Next? ==> Extends(s.acc, r.next.acc)
    decreases |s.cur.data| - s.cur.pos
  {
    var documentation :- ReadDocumentationF(s.cur);
    if documentation.next.pos == |s.cur.data| then
      Next((), State(documentation.next, s.acc))
    else
      var declared :- ReadDeclarationF(State(documentation.next, s.acc), documentation.value, false);
      var more := FileBodyF(declared.next);
      if more.Next? then
        ExtendsTrans(s.acc, declared.next.acc, more.next.acc);
        more
      else
        more
  }

  /** The steps of `FileBodyF` after a declaration's documentation, which
      ends at `d`. */
  lemma FileBodyEnds(s: State, documentation: string, d: Cursor)
    requires Wf(s.cur) && ReadDocumentationF(s.cur) == Next(documentation, d) && d.pos == |d.data|
    ensures FileBodyF(s) == Next((), State(d, s.acc))
  {
  }

  lemma FileBodyStep(s: State, documentation: string, d: Cursor)
    requires Wf(s.cur) && ReadDocumentationF(s.cur) == Next(documentation, d) && d.pos < |d.data|
    ensures FileBodyF(s) ==
              match ReadDeclarationF(State(d, s.acc), documentation, false)
              case Abort(e) => Abort(e)
              case Next(_, t) => FileBodyF(t)
  {
  }

  /** The file a whole input declares: read to the end of the input, then what
      was collected, under the name `fileName`. */
  function ReadProtoFileF(s: State, fileName: string): (r: Step<ProtoFile, State>)
    requires Wf(s.cur)
    ensures r.Next? ==> Moved(s.cur, r.next.cur) && r.next.cur.pos == |s.cur.data|
    ensures r.Next? ==> Extends(s.acc, r.next.acc)
    ensures r.Next? ==>
              r.value == ProtoFile(fileName, r.next.acc.packageName, r.next.acc.dependencies,
                                   r.next.acc.messageTypes, r.next.acc.enumTypes)
  {
    var body :- FileBodyF(s);
    var acc := body.next.acc;
    Next(ProtoFile(fileName, acc.packageName, acc.dependencies, acc.messageTypes, acc.enumTypes), body.next)
  }

  /** A fresh parser over `data`: at its start, with nothing collected. */
  function Start(data: string): (s: State)
    ensures Tracked(s.cur) && s.cur.pos == 0 && s.acc == Empty
  {
    State(Cursor(data, 0, 0, 0), Empty)
  }

  /** Parses the whole of `data` as the file `fileName`. */
  function ParseF(data: string, fileName: string): (r: Step<ProtoFile, State>)
    ensures r.Next? ==> r.next.cur.pos == |data| && Tracked(r.next.cur)
  {
    ReadProtoFileF(Start(data), fileName)
  }
}
