/** What the declaration readers promise: where each kind of declaration may
    appear, what an import or a package records, that an empty option list is
    empty, what a field takes from its options, and that parsing a whole input
    consumes it and keeps the line count right. */
module GrammarProperties {
  import opened Outcomes
  import opened Schema
  import opened Scanner
  import opened OrderedMap
  import opened Grammar
  import ScannerProperties

  /** The word that starts the declaration at `s`, and the cursor after it. */
  predicate StartsWith(s: State, word: string, after: Cursor)
    requires Wf(s.cur)
  {
    ReadWordF(s.cur) == Next(word, after)
  }

  /** `package` and `option` are only allowed at the top level, fields and
      `extensions` only inside a message, and a file has at most one package;
      anything else but `message`, `enum` and `import` is an unexpected label.
      Each error is reported just after the word. */
  lemma ContextRules(s: State, documentation: string, nested: bool, word: string, after: Cursor)
    requires Wf(s.cur) && StartsWith(s, word, after)
    ensures word == "package" && nested ==>
              ReadDeclarationF(s, documentation, nested) == Abort(Unexpected(after, NestedPackage))
    ensures word == "package" && !nested && s.acc.packageName.Some? ==>
              ReadDeclarationF(s, documentation, nested) == Abort(Unexpected(after, TooManyPackageNames))
    ensures word == "option" && nested ==>
              ReadDeclarationF(s, documentation, nested) == Abort(Unexpected(after, NestedOption))
    ensures LabelOf(word).Some? && !nested ==>
              ReadDeclarationF(s, documentation, nested) == Abort(Unexpected(after, FieldsMustBeNested))
    ensures word == "extensions" && !nested ==>
              ReadDeclarationF(s, documentation, nested) == Abort(Unexpected(after, ExtensionsMustBeNested))
    ensures word !in {"message", "enum", "package", "option", "extensions", "import"} && LabelOf(word).None? ==>
              ReadDeclarationF(s, documentation, nested) == Abort(Unexpected(after, UnexpectedLabel(word)))
  {
    assert ReadDeclarationF(s, documentation, nested) ==
           if word == "message" || word == "enum" then ReadDeclarationF(s, documentation, nested)
           else KeywordDeclarationF(State(after, s.acc), documentation, word, nested);
  }

  /** Messages, enums and imports are accepted at any depth: a declaration
      starting with one of them never fails on its position. */
  lemma AllowedAtAnyDepth(s: State, documentation: string, word: string, after: Cursor)
    requires Wf(s.cur) && StartsWith(s, word, after)
    requires word == "message" || word == "enum" || word == "import"
    ensures ReadDeclarationF(s, documentation, true) == ReadDeclarationF(s, documentation, false)
  {
  }

  /** At the top level no declaration yields a field. */
  lemma NoTopLevelFields(s: State, documentation: string)
    requires Wf(s.cur) && ReadDeclarationF(s, documentation, false).Next?
    ensures ReadDeclarationF(s, documentation, false).value == None
  {
  }

  /** An import records exactly one dependency, its file name, at the end, and
      changes nothing else that was collected. */
  lemma ImportAppendsOne(s: State, documentation: string, nested: bool, after: Cursor)
    requires Wf(s.cur) && StartsWith(s, "import", after)
    requires ReadDeclarationF(s, documentation, nested).Next?
    ensures Wf(after) && ReadStringF(after).Next?
    ensures ReadDeclarationF(s, documentation, nested).next.acc ==
              s.acc.(dependencies := s.acc.dependencies + [ReadStringF(after).value])
    ensures ReadDeclarationF(s, documentation, nested).value == None
  {
    assert ReadDeclarationF(s, documentation, nested) ==
           KeywordDeclarationF(State(after, s.acc), documentation, "import", nested);
  }

  /** A top-level package declaration sets the package name when there is none yet. */
  lemma PackageSetsName(s: State, documentation: string, after: Cursor)
    requires Wf(s.cur) && StartsWith(s, "package", after) && s.acc.packageName == None
    requires ReadDeclarationF(s, documentation, false).Next?
    ensures Wf(after) && ReadWordF(after).Next?
    ensures ReadDeclarationF(s, documentation, false).next.acc ==
              s.acc.(packageName := Some(ReadWordF(after).value))
  {
    assert ReadDeclarationF(s, documentation, false) ==
           KeywordDeclarationF(State(after, s.acc), documentation, "package", false);
  }

  /** `[]` is an empty option list. */
  lemma EmptyOptions(c: Cursor)
    requires Wf(c) && c.pos + 1 < |c.data| && c.data[c.pos] == '[' && c.data[c.pos + 1] == ']'
    ensures ReadOptionsF(c) == Next([], c.(pos := c.pos + 2))
  {
    var open := c.(pos := c.pos + 1);
    assert ReadCharF(c).next == open;
    assert PeekCharF(open) == Next(']', open);
  }

  /** Each `name = value` entry of an option list is put into the map read
      so far, so that a repeated name keeps its first place and takes the
      later value; after it, `]` ends the list, `,` goes on to the next entry,
      and any other character is an error reported just after it. */
  lemma OptionEntryStep(c: Cursor, m: Entries, name: string, n: Cursor, e: Cursor,
                        value: string, v: Cursor, separator: char, d: Cursor)
    requires Wf(c) && ReadWordF(c) == Next(name, n) && ExpectF(n, '=', ExpectedEquals) == Next((), e)
    requires ReadStringF(e) == Next(value, v) && ReadCharF(v) == Next(separator, d)
    ensures separator == ']' ==> OptionEntriesF(c, m) == Next(Put(m, name, value), d)
    ensures separator == ',' ==> OptionEntriesF(c, m) == OptionEntriesF(d, Put(m, name, value))
    ensures separator != ']' && separator != ',' ==> OptionEntriesF(c, m) == Abort(Unexpected(d, ExpectedComma))
  {
  }

  /** A field is deprecated exactly when its options hold a `deprecated`
      entry that reads as true; it has a default exactly when they hold a
      `default` entry, and then the default is that entry's raw value. */
  lemma FieldTakesOptions(c: Cursor, documentation: string, cardinality: Label)
    requires Wf(c) && ReadFieldF(c, documentation, cardinality).Next?
    ensures FieldHeadF(c).Next? && FieldOptionsF(FieldHeadF(c).next).Next?
    ensures var options := FieldOptionsF(FieldHeadF(c).next).value;
            var field := ReadFieldF(c, documentation, cardinality).value;
            (field.deprecated <==>
               exists i | 0 <= i < |options| :: options[i].0 == "deprecated" && ParseBoolean(options[i].1)) &&
            (field.defaultValue == None <==> forall i | 0 <= i < |options| :: options[i].0 != "default") &&
            (field.defaultValue.Some? ==>
               exists i | 0 <= i < |options| :: options[i] == ("default", field.defaultValue.value))
  {
    var options := FieldOptionsF(FieldHeadF(c).next).value;
    var field := ReadFieldF(c, documentation, cardinality).value;
    assert field.deprecated == Deprecated(options) && field.defaultValue == Get(options, "default");
    GetAbsent(options, "default");
    GetAbsent(options, "deprecated");
    if field.defaultValue.Some? {
      GetFindsEntry(options, "default", field.defaultValue.value);
    }
    match Get(options, "deprecated")
    case Some(text) =>
      GetFindsEntry(options, "deprecated", text);
      if exists i | 0 <= i < |options| :: options[i].0 == "deprecated" && ParseBoolean(options[i].1) {
        var i :| 0 <= i < |options| && options[i].0 == "deprecated" && ParseBoolean(options[i].1);
        GetFindsEntry(options, "deprecated", options[i].1);
      }
    case None =>
  }

  /** A field without a `[` after its tag has no options: it is not deprecated
      and has no default. */
  lemma FieldWithoutOptions(c: Cursor, documentation: string, cardinality: Label)
    requires Wf(c) && ReadFieldF(c, documentation, cardinality).Next?
    requires PeekCharF(FieldHeadF(c).next).value != '['
    ensures !ReadFieldF(c, documentation, cardinality).value.deprecated
    ensures ReadFieldF(c, documentation, cardinality).value.defaultValue == None
  {
  }

  /** A field whose options are not followed by `;` is an error, reported at
      the character that should have been the `;`. */
  lemma FieldNeedsSemicolon(c: Cursor, documentation: string, cardinality: Label)
    requires Wf(c) && FieldHeadF(c).Next? && FieldOptionsF(FieldHeadF(c).next).Next?
    requires c.data[FieldOptionsF(FieldHeadF(c).next).next.pos] != ';'
    ensures ReadFieldF(c, documentation, cardinality) ==
              Abort(Unexpected(FieldOptionsF(FieldHeadF(c).next).next, ExpectedSemicolon))
  {
  }

  /** Case does not matter to a boolean option, and only the word `true` is true. */
  lemma ParseBooleanExamples()
    ensures ParseBoolean("true") && ParseBoolean("TRUE") && ParseBoolean("True")
    ensures !ParseBoolean("false") && !ParseBoolean("1") && !ParseBoolean("yes") && !ParseBoolean("truer")
  {
  }

  /** A boolean option is true exactly when it is the four letters of `true`,
      each in either case. */
  lemma ParseBooleanIgnoresCase(s: string)
    ensures ParseBoolean(s) <==>
              |s| == 4 && (s[0] == 't' || s[0] == 'T') && (s[1] == 'r' || s[1] == 'R') &&
              (s[2] == 'u' || s[2] == 'U') && (s[3] == 'e' || s[3] == 'E')
  {
  }

  /** The declarations of a message body up to its `}`, each as
      `ReadDeclarationF` returns it: an independent account of a body. */
  function BodyDeclarationsF(s: State): (r: Step<seq<Option<Field>>, State>)
    requires Wf(s.cur)
    ensures r.Next? ==> Moved(s.cur, r.next.cur)
    decreases |s.cur.data| - s.cur.pos
  {
    var documentation :- ReadDocumentationF(s.cur);
    var peeked :- PeekCharF(documentation.next);
    if peeked.value == '}' then
      Next([], State(Advance(peeked.next), s.acc))
    else
      var declared :- ReadDeclarationF(State(peeked.next, s.acc), documentation.value, true);
      var more :- BodyDeclarationsF(declared.next);
      Next([declared.value] + more.value, more.next)
  }

  /** The fields among the results of some declarations, in order. */
  function FieldsOf(declared: seq<Option<Field>>): seq<Field>
  {
    if declared == [] then []
    else (match declared[0] case Some(field) => [field] case None => []) + FieldsOf(declared[1..])
  }

  /** One declaration of a body, which is not its `}`, then the rest. */
  lemma BodyDeclarationsStep(s: State, documentation: string, d: Cursor, ch: char, p: Cursor)
    requires Wf(s.cur) && ReadDocumentationF(s.cur) == Next(documentation, d) && PeekCharF(d) == Next(ch, p)
    requires ch != '}'
    ensures BodyDeclarationsF(s) ==
              match ReadDeclarationF(State(p, s.acc), documentation, true)
              case Abort(e) => Abort(e)
              case Next(declared, t) =>
                match BodyDeclarationsF(t)
                case Abort(e) => Abort(e)
                case Next(more, u) => Next([declared] + more, u)
  {
  }

  /** The fields of one more declaration go after those already read. */
  lemma FieldsOfCons(fields: seq<Field>, declared: Option<Field>, more: seq<Option<Field>>)
    ensures (match declared case Some(field) => fields + [field] case None => fields) + FieldsOf(more) ==
              fields + FieldsOf([declared] + more)
  {
    assert ([declared] + more)[1..] == more;
  }

  /** A message body's fields are exactly the fields its declarations yield,
      in order, after those already read. */
  lemma {:induction false} MessageBodyCollectsFields(s: State, fields: seq<Field>)
    requires Wf(s.cur)
    ensures MessageBodyF(s, fields) ==
              match BodyDeclarationsF(s)
              case Abort(e) => Abort(e)
              case Next(declared, t) => Next(fields + FieldsOf(declared), t)
    decreases |s.cur.data| - s.cur.pos
  {
    var documentation := ReadDocumentationF(s.cur);
    if documentation.Next? {
      var peeked := PeekCharF(documentation.next);
      if peeked.Next? && peeked.value == '}' {
        MessageBodyCloses(s, fields, documentation.value, documentation.next, peeked.next);
        assert fields + FieldsOf([]) == fields;
      } else if peeked.Next? {
        MessageBodyStep(s, fields, documentation.value, documentation.next, peeked.value, peeked.next);
        BodyDeclarationsStep(s, documentation.value, documentation.next, peeked.value, peeked.next);
        var declared := ReadDeclarationF(State(peeked.next, s.acc), documentation.value, true);
        if declared.Next? {
          var fields' := match declared.value case Some(field) => fields + [field] case None => fields;
          MessageBodyCollectsFields(declared.next, fields');
          var more := BodyDeclarationsF(declared.next);
          if more.Next? {
            FieldsOfCons(fields, declared.value, more.value);
          }
        }
      }
    }
  }

  /** A message is recorded once, after everything declared inside it, with
      exactly the fields of its body. */
  lemma MessageRecordedAfterNested(s: State, documentation: string, name: string, after: Cursor,
                                   open: Cursor, declared: seq<Option<Field>>, t: State)
    requires Wf(s.cur) && StartsWith(s, name, after)
    requires ExpectF(after, '{', ExpectedOpenBrace) == Next((), open)
    requires BodyDeclarationsF(State(open, s.acc)) == Next(declared, t)
    ensures ReadMessageF(s, documentation) ==
              Next((), State(t.cur, t.acc.(messageTypes := t.acc.messageTypes +
                                             [MessageType(name, documentation, FieldsOf(declared))])))
  {
    MessageBodyCollectsFields(State(open, s.acc), []);
    assert [] + FieldsOf(declared) == FieldsOf(declared);
  }

  /** The constants of an enum body up to its `}`, each as `ReadEnumValueF`
      reads it with the documentation in front of it: a body on its own,
      without the constants read before it. */
  function EnumValuesF(c: Cursor): (r: Step<seq<EnumValue>, Cursor>)
    requires Wf(c)
    ensures r.Next? ==> Moved(c, r.next)
    decreases |c.data| - c.pos
  {
    var documentation :- ReadDocumentationF(c);
    var peeked :- PeekCharF(documentation.next);
    if peeked.value == '}' then
      Next([], Advance(peeked.next))
    else
      var entry :- ReadEnumValueF(peeked.next, documentation.value);
      var rest :- EnumValuesF(entry.next);
      Next([entry.value] + rest.value, rest.next)
  }

  lemma EnumBodyCloses(c: Cursor, values: seq<EnumValue>, documentation: string, d: Cursor, p: Cursor)
    requires Wf(c) && ReadDocumentationF(c) == Next(documentation, d) && PeekCharF(d) == Next('}', p)
    ensures EnumBodyF(c, values) == Next(values, Advance(p))
    ensures EnumValuesF(c) == Next([], Advance(p))
  {
  }

  lemma EnumBodyStep(c: Cursor, values: seq<EnumValue>, documentation: string, d: Cursor, ch: char, p: Cursor)
    requires Wf(c) && ReadDocumentationF(c) == Next(documentation, d) && PeekCharF(d) == Next(ch, p)
    requires ch != '}'
    ensures ReadEnumValueF(p, documentation).Abort? ==>
              EnumBodyF(c, values) == Abort(ReadEnumValueF(p, documentation).error) &&
              EnumValuesF(c) == Abort(ReadEnumValueF(p, documentation).error)
    ensures ReadEnumValueF(p, documentation).Next? ==>
              EnumBodyF(c, values) ==
                EnumBodyF(ReadEnumValueF(p, documentation).next, values + [ReadEnumValueF(p, documentation).value])
    ensures ReadEnumValueF(p, documentation).Next? && EnumValuesF(ReadEnumValueF(p, documentation).next).Abort? ==>
              EnumValuesF(c) == EnumValuesF(ReadEnumValueF(p, documentation).next)
    ensures ReadEnumValueF(p, documentation).Next? && EnumValuesF(ReadEnumValueF(p, documentation).next).Next? ==>
              EnumValuesF(c) ==
                Next([ReadEnumValueF(p, documentation).value] + EnumValuesF(ReadEnumValueF(p, documentation).next).value,
                     EnumValuesF(ReadEnumValueF(p, documentation).next).next)
  {
  }

  /** An enum body appends exactly the constants of `EnumValuesF`, in order,
      to those read before it, and stops where it does or fails as it does. */
  lemma {:induction false} EnumBodyCollectsValues(c: Cursor, values: seq<EnumValue>)
    requires Wf(c)
    ensures EnumBodyF(c, values) ==
              match EnumValuesF(c)
              case Next(more, d) => Next(values + more, d)
              case Abort(e) => Abort(e)
    decreases |c.data| - c.pos
  {
    var documentation := ReadDocumentationF(c);
    if documentation.Next? {
      var peeked := PeekCharF(documentation.next);
      if peeked.Next? && peeked.value == '}' {
        EnumBodyCloses(c, values, documentation.value, documentation.next, peeked.next);
        assert values + [] == values;
      } else if peeked.Next? {
        EnumBodyStep(c, values, documentation.value, documentation.next, peeked.value, peeked.next);
        var value := ReadEnumValueF(peeked.next, documentation.value);
        if value.Next? {
          EnumBodyCollectsValues(value.next, values + [value.value]);
          var more := EnumValuesF(value.next);
          if more.Next? {
            ScannerProperties.Associative(values, [value.value], more.value);
          }
        }
      }
    }
  }

  /** An enum whose name, `{` and body read as given records exactly the
      constants of its body, under its name and documentation. */
  lemma EnumRecordedWithValues(s: State, documentation: string, name: string, after: Cursor,
                               open: Cursor, values: seq<EnumValue>, d: Cursor)
    requires Wf(s.cur) && StartsWith(s, name, after)
    requires ExpectF(after, '{', ExpectedOpenBrace) == Next((), open)
    requires EnumValuesF(open) == Next(values, d)
    ensures ReadEnumTypeF(s, documentation) ==
              Next((), State(d, s.acc.(enumTypes := s.acc.enumTypes + [EnumType(name, documentation, values)])))
  {
    EnumBodyCollectsValues(open, []);
    assert [] + values == values;
  }

  /** A successful parse consumes the whole input, and its line count is the
      number of newlines in it: the tracking stays right to the end. */
  lemma ParseConsumesInput(data: string, fileName: string)
    requires ParseF(data, fileName).Next?
    ensures ParseF(data, fileName).next.cur.pos == |data|
    ensures Line(ParseF(data, fileName).next.cur) == Newlines(data, |data|) + 1
    ensures Column(ParseF(data, fileName).next.cur) == |data| - LineStartAt(data, |data|) + 1
    ensures ParseF(data, fileName).value.fileName == fileName
  {
    PositionOfTracked(ParseF(data, fileName).next.cur);
  }

  /** An input of nothing but whitespace and comments is an empty file. */
  lemma OnlyCommentsIsEmpty(data: string, fileName: string)
    requires ReadDocumentationF(Start(data).cur).Next?
    requires ReadDocumentationF(Start(data).cur).next.pos == |data|
    ensures ParseF(data, fileName).Next?
    ensures ParseF(data, fileName).value == ProtoFile(fileName, None, [], [], [])
  {
  }
}
