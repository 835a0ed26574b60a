/** The character level of the parser as pure functions on a cursor: skipping
    whitespace and comments, reading comments, words, quoted strings, integers
    and documentation. Each function returns the value read and the cursor after
    it, or the error the parser reports there. */
module Scanner {
  import opened Outcomes
  import Numbers

  /** The whole input and the parser's position in it: `data[pos]` is the next
      character, `line` counts the newlines consumed so far and `lineStart` is
      the offset at which the current line begins. */
  datatype Cursor = Cursor(data: string, pos: nat, line: nat, lineStart: nat)

  /** The cursor lies inside its input, and not before the start of its line. */
  predicate Wf(c: Cursor)
  {
    c.pos <= |c.data| && c.lineStart <= c.pos
  }

  /** The number of newline characters among the first `n` characters of `s`. */
  function Newlines(s: string, n: nat): nat
    requires n <= |s|
  {
    if n == 0 then 0 else Newlines(s, n - 1) + (if s[n - 1] == '\n' then 1 else 0)
  }

  /** The offset of the first character of the line that offset `n` of `s` is on. */
  function LineStartAt(s: string, n: nat): (k: nat)
    requires n <= |s|
    ensures k <= n
  {
    if n == 0 then 0 else if s[n - 1] == '\n' then n else LineStartAt(s, n - 1)
  }

  /** `line` and `lineStart` agree with the text consumed so far. */
  predicate Tracked(c: Cursor)
  {
    Wf(c) && c.line == Newlines(c.data, c.pos) && c.lineStart == LineStartAt(c.data, c.pos)
  }

  /** `d` is a later cursor over the same input as `c`, and keeps `c`'s line tracking. */
  predicate Moved(c: Cursor, d: Cursor)
  {
    d.data == c.data && Wf(d) && c.pos <= d.pos && (Tracked(c) ==> Tracked(d))
  }

  /** The 1-based line an error is reported on. */
  function Line(c: Cursor): int
  {
    c.line + 1
  }

  /** The 1-based column an error is reported at. */
  function Column(c: Cursor): int
  {
    c.pos - c.lineStart + 1
  }

  /** The error of kind `kind` at the cursor's position. */
  function Unexpected(c: Cursor, kind: ErrorKind): Error
  {
    Error(kind, Line(c), Column(c))
  }

  /** The line start is just past the last newline before `n`, or 0 when there is none. */
  lemma {:induction false} LineStartIsAfterLastNewline(s: string, n: nat)
    requires n <= |s|
    ensures LineStartAt(s, n) == 0 || s[LineStartAt(s, n) - 1] == '\n'
    ensures forall i | LineStartAt(s, n) <= i < n :: s[i] != '\n'
  {
    if n > 0 && s[n - 1] != '\n' {
      LineStartIsAfterLastNewline(s, n - 1);
    }
  }

  /** On a tracked cursor, line and column say where the cursor is in the text:
      the line is one more than the newlines before it, and the column one more
      than the characters since the last of them. */
  lemma PositionOfTracked(c: Cursor)
    requires Tracked(c)
    ensures Line(c) == Newlines(c.data, c.pos) + 1
    ensures 1 <= Column(c) && (forall i | c.pos - Column(c) + 1 <= i < c.pos :: c.data[i] != '\n')
    ensures Column(c) == c.pos + 1 || c.data[c.pos - Column(c)] == '\n'
  {
    LineStartIsAfterLastNewline(c.data, c.pos);
  }

  /** The bookkeeping for a newline just consumed. */
  function Newline(c: Cursor): Cursor
  {
    c.(line := c.line + 1, lineStart := c.pos)
  }

  /** Consumes the next character, counting it when it is a newline. */
  function Advance(c: Cursor): (d: Cursor)
    requires Wf(c) && c.pos < |c.data|
    ensures d.pos == c.pos + 1 && Moved(c, d)
  {
    var d := c.(pos := c.pos + 1);
    if c.data[c.pos] == '\n' then Newline(d) else d
  }

  /** Moving over text that holds no newline keeps the tracking. */
  lemma {:induction false} JumpTracked(c: Cursor, q: nat)
    requires Wf(c) && c.pos <= q <= |c.data|
    requires forall i | c.pos <= i < q :: c.data[i] != '\n'
    ensures Wf(c.(pos := q))
    ensures Tracked(c) ==> Tracked(c.(pos := q))
    decreases q
  {
    if q > c.pos {
      JumpTracked(c, q - 1);
    }
  }

  predicate IsWhitespace(ch: char)
  {
    ch == ' ' || ch == '\t' || ch == '\r' || ch == '\n'
  }

  predicate IsWordChar(ch: char)
  {
    ('a' <= ch <= 'z') || ('A' <= ch <= 'Z') || ('0' <= ch <= '9') || ch == '_' || ch == '-' || ch == '.'
  }

  /** A block comment closes at `i` when `*` and `/` stand at `i` and `i + 1`. */
  predicate ClosesAt(s: string, i: int)
  {
    0 <= i && i + 1 < |s| && s[i] == '*' && s[i + 1] == '/'
  }

  /** The errors that reading a comment can raise. */
  const CommentErrors: set<ErrorKind> := {UnterminatedComment, UnexpectedSlash, CommentOutOfBounds}

  /** The rest of a block comment whose body began at `start`, scanning on from
      `c`: the body is the text up to the first closing `*` `/`. */
  function BlockCommentF(c: Cursor, start: nat): (r: Step<string, Cursor>)
    requires Wf(c) && start <= c.pos
    ensures r.Next? ==> Moved(c, r.next) && c.pos + 2 <= r.next.pos
    ensures r.Next? ==> ClosesAt(c.data, r.next.pos - 2) && r.value == c.data[start..r.next.pos - 2]
    ensures r.Abort? ==> r.error.kind == UnterminatedComment
    decreases |c.data| - c.pos
  {
    if c.pos + 1 < |c.data| then
      if c.data[c.pos] == '*' && c.data[c.pos + 1] == '/' then
        JumpTracked(c, c.pos + 2);
        Next(c.data[start..c.pos], c.(pos := c.pos + 2))
      else
        BlockCommentF(Advance(c), start)
    else
      Abort(Unexpected(c, UnterminatedComment))
  }

  /** The steps of `BlockCommentF`, one lemma each. */
  lemma BlockCommentCloses(c: Cursor, start: nat)
    requires Wf(c) && start <= c.pos && ClosesAt(c.data, c.pos)
    ensures BlockCommentF(c, start) == Next(c.data[start..c.pos], c.(pos := c.pos + 2))
  {
  }

  lemma BlockCommentSkips(c: Cursor, start: nat)
    requires Wf(c) && start <= c.pos && c.pos + 1 < |c.data| && !ClosesAt(c.data, c.pos)
    ensures BlockCommentF(c, start) == BlockCommentF(Advance(c), start)
  {
  }

  /** A block comment ends at the first closing `*` `/` after the cursor. */
  lemma {:induction false} BlockCommentFirstCloser(c: Cursor, start: nat)
    requires Wf(c) && start <= c.pos && BlockCommentF(c, start).Next?
    ensures forall i | c.pos <= i < BlockCommentF(c, start).next.pos - 2 :: !ClosesAt(c.data, i)
    decreases |c.data| - c.pos
  {
    if !ClosesAt(c.data, c.pos) {
      BlockCommentFirstCloser(Advance(c), start);
    }
  }

  /** A block comment is unterminated exactly when no closing `*` `/` follows the cursor. */
  lemma {:induction false} BlockCommentUnterminated(c: Cursor, start: nat)
    requires Wf(c) && start <= c.pos
    ensures BlockCommentF(c, start).Abort? <==> forall i | c.pos <= i < |c.data| :: !ClosesAt(c.data, i)
    decreases |c.data| - c.pos
  {
    if ClosesAt(c.data, c.pos) {
    } else if c.pos + 1 < |c.data| {
      BlockCommentUnterminated(Advance(c), start);
    }
  }

  /** Where the scan of a line comment stops: just past the first newline, which
      is consumed and counted, or at the end of the input. */
  function LineCommentEnd(c: Cursor): (d: Cursor)
    requires Wf(c)
    ensures Moved(c, d)
    ensures d.pos == |c.data| || (c.pos < d.pos && c.data[d.pos - 1] == '\n')
    ensures forall i | c.pos <= i < d.pos - 1 :: c.data[i] != '\n'
    decreases |c.data| - c.pos
  {
    if c.pos < |c.data| then
      if c.data[c.pos] == '\n' then Advance(c) else LineCommentEnd(Advance(c))
    else
      c
  }

  /** The rest of a line comment whose body begins under the cursor: the text
      up to the end of the scan without its last character, which is the
      newline, or a real character when the input ends first. An empty scan at
      the end of the input has no character to drop and fails. */
  function LineCommentF(c: Cursor): (r: Step<string, Cursor>)
    requires Wf(c)
    ensures r.Next? ==> r.next == LineCommentEnd(c) && c.pos < r.next.pos
    ensures r.Next? ==> r.value == c.data[c.pos..r.next.pos - 1]
    ensures r.Abort? <==> c.pos == |c.data|
    ensures r.Abort? ==> r.error == Unexpected(c, CommentOutOfBounds)
  {
    var d := LineCommentEnd(c);
    if d.pos - 1 - c.pos < 0 then
      Abort(Unexpected(d, CommentOutOfBounds))
    else
      Next(c.data[c.pos..d.pos - 1], d)
  }

  /** Reads the comment that starts at the `/` under the cursor and returns its
      body: for a block comment the text between the markers, for a line comment
      the text after the slashes up to (and without) the character before the end
      of the scan, which loses the last character at the end of the input. */
  function ReadCommentF(c: Cursor): (r: Step<string, Cursor>)
    requires Wf(c) && c.pos < |c.data| && c.data[c.pos] == '/'
    ensures r.Next? ==> Moved(c, r.next) && c.pos + 2 <= r.next.pos
    ensures r.Next? ==> c.data[c.pos + 1] == '*' || c.data[c.pos + 1] == '/'
    ensures r.Abort? ==> r.error.kind in CommentErrors
    ensures r.Abort? && r.error.kind == UnexpectedSlash <==>
              c.pos + 1 == |c.data| || (c.data[c.pos + 1] != '*' && c.data[c.pos + 1] != '/')
  {
    var c1 := c.(pos := c.pos + 1);
    if c1.pos < |c.data| && c.data[c1.pos] == '*' then
      JumpTracked(c, c1.pos + 1);
      BlockCommentF(c1.(pos := c1.pos + 1), c1.pos + 1)
    else if c1.pos < |c.data| && c.data[c1.pos] == '/' then
      JumpTracked(c, c1.pos + 1);
      LineCommentF(c1.(pos := c1.pos + 1))
    else
      Abort(Unexpected(if c1.pos < |c.data| then c1.(pos := c1.pos + 1) else c1, UnexpectedSlash))
  }

  /** The three cases of `ReadCommentF`, one lemma each. */
  lemma ReadCommentBlockCase(c: Cursor)
    requires Wf(c) && c.pos + 1 < |c.data| && c.data[c.pos] == '/' && c.data[c.pos + 1] == '*'
    ensures Wf(c.(pos := c.pos + 2)) && (Tracked(c) ==> Tracked(c.(pos := c.pos + 2)))
    ensures ReadCommentF(c) == BlockCommentF(c.(pos := c.pos + 2), c.pos + 2)
  {
    JumpTracked(c, c.pos + 2);
  }

  lemma ReadCommentLineCase(c: Cursor)
    requires Wf(c) && c.pos + 1 < |c.data| && c.data[c.pos] == '/' && c.data[c.pos + 1] == '/'
    ensures Wf(c.(pos := c.pos + 2)) && (Tracked(c) ==> Tracked(c.(pos := c.pos + 2)))
    ensures ReadCommentF(c) == LineCommentF(c.(pos := c.pos + 2))
  {
    JumpTracked(c, c.pos + 2);
  }

  lemma ReadCommentOtherCase(c: Cursor)
    requires Wf(c) && c.pos < |c.data| && c.data[c.pos] == '/'
    requires c.pos + 1 == |c.data| || (c.data[c.pos + 1] != '*' && c.data[c.pos + 1] != '/')
    ensures ReadCommentF(c) ==
              Abort(Unexpected(if c.pos + 1 < |c.data| then c.(pos := c.pos + 2) else c.(pos := c.pos + 1), UnexpectedSlash))
  {
  }

  /** Skips whitespace and, when `skipComments` holds, comments too (their text
      is dropped). Stops at the end of the input or at a character it does not skip. */
  function SkipWhitespaceF(c: Cursor, skipComments: bool): (r: Step<(), Cursor>)
    requires Wf(c)
    ensures r.Next? ==> Moved(c, r.next)
    ensures r.Next? ==>
              r.next.pos == |c.data| ||
              (!IsWhitespace(c.data[r.next.pos]) && !(skipComments && c.data[r.next.pos] == '/'))
    ensures !skipComments ==> r.Next? && forall i | c.pos <= i < r.next.pos :: IsWhitespace(c.data[i])
    ensures c.pos == |c.data| || (!IsWhitespace(c.data[c.pos]) && !(skipComments && c.data[c.pos] == '/')) ==>
              r == Next((), c)
    ensures r.Abort? ==> r.error.kind in CommentErrors
    ensures skipComments && c.pos < |c.data| && c.data[c.pos] == '/' ==>
              (ReadCommentF(c).Abort? ==> r == Abort(ReadCommentF(c).error)) &&
              (ReadCommentF(c).Next? ==> r == SkipWhitespaceF(ReadCommentF(c).next, true))
    decreases |c.data| - c.pos
  {
    if c.pos < |c.data| then
      var ch := c.data[c.pos];
      if IsWhitespace(ch) then
        SkipWhitespaceF(Advance(c), skipComments)
      else if skipComments && ch == '/' then
        var comment :- ReadCommentF(c);
        SkipWhitespaceF(comment.next, skipComments)
      else
        Next((), c)
    else
      Next((), c)
  }

  /** The next character that is neither whitespace nor part of a comment, without consuming it. */
  function PeekCharF(c: Cursor): (r: Step<char, Cursor>)
    requires Wf(c)
    ensures r.Next? ==> Moved(c, r.next) && r.next.pos < |c.data| && r.value == c.data[r.next.pos]
    ensures r.Next? ==> !IsWhitespace(r.value) && r.value != '/'
    ensures c.pos < |c.data| && !IsWhitespace(c.data[c.pos]) && c.data[c.pos] != '/' ==>
              r == Next(c.data[c.pos], c)
    ensures r.Abort? ==> r.error.kind in CommentErrors + {UnexpectedEndOfFile}
    ensures r.Next? ==> SkipWhitespaceF(c, true).Next? && r.next == SkipWhitespaceF(c, true).next
    ensures SkipWhitespaceF(c, true).Next? && SkipWhitespaceF(c, true).next.pos == |c.data| ==>
              r.Abort? && r.error.kind == UnexpectedEndOfFile
    ensures SkipWhitespaceF(c, true).Abort? ==> r == Abort(SkipWhitespaceF(c, true).error)
    ensures SkipWhitespaceF(c, true).Next? && SkipWhitespaceF(c, true).next.pos < |c.data| ==> r.Next?
  {
    var skipped :- SkipWhitespaceF(c, true);
    var s := skipped.next;
    if s.pos == |c.data| then Abort(Unexpected(s, UnexpectedEndOfFile)) else Next(c.data[s.pos], s)
  }

  /** Like `PeekCharF`, and consumes the character. */
  function ReadCharF(c: Cursor): (r: Step<char, Cursor>)
    requires Wf(c)
    ensures r.Next? ==> Moved(c, r.next) && c.pos < r.next.pos && r.value == c.data[r.next.pos - 1]
    ensures r.Next? ==> !IsWhitespace(r.value) && r.value != '/'
    ensures c.pos < |c.data| && !IsWhitespace(c.data[c.pos]) && c.data[c.pos] != '/' ==>
              r == Next(c.data[c.pos], c.(pos := c.pos + 1))
    ensures r.Abort? ==> r.error.kind in CommentErrors + {UnexpectedEndOfFile}
    ensures r.Next? ==> PeekCharF(c).Next? && r.value == PeekCharF(c).value && r.next.pos == PeekCharF(c).next.pos + 1
    ensures r.Abort? ==> PeekCharF(c).Abort? && r.error == PeekCharF(c).error
  {
    var peeked :- PeekCharF(c);
    Next(peeked.value, Advance(peeked.next))
  }

  /** The end of the maximal run of word characters that starts at `i`. */
  function WordEnd(s: string, i: nat): (j: nat)
    requires i <= |s|
    ensures i <= j <= |s|
    ensures forall k | i <= k < j :: IsWordChar(s[k])
    ensures j == |s| || !IsWordChar(s[j])
    decreases |s| - i
  {
    if i < |s| && IsWordChar(s[i]) then WordEnd(s, i + 1) else i
  }

  /** The maximal run of word characters under the cursor, which must not be empty. */
  function WordAtF(s: Cursor): (r: Step<string, Cursor>)
    requires Wf(s)
    ensures r.Next? ==> Moved(s, r.next) && 0 < |r.value| && r.next.pos == s.pos + |r.value|
    ensures r.Next? ==> r.value == s.data[s.pos..r.next.pos] && r.next.pos == WordEnd(s.data, s.pos)
    ensures r.Abort? <==> s.pos == |s.data| || !IsWordChar(s.data[s.pos])
    ensures r.Abort? ==> r.error == Unexpected(s, ExpectedWord)
  {
    var end := WordEnd(s.data, s.pos);
    if end == s.pos then
      Abort(Unexpected(s, ExpectedWord))
    else
      JumpTracked(s, end);
      Next(s.data[s.pos..end], s.(pos := end))
  }

  /** Skips whitespace and comments, then reads the maximal run of word characters. */
  function ReadWordF(c: Cursor): (r: Step<string, Cursor>)
    requires Wf(c)
    ensures r.Next? ==> Moved(c, r.next) && 0 < |r.value| && c.pos + |r.value| <= r.next.pos
    ensures r.Next? ==> r.value == c.data[r.next.pos - |r.value|..r.next.pos]
    ensures r.Next? ==> forall i | 0 <= i < |r.value| :: IsWordChar(r.value[i])
    ensures r.Next? ==> r.next.pos == |c.data| || !IsWordChar(c.data[r.next.pos])
    ensures r.Abort? ==> r.error.kind in CommentErrors + {ExpectedWord}
    ensures SkipWhitespaceF(c, true).Abort? ==> r == Abort(SkipWhitespaceF(c, true).error)
    ensures SkipWhitespaceF(c, true).Next? ==>
              var s := SkipWhitespaceF(c, true).next;
              (r.Abort? <==> s.pos == |c.data| || !IsWordChar(c.data[s.pos])) &&
              (r.Abort? ==> r.error == Unexpected(s, ExpectedWord)) &&
              (r.Next? ==> r.next.pos == s.pos + |r.value|)
  {
    var skipped := SkipWhitespaceF(c, true);
    if skipped.Abort? then Abort(skipped.error) else WordAtF(skipped.next)
  }

  /** The body of a quoted string after its opening quote, `acc` being what is read so far. */
  function QuotedBodyF(c: Cursor, acc: string): (r: Step<string, Cursor>)
    requires Wf(c)
    ensures r.Next? ==> Moved(c, r.next) && c.pos < r.next.pos
    ensures r.Abort? ==> r.error.kind in {UnterminatedString, UnexpectedEndOfFile}
    decreases |c.data| - c.pos
  {
    if c.pos < |c.data| then
      var ch := c.data[c.pos];
      var c1 := c.(pos := c.pos + 1);
      if ch == '"' then
        Next(acc, c1)
      else if ch == '\\' then
        if c1.pos == |c.data| then
          Abort(Unexpected(c1, UnexpectedEndOfFile))
        else
          QuotedBodyF(Advance(c1), acc + [c.data[c1.pos]])
      else
        QuotedBodyF(Advance(c), acc + [ch])
    else
      Abort(Unexpected(c, UnterminatedString))
  }

  /** The steps of `QuotedBodyF`, one lemma each. */
  lemma QuotedBodyCloses(c: Cursor, acc: string)
    requires Wf(c) && c.pos < |c.data| && c.data[c.pos] == '"'
    ensures QuotedBodyF(c, acc) == Next(acc, c.(pos := c.pos + 1))
  {
  }

  lemma QuotedBodyEscapeAtEnd(c: Cursor, acc: string)
    requires Wf(c) && c.pos + 1 == |c.data| && c.data[c.pos] == '\\'
    ensures QuotedBodyF(c, acc) == Abort(Unexpected(c.(pos := c.pos + 1), UnexpectedEndOfFile))
  {
  }

  lemma QuotedBodyEscape(c: Cursor, acc: string)
    requires Wf(c) && c.pos + 1 < |c.data| && c.data[c.pos] == '\\'
    ensures Wf(c.(pos := c.pos + 1))
    ensures QuotedBodyF(c, acc) == QuotedBodyF(Advance(c.(pos := c.pos + 1)), acc + [c.data[c.pos + 1]])
  {
  }

  lemma QuotedBodyPlain(c: Cursor, acc: string)
    requires Wf(c) && c.pos < |c.data| && c.data[c.pos] != '"' && c.data[c.pos] != '\\'
    ensures QuotedBodyF(c, acc) == QuotedBodyF(Advance(c), acc + [c.data[c.pos]])
  {
  }

  /** Reads a string in double quotes; a backslash makes the next character literal. */
  function ReadQuotedStringF(c: Cursor): (r: Step<string, Cursor>)
    requires Wf(c) && c.pos < |c.data| && c.data[c.pos] == '"'
    ensures r.Next? ==> Moved(c, r.next) && c.pos + 2 <= r.next.pos
    ensures r.Abort? ==> r.error.kind in {UnterminatedString, UnexpectedEndOfFile}
  {
    var opening := ReadCharF(c);
    QuotedBodyF(opening.next, "")
  }

  /** Reads a quoted string when the next significant character is a quote, otherwise a word. */
  function ReadStringF(c: Cursor): (r: Step<string, Cursor>)
    requires Wf(c)
    ensures r.Next? ==> Moved(c, r.next) && c.pos < r.next.pos
    ensures PeekCharF(c).Next? && PeekCharF(c).value == '"' ==> r == ReadQuotedStringF(PeekCharF(c).next)
    ensures PeekCharF(c).Next? && PeekCharF(c).value != '"' ==> r == ReadWordF(PeekCharF(c).next)
    ensures PeekCharF(c).Abort? ==> r == Abort(PeekCharF(c).error)
  {
    var skipped :- SkipWhitespaceF(c, true);
    var peeked :- PeekCharF(skipped.next);
    if peeked.value == '"' then ReadQuotedStringF(peeked.next) else ReadWordF(peeked.next)
  }

  /** Reads a word and parses it as a 32-bit decimal integer. */
  function ReadIntF(c: Cursor): (r: Step<int, Cursor>)
    requires Wf(c)
    ensures r.Next? ==> Moved(c, r.next) && c.pos < r.next.pos
    ensures r.Next? ==> Numbers.MinInt <= r.value <= Numbers.MaxInt
    ensures r.Abort? && r.error.kind.ExpectedInteger? <==>
              ReadWordF(c).Next? && Numbers.ParseInt(ReadWordF(c).value).None?
    ensures r.Next? ==>
              ReadWordF(c).Next? && r.next == ReadWordF(c).next && Numbers.ParseInt(ReadWordF(c).value) == Some(r.value)
    ensures ReadWordF(c).Next? && Numbers.ParseInt(ReadWordF(c).value).Some? ==> r.Next?
    ensures ReadWordF(c).Abort? ==> r == Abort(ReadWordF(c).error)
  {
    var word :- ReadWordF(c);
    match Numbers.ParseInt(word.value)
    case Some(n) => Next(n, word.next)
    case None => Abort(Unexpected(word.next, ExpectedInteger(word.value)))
  }

  /** Reads the comments before the next token, skipping whitespace only;
      `result` is the text joined so far, `None` before the first comment. */
  function DocumentationLoopF(c: Cursor, result: Option<string>): (r: Step<string, Cursor>)
    requires Wf(c)
    ensures r.Next? ==> Moved(c, r.next)
    ensures r.Next? ==>
              r.next.pos == |c.data| || (!IsWhitespace(c.data[r.next.pos]) && c.data[r.next.pos] != '/')
    ensures r.Abort? ==> r.error.kind in CommentErrors
    decreases |c.data| - c.pos
  {
    var s := SkipWhitespaceF(c, false).next;
    if s.pos == |c.data| || c.data[s.pos] != '/' then
      Next(match result case Some(text) => text case None => "", s)
    else
      var comment :- ReadCommentF(s);
      DocumentationLoopF(comment.next,
        Some(match result case None => comment.value case Some(text) => text + "\n" + comment.value))
  }

  /** The documentation before the next token: the bodies of the comments there. */
  function ReadDocumentationF(c: Cursor): (r: Step<string, Cursor>)
    requires Wf(c)
    ensures r.Next? ==> Moved(c, r.next)
    ensures r.Next? ==>
              r.next.pos == |c.data| || (!IsWhitespace(c.data[r.next.pos]) && c.data[r.next.pos] != '/')
    ensures r.Abort? ==> r.error.kind in CommentErrors
  {
    DocumentationLoopF(c, None)
  }
}
