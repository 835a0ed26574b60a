/** What the character-level readers promise: words and quoted strings read back
    what was written, comment bodies are the text between their markers, and
    documentation is the comment bodies joined by newlines. */
module ScannerProperties {
  import opened Outcomes
  import opened Scanner

  /** A maximal run of word characters under the cursor is read back exactly,
      and the cursor ends just past it. */
  lemma ReadWordAt(c: Cursor, w: string)
    requires Wf(c) && |w| > 0 && c.pos + |w| <= |c.data| && c.data[c.pos..c.pos + |w|] == w
    requires forall i | 0 <= i < |w| :: IsWordChar(w[i])
    requires c.pos + |w| == |c.data| || !IsWordChar(c.data[c.pos + |w|])
    ensures ReadWordF(c) == Next(w, c.(pos := c.pos + |w|))
  {
    assert c.data[c.pos] == w[0];
    assert forall k | c.pos <= k < c.pos + |w| :: IsWordChar(c.data[k]) by {
      forall k | c.pos <= k < c.pos + |w|
        ensures IsWordChar(c.data[k])
      {
        assert c.data[k] == w[k - c.pos];
      }
    }
  }

  /** A string written the way a quoted string reads it back: a backslash before
      every quote and every backslash. */
  function Escape(s: string): (e: string)
    ensures |s| <= |e|
  {
    if s == [] then []
    else (if s[0] == '"' || s[0] == '\\' then ['\\', s[0]] else [s[0]]) + Escape(s[1..])
  }

  /** Reading the encoding of the first character of `s` appends that character. */
  lemma EscapeStep(c: Cursor, acc: string, s: string, t: string) returns (d: Cursor)
    requires Wf(c) && s != [] && c.data[c.pos..] == Escape(s) + t
    ensures Wf(d) && d.data == c.data && c.pos < d.pos && c.data[d.pos..] == Escape(s[1..]) + t
    ensures d.pos + |Escape(s[1..])| == c.pos + |Escape(s)|
    ensures QuotedBodyF(c, acc) == QuotedBodyF(d, acc + [s[0]])
  {
    EscapeFirst(s, t);
    if s[0] == '"' || s[0] == '\\' {
      d := EscapedStep(c, acc, s, t);
    } else {
      d := PlainStep(c, acc, s, t);
    }
  }

  /** The encoding of `s` followed by `t` starts with the encoding of `s[0]`. */
  lemma EscapeFirst(s: string, t: string)
    requires s != []
    ensures Escape(s) + t ==
              (if s[0] == '"' || s[0] == '\\' then ['\\', s[0]] else [s[0]]) + (Escape(s[1..]) + t)
  {
    var first := if s[0] == '"' || s[0] == '\\' then ['\\', s[0]] else [s[0]];
    assert Escape(s) == first + Escape(s[1..]);
    Associative(first, Escape(s[1..]), t);
  }

  lemma Associative<T>(a: seq<T>, b: seq<T>, c: seq<T>)
    ensures (a + b) + c == a + (b + c)
  {
  }

  lemma EscapedStep(c: Cursor, acc: string, s: string, t: string) returns (d: Cursor)
    requires Wf(c) && s != [] && (s[0] == '"' || s[0] == '\\')
    requires c.data[c.pos..] == ['\\', s[0]] + (Escape(s[1..]) + t)
    ensures Wf(d) && d.data == c.data && d.pos == c.pos + 2 && c.data[d.pos..] == Escape(s[1..]) + t
    ensures QuotedBodyF(c, acc) == QuotedBodyF(d, acc + [s[0]])
  {
    var tail := c.data[c.pos..];
    assert c.data[c.pos] == tail[0] == '\\' && c.data[c.pos + 1] == tail[1] == s[0];
    d := Advance(c.(pos := c.pos + 1));
    assert c.data[d.pos..] == tail[2..];
  }

  lemma PlainStep(c: Cursor, acc: string, s: string, t: string) returns (d: Cursor)
    requires Wf(c) && s != [] && s[0] != '"' && s[0] != '\\'
    requires c.data[c.pos..] == [s[0]] + (Escape(s[1..]) + t)
    ensures Wf(d) && d.data == c.data && d.pos == c.pos + 1 && c.data[d.pos..] == Escape(s[1..]) + t
    ensures QuotedBodyF(c, acc) == QuotedBodyF(d, acc + [s[0]])
  {
    var tail := c.data[c.pos..];
    assert c.data[c.pos] == tail[0] == s[0];
    d := Advance(c);
    assert c.data[d.pos..] == tail[1..];
  }

  lemma AppendFirst(acc: string, s: string)
    requires s != []
    ensures acc + [s[0]] + s[1..] == acc + s
  {
  }

  lemma {:induction false} QuotedBodyRoundTrip(c: Cursor, acc: string, s: string, t: string)
    requires Wf(c) && c.data[c.pos..] == Escape(s) + t && t != [] && t[0] == '"'
    ensures QuotedBodyF(c, acc).Next?
    ensures QuotedBodyF(c, acc).value == acc + s
    ensures QuotedBodyF(c, acc).next.pos == c.pos + |Escape(s)| + 1
    decreases s
  {
    if s == [] {
      assert c.data[c.pos..][0] == '"';
      assert QuotedBodyF(c, acc) == Next(acc, c.(pos := c.pos + 1));
    } else {
      var d := EscapeStep(c, acc, s, t);
      QuotedBodyRoundTrip(d, acc + [s[0]], s[1..], t);
      AppendFirst(acc, s);
    }
  }

  /** A quoted string reads back the string it was written from, and the cursor
      ends just past the closing quote. */
  lemma ReadQuotedStringRoundTrip(c: Cursor, s: string, rest: string)
    requires Wf(c) && c.data[c.pos..] == "\"" + Escape(s) + "\"" + rest
    ensures ReadQuotedStringF(c).Next?
    ensures ReadQuotedStringF(c).value == s
    ensures ReadQuotedStringF(c).next.pos == c.pos + |Escape(s)| + 2
  {
    var tail := c.data[c.pos..];
    assert tail[0] == c.data[c.pos] == '"';
    var c1 := c.(pos := c.pos + 1);
    assert c.data[c1.pos..] == tail[1..] == Escape(s) + ("\"" + rest);
    QuotedBodyRoundTrip(c1, "", s, "\"" + rest);
  }


  /** The text between the quotes of a quoted string as it may be written: no
      quote except right after a backslash, and no backslash at its very end. */
  predicate IsQuotedBody(b: string)
    decreases |b|
  {
    if b == [] then true
    else if b[0] == '"' then false
    else if b[0] == '\\' then |b| >= 2 && IsQuotedBody(b[2..])
    else IsQuotedBody(b[1..])
  }

  /** What a quoted body stands for: each backslash is dropped and the
      character after it, whatever it is, kept as it is. */
  function Unescape(b: string): (s: string)
    requires IsQuotedBody(b)
    ensures |s| <= |b|
    decreases |b|
  {
    if b == [] then []
    else if b[0] == '\\' then [b[1]] + Unescape(b[2..])
    else [b[0]] + Unescape(b[1..])
  }

  /** Reading a quoted body appends what it stands for, and stops just past
      the quote that follows it. */
  lemma {:induction false} QuotedBodyUnescapes(c: Cursor, acc: string, b: string, t: string)
    requires Wf(c) && IsQuotedBody(b) && c.data[c.pos..] == b + t && t != [] && t[0] == '"'
    ensures QuotedBodyF(c, acc).Next?
    ensures QuotedBodyF(c, acc).value == acc + Unescape(b)
    ensures QuotedBodyF(c, acc).next.pos == c.pos + |b| + 1
    decreases |b|
  {
    if b == [] {
      assert c.data[c.pos] == c.data[c.pos..][0];
      QuotedBodyCloses(c, acc);
    } else if b[0] == '\\' {
      var d := UnescapeEscaped(c, acc, b, t);
      QuotedBodyUnescapes(d, acc + [b[1]], b[2..], t);
      Associative(acc, [b[1]], Unescape(b[2..]));
    } else {
      var d := UnescapePlain(c, acc, b, t);
      QuotedBodyUnescapes(d, acc + [b[0]], b[1..], t);
      Associative(acc, [b[0]], Unescape(b[1..]));
    }
  }

  lemma UnescapeEscaped(c: Cursor, acc: string, b: string, t: string) returns (d: Cursor)
    requires Wf(c) && |b| >= 2 && b[0] == '\\' && c.data[c.pos..] == b + t
    ensures Wf(d) && d.data == c.data && d.pos == c.pos + 2 && c.data[d.pos..] == b[2..] + t
    ensures QuotedBodyF(c, acc) == QuotedBodyF(d, acc + [b[1]])
  {
    var tail := c.data[c.pos..];
    assert c.data[c.pos] == tail[0] == '\\' && c.data[c.pos + 1] == tail[1] == b[1];
    QuotedBodyEscape(c, acc);
    d := Advance(c.(pos := c.pos + 1));
    assert c.data[d.pos..] == tail[2..];
  }

  lemma UnescapePlain(c: Cursor, acc: string, b: string, t: string) returns (d: Cursor)
    requires Wf(c) && b != [] && b[0] != '"' && b[0] != '\\' && c.data[c.pos..] == b + t
    ensures Wf(d) && d.data == c.data && d.pos == c.pos + 1 && c.data[d.pos..] == b[1..] + t
    ensures QuotedBodyF(c, acc) == QuotedBodyF(d, acc + [b[0]])
  {
    var tail := c.data[c.pos..];
    assert c.data[c.pos] == tail[0] == b[0];
    QuotedBodyPlain(c, acc);
    d := Advance(c);
    assert c.data[d.pos..] == tail[1..];
  }

  /** A quoted string reads as what its body stands for, and the cursor ends
      just past the closing quote. */
  lemma ReadQuotedStringUnescapes(c: Cursor, b: string, rest: string)
    requires Wf(c) && IsQuotedBody(b) && c.data[c.pos..] == "\"" + b + "\"" + rest
    ensures ReadQuotedStringF(c).Next?
    ensures ReadQuotedStringF(c).value == Unescape(b)
    ensures ReadQuotedStringF(c).next.pos == c.pos + |b| + 2
  {
    var inner := b + ("\"" + rest);
    Associative("\"" + b, "\"", rest);
    Associative("\"", b, "\"" + rest);
    assert c.data[c.pos..] == "\"" + inner;
    assert c.data[c.pos] == c.data[c.pos..][0] == '"';
    var c1 := OpeningQuote(c);
    assert c.data[c1.pos..] == c.data[c.pos..][1..] == inner;
    QuotedBodyUnescapes(c1, "", b, "\"" + rest);
  }

  /** A quoted string is its body read after the opening quote. */
  lemma OpeningQuote(c: Cursor) returns (c1: Cursor)
    requires Wf(c) && c.pos < |c.data| && c.data[c.pos] == '"'
    ensures c1 == c.(pos := c.pos + 1) && Wf(c1)
    ensures ReadQuotedStringF(c) == QuotedBodyF(c1, "")
  {
    c1 := c.(pos := c.pos + 1);
    assert ReadCharF(c) == Next('"', c1);
  }

  /** `Escape` writes a quoted body, and that body stands for the string
      it was written from. */
  lemma {:induction false} UnescapeEscape(s: string)
    ensures IsQuotedBody(Escape(s)) && Unescape(Escape(s)) == s
    decreases s
  {
    if s != [] {
      UnescapeEscape(s[1..]);
      var first := if s[0] == '"' || s[0] == '\\' then ['\\', s[0]] else [s[0]];
      assert Escape(s) == first + Escape(s[1..]);
      if s[0] == '"' || s[0] == '\\' {
        assert Escape(s)[2..] == Escape(s[1..]);
      } else {
        assert Escape(s)[1..] == Escape(s[1..]);
      }
    }
  }
  /** A quoted string that is read ends just past a quote, the closing one. */
  lemma {:induction false} QuotedBodyEndsAtQuote(c: Cursor, acc: string)
    requires Wf(c) && QuotedBodyF(c, acc).Next?
    ensures c.data[QuotedBodyF(c, acc).next.pos - 1] == '"'
    decreases |c.data| - c.pos
  {
    var ch := c.data[c.pos];
    if ch == '\\' {
      QuotedBodyEndsAtQuote(Advance(c.(pos := c.pos + 1)), acc + [c.data[c.pos + 1]]);
    } else if ch != '"' {
      QuotedBodyEndsAtQuote(Advance(c), acc + [ch]);
    }
  }

  lemma ReadQuotedStringEndsAtQuote(c: Cursor)
    requires Wf(c) && c.pos < |c.data| && c.data[c.pos] == '"' && ReadQuotedStringF(c).Next?
    ensures c.data[ReadQuotedStringF(c).next.pos - 1] == '"'
  {
    QuotedBodyEndsAtQuote(ReadCharF(c).next, "");
  }

  /** The characters read so far stay at the front of the string. */
  lemma {:induction false} QuotedBodyKeepsPrefix(c: Cursor, acc: string)
    requires Wf(c) && QuotedBodyF(c, acc).Next?
    ensures acc <= QuotedBodyF(c, acc).value
    decreases |c.data| - c.pos
  {
    if c.pos < |c.data| && c.data[c.pos] != '"' {
      var c1 := c.(pos := c.pos + 1);
      if c.data[c.pos] == '\\' {
        QuotedBodyKeepsPrefix(Advance(c1), acc + [c.data[c1.pos]]);
      } else {
        QuotedBodyKeepsPrefix(Advance(c), acc + [c.data[c.pos]]);
      }
    }
  }

  /** Input that ends inside a quoted string is an unterminated string: the
      rest of the input is a body with no closing quote. */
  lemma {:induction false} QuotedBodyUnterminated(c: Cursor, acc: string, b: string)
    requires Wf(c) && IsQuotedBody(b) && c.data[c.pos..] == b
    ensures QuotedBodyF(c, acc).Abort? && QuotedBodyF(c, acc).error.kind == UnterminatedString
    decreases |b|
  {
    assert b + [] == b;
    if b == [] {
      assert c.pos == |c.data|;
    } else if b[0] == '\\' {
      var d := UnescapeEscaped(c, acc, b, []);
      assert b[2..] + [] == b[2..];
      QuotedBodyUnterminated(d, acc + [b[1]], b[2..]);
    } else {
      var d := UnescapePlain(c, acc, b, []);
      assert b[1..] + [] == b[1..];
      QuotedBodyUnterminated(d, acc + [b[0]], b[1..]);
    }
  }

  /** Input that ends right after an escaping backslash is an unexpected end
      of file: the rest of the input is a body followed by one backslash. */
  lemma {:induction false} QuotedBodyTrailingBackslash(c: Cursor, acc: string, b: string)
    requires Wf(c) && IsQuotedBody(b) && c.data[c.pos..] == b + "\\"
    ensures QuotedBodyF(c, acc).Abort? && QuotedBodyF(c, acc).error.kind == UnexpectedEndOfFile
    decreases |b|
  {
    if b == [] {
      assert c.data[c.pos] == c.data[c.pos..][0] == '\\' && c.pos + 1 == |c.data|;
    } else if b[0] == '\\' {
      var d := UnescapeEscaped(c, acc, b, "\\");
      QuotedBodyTrailingBackslash(d, acc + [b[1]], b[2..]);
    } else {
      var d := UnescapePlain(c, acc, b, "\\");
      QuotedBodyTrailingBackslash(d, acc + [b[0]], b[1..]);
    }
  }

  /** A quoted string whose closing quote never comes is "unterminated
      string", and one whose input ends on an escaping backslash is
      "unexpected end of file". */
  lemma ReadQuotedStringUnterminated(c: Cursor, b: string)
    requires Wf(c) && IsQuotedBody(b) && (c.data[c.pos..] == "\"" + b || c.data[c.pos..] == "\"" + b + "\\")
    ensures ReadQuotedStringF(c).Abort?
    ensures ReadQuotedStringF(c).error.kind ==
              if c.data[c.pos..] == "\"" + b then UnterminatedString else UnexpectedEndOfFile
  {
    assert c.data[c.pos] == c.data[c.pos..][0] == '"';
    var c1 := OpeningQuote(c);
    if c.data[c.pos..] == "\"" + b {
      assert c.data[c1.pos..] == c.data[c.pos..][1..] == b;
      QuotedBodyUnterminated(c1, "", b);
    } else {
      Associative("\"", b, "\\");
      assert c.data[c1.pos..] == c.data[c.pos..][1..] == b + "\\";
      QuotedBodyTrailingBackslash(c1, "", b);
    }
  }

  /** A block comment's body is exactly the text between its markers. */
  lemma ReadBlockComment(c: Cursor, body: string, rest: string)
    requires Wf(c) && c.data[c.pos..] == "/*" + body + "*/" + rest
    requires forall i | 0 <= i < |body| - 1 :: !(body[i] == '*' && body[i + 1] == '/')
    ensures ReadCommentF(c).Next?
    ensures ReadCommentF(c).value == body
    ensures ReadCommentF(c).next.pos == c.pos + |body| + 4
  {
    BlockCommentLayout(c, body, rest);
    ReadCommentBlockCase(c);
    BlockCommentOf(c.(pos := c.pos + 2), c.pos + 2, c.pos + 2 + |body|);
  }

  /** Where the parts of `/*` body `*/` lie in the input. */
  lemma BlockCommentLayout(c: Cursor, body: string, rest: string)
    requires Wf(c) && c.data[c.pos..] == "/*" + body + "*/" + rest
    requires forall i | 0 <= i < |body| - 1 :: !(body[i] == '*' && body[i + 1] == '/')
    ensures c.pos + |body| + 4 <= |c.data|
    ensures c.data[c.pos] == '/' && c.data[c.pos + 1] == '*'
    ensures c.data[c.pos + 2..c.pos + 2 + |body|] == body
    ensures ClosesAt(c.data, c.pos + 2 + |body|)
    ensures forall i | c.pos + 2 <= i < c.pos + 2 + |body| :: !ClosesAt(c.data, i)
  {
    var tail := c.data[c.pos..];
    assert c.data[c.pos] == tail[0] == '/' && c.data[c.pos + 1] == tail[1] == '*';
    var start := c.pos + 2;
    var close := start + |body|;
    assert c.data[start..close] == body by {
      assert tail[2..2 + |body|] == body;
    }
    assert ClosesAt(c.data, close) by {
      assert tail[2 + |body|] == '*' && tail[3 + |body|] == '/';
    }
    forall i | start <= i < close
      ensures !ClosesAt(c.data, i)
    {
      if i + 1 < close {
        var b := c.data[start..close];
        assert b[i - start] == c.data[i] && b[i + 1 - start] == c.data[i + 1];
      } else {
        assert c.data[i + 1] == tail[2 + |body|];
      }
    }
  }

  // A block comment whose first closing marker is at `close` ends just past
  // it, with the text from `start` up to the marker as its body.
  lemma BlockCommentOf(c: Cursor, start: nat, close: nat)
    requires Wf(c) && start <= c.pos <= close && ClosesAt(c.data, close)
    requires forall i | c.pos <= i < close :: !ClosesAt(c.data, i)
    ensures BlockCommentF(c, start).Next?
    ensures BlockCommentF(c, start).next.pos == close + 2
    ensures BlockCommentF(c, start).value == c.data[start..close]
  {
    BlockCommentUnterminated(c, start);
    BlockCommentFirstCloser(c, start);
  }

  /** `/** doc */` documents with `* doc `: the second star belongs to the body. */
  lemma DocCommentBody(c: Cursor, rest: string)
    requires Wf(c) && c.data[c.pos..] == "/** doc */" + rest
    ensures ReadCommentF(c).Next? && ReadCommentF(c).value == "* doc "
  {
    assert "/** doc */" + rest == "/*" + "* doc " + "*/" + rest;
    ReadBlockComment(c, "* doc ", rest);
  }

  /** A line comment ended by a newline has the text before that newline as its body. */
  lemma ReadLineComment(c: Cursor, text: string, rest: string)
    requires Wf(c) && c.data[c.pos..] == "//" + text + "\n" + rest
    requires forall i | 0 <= i < |text| :: text[i] != '\n'
    ensures ReadCommentF(c).Next?
    ensures ReadCommentF(c).value == text
    ensures ReadCommentF(c).next.pos == c.pos + |text| + 3
  {
    var tail := c.data[c.pos..];
    assert c.data[c.pos] == tail[0] == '/' && c.data[c.pos + 1] == tail[1] == '/';
    var start := c.pos + 2;
    assert c.data[start..start + |text|] == text by {
      assert tail[2..2 + |text|] == text;
    }
    assert c.data[start + |text|] == tail[2 + |text|] == '\n';
    assert forall i | start <= i < start + |text| :: c.data[i] != '\n' by {
      forall i | start <= i < start + |text|
        ensures c.data[i] != '\n'
      {
        assert c.data[i] == text[i - start];
      }
    }
  }

  /** A line comment that runs to the end of the input without a newline loses
      its last character. */
  lemma LineCommentAtEndOfInput(c: Cursor, text: string)
    requires Wf(c) && c.data[c.pos..] == "//" + text && |text| > 0
    requires forall i | 0 <= i < |text| :: text[i] != '\n'
    ensures ReadCommentF(c).Next?
    ensures ReadCommentF(c).value == text[..|text| - 1]
    ensures ReadCommentF(c).next.pos == |c.data|
  {
    var start := c.pos + 2;
    assert c.data[c.pos] == '/' && c.data[c.pos + 1] == '/' && c.data[start..] == text by {
      var tail := c.data[c.pos..];
      assert c.data[c.pos] == tail[0] && c.data[c.pos + 1] == tail[1];
      assert tail[2..] == text;
    }
    ReadCommentLineCase(c);
    var d := LineCommentEnd(c.(pos := start));
    assert forall i | start <= i < |c.data| :: c.data[i] != '\n' by {
      forall i | start <= i < |c.data|
        ensures c.data[i] != '\n'
      {
        assert c.data[i] == text[i - start];
      }
    }
    assert d.pos == |c.data|;
    assert c.data[start..|c.data| - 1] == text[..|text| - 1];
  }

  /** The bodies of the comments before the next token, in order: an
      independent definition of what documentation collects. */
  function CommentBodies(c: Cursor): (r: Step<seq<string>, Cursor>)
    requires Wf(c)
    ensures r.Next? ==> Moved(c, r.next)
    decreases |c.data| - c.pos
  {
    var s := SkipWhitespaceF(c, false).next;
    if s.pos == |c.data| || c.data[s.pos] != '/' then
      Next([], s)
    else
      var comment :- ReadCommentF(s);
      var more :- CommentBodies(comment.next);
      Next([comment.value] + more.value, more.next)
  }

  /** The strings of `parts` separated by single newlines. */
  function JoinLines(parts: seq<string>): string
  {
    if |parts| == 0 then ""
    else if |parts| == 1 then parts[0]
    else parts[0] + "\n" + JoinLines(parts[1..])
  }

  lemma JoinLinesFirst(x: string, y: string, rest: seq<string>)
    ensures JoinLines([x + "\n" + y] + rest) == x + "\n" + JoinLines([y] + rest)
  {
    if rest != [] {
      assert ([x + "\n" + y] + rest)[1..] == rest;
      assert ([y] + rest)[1..] == rest;
    }
  }

  function Prefix(result: Option<string>): seq<string>
  {
    match result
    case None => []
    case Some(text) => [text]
  }

  lemma {:induction false} DocumentationLoopJoins(c: Cursor, result: Option<string>)
    requires Wf(c)
    ensures DocumentationLoopF(c, result) ==
              match CommentBodies(c)
              case Abort(e) => Abort(e)
              case Next(parts, d) => Next(JoinLines(Prefix(result) + parts), d)
    decreases |c.data| - c.pos
  {
    var s := SkipWhitespaceF(c, false).next;
    if s.pos == |c.data| || c.data[s.pos] != '/' {
      assert Prefix(result) + [] == Prefix(result);
    } else {
      var comment := ReadCommentF(s);
      if comment.Next? {
        var joined := match result case None => comment.value case Some(text) => text + "\n" + comment.value;
        DocumentationLoopJoins(comment.next, Some(joined));
        var more := CommentBodies(comment.next);
        if more.Next? {
          match result
          case None =>
            assert Prefix(result) + ([comment.value] + more.value) == [joined] + more.value;
          case Some(text) =>
            JoinLinesFirst(text, comment.value, more.value);
            assert Prefix(result) + ([comment.value] + more.value) == [text] + ([comment.value] + more.value);
            assert ([text] + ([comment.value] + more.value))[1..] == [comment.value] + more.value;
        }
      }
    }
  }

  /** Documentation is the bodies of the comments before the next token, in the
      order they appear, joined by single newlines; with no comment it is empty. */
  lemma ReadDocumentationJoins(c: Cursor)
    requires Wf(c)
    ensures ReadDocumentationF(c) ==
              match CommentBodies(c)
              case Abort(e) => Abort(e)
              case Next(parts, d) => Next(JoinLines(parts), d)
  {
    DocumentationLoopJoins(c, None);
    var bodies := CommentBodies(c);
    if bodies.Next? {
      assert Prefix(None) + bodies.value == bodies.value;
    }
  }
}
