/** The block-comment scan exactly as the parser writes it, which advances
    first and then looks at the character it advanced to: the character right
    after the opening `/*` is never examined, and a newline elsewhere is counted
    while the cursor still stands on it. The text it reads is right; the line
    tracking is not. The rest of the model uses the corrected
    `Scanner.BlockCommentF`. */
module AsWritten {
  import opened Outcomes
  import opened Scanner

  function BlockCommentAsWritten(c: Cursor, start: nat): (r: Step<string, Cursor>)
    requires Wf(c) && start <= c.pos
    ensures r.Next? ==> r.next.data == c.data && Wf(r.next) && c.pos + 2 <= r.next.pos
    decreases |c.data| - c.pos
  {
    if c.pos + 1 < |c.data| then
      if c.data[c.pos] == '*' && c.data[c.pos + 1] == '/' then
        Next(c.data[start..c.pos], c.(pos := c.pos + 2))
      else
        var d := c.(pos := c.pos + 1);
        BlockCommentAsWritten(if c.data[d.pos] == '\n' then Newline(d) else d, start)
    else
      Abort(Unexpected(c, UnterminatedComment))
  }

  /** The as-written scan reads the same text and stops at the same place as
      the corrected one; only `line` and `lineStart` differ. */
  lemma {:induction false} SameTextAsCorrected(c: Cursor, d: Cursor, start: nat)
    requires Wf(c) && Wf(d) && start <= c.pos && d.data == c.data && d.pos == c.pos
    ensures BlockCommentAsWritten(c, start).Next? <==> BlockCommentF(d, start).Next?
    ensures BlockCommentAsWritten(c, start).Next? ==>
              BlockCommentAsWritten(c, start).value == BlockCommentF(d, start).value &&
              BlockCommentAsWritten(c, start).next.pos == BlockCommentF(d, start).next.pos
    decreases |c.data| - c.pos
  {
    if c.pos + 1 < |c.data| && !(c.data[c.pos] == '*' && c.data[c.pos + 1] == '/') {
      var c1 := c.(pos := c.pos + 1);
      SameTextAsCorrected(if c.data[c1.pos] == '\n' then Newline(c1) else c1, Advance(d), start);
    }
  }

  /** In `/*` newline `*/`, read from just after the opener with the tracking
      right, the newline is never counted: the scan ends on line 0 although a
      newline was consumed. The corrected scan ends on line 1. */
  lemma NewlineAfterOpenerIsMissed()
    ensures Tracked(Cursor("/*\n*/", 2, 0, 0))
    ensures BlockCommentAsWritten(Cursor("/*\n*/", 2, 0, 0), 2) == Next("\n", Cursor("/*\n*/", 5, 0, 0))
    ensures !Tracked(Cursor("/*\n*/", 5, 0, 0))
    ensures BlockCommentF(Cursor("/*\n*/", 2, 0, 0), 2) == Next("\n", Cursor("/*\n*/", 5, 1, 3))
  {
    var s := "/*\n*/";
    assert s[0] == '/' && s[1] == '*' && s[2] == '\n' && s[3] == '*' && s[4] == '/';
    assert Newlines(s, 5) == 1;
  }

  /** In `/*a` newline `b*/` the newline is counted while the cursor stands on
      it, so the next line is taken to start at the newline itself and every
      column on it comes out one too large. */
  lemma NewlineCountedOneEarly()
    ensures Tracked(Cursor("/*a\nb*/", 2, 0, 0))
    ensures BlockCommentAsWritten(Cursor("/*a\nb*/", 2, 0, 0), 2) == Next("a\nb", Cursor("/*a\nb*/", 7, 1, 3))
    ensures LineStartAt("/*a\nb*/", 7) == 4
  {
    var s := "/*a\nb*/";
    assert s[0] == '/' && s[1] == '*' && s[2] == 'a' && s[3] == '\n' && s[4] == 'b' && s[5] == '*' && s[6] == '/';
  }
}
