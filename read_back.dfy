/** Well-formed declarations are accepted: the text of an enum constant and of
    a field reads back as the value it spells, with the cursor just past its
    `;`. A tag may be written as any word that the 32-bit decimal parse
    accepts; `DecimalString` gives one for every 32-bit integer. A comment
    before a word is skipped like whitespace. */
module ReadBack {
  import opened Outcomes
  import opened Schema
  import opened Scanner
  import opened Grammar
  import opened Numbers
  import ScannerProperties
  import OrderedMap

  /** A non-empty run of word characters. */
  predicate IsWord(w: string)
  {
    |w| > 0 && forall i | 0 <= i < |w| :: IsWordChar(w[i])
  }

  /** Every 32-bit integer has a spelling a tag can use: its decimal spelling
      is a word, and it parses back to the integer. */
  lemma TagSpelling(n: int)
    requires MinInt <= n <= MaxInt
    ensures IsWord(DecimalString(n)) && ParseInt(DecimalString(n)) == Some(n)
  {
    var k := DecimalString(n);
    if n < 0 {
      assert forall i | 1 <= i < |k| :: k[i] == NatString(-n)[i - 1];
    }
    ParseDecimalString(n);
  }

  /** Text that follows `a` at offset `p` starts with `a`, and `b` comes after it. */
  lemma SplitAt(s: string, p: nat, a: string, b: string)
    requires p <= |s| && s[p..] == a + b
    ensures p + |a| <= |s| && s[p..p + |a|] == a && s[p + |a|..] == b
  {
    assert s[p..][..|a|] == a && s[p..][|a|..] == b;
  }

  /** A word at offset `p`, followed by a character that is not a word
      character, is read back, and the cursor moves to its end `q`. */
  lemma WordHere(c: Cursor, p: nat, q: nat, w: string, tail: string)
    requires Wf(c) && c.pos <= p <= |c.data| && q == p + |w|
    requires IsWord(w) && c.data[p..] == w + tail && tail != [] && !IsWordChar(tail[0])
    ensures ReadWordF(c.(pos := p)) == Next(w, c.(pos := q))
    ensures q <= |c.data| && c.data[q..] == tail
  {
    SplitAt(c.data, p, w, tail);
    assert c.data[q] == c.data[q..][0];
    ScannerProperties.ReadWordAt(c.(pos := p), w);
  }

  /** The same after one space. */
  lemma WordAfterSpace(c: Cursor, p: nat, q: nat, w: string, tail: string)
    requires Wf(c) && c.pos <= p <= |c.data| && q == p + 1 + |w|
    requires IsWord(w) && c.data[p..] == " " + (w + tail) && tail != [] && !IsWordChar(tail[0])
    ensures ReadWordF(c.(pos := p)) == Next(w, c.(pos := q))
    ensures q <= |c.data| && c.data[q..] == tail
  {
    SplitAt(c.data, p, " ", w + tail);
    assert c.data[p] == c.data[p..p + 1][0] == ' ';
    assert Advance(c.(pos := p)) == c.(pos := p + 1);
    WordHere(c, p + 1, q, w, tail);
    assert c.data[p + 1] == w[0];
    assert SkipWhitespaceF(c.(pos := p + 1), true) == Next((), c.(pos := p + 1));
  }

  /** A comment before a word is skipped: what is read from the comment's
      end is what is read from its start. */
  lemma WordAfterComment(c: Cursor, d: Cursor, w: string, e: Cursor)
    requires Wf(c) && c.pos < |c.data| && c.data[c.pos] == '/' && ReadCommentF(c).Next? && ReadCommentF(c).next == d
    requires d.pos < |d.data| && IsWordChar(d.data[d.pos]) && ReadWordF(d) == Next(w, e)
    ensures ReadWordF(c) == Next(w, e)
  {
    assert SkipWhitespaceF(d, true) == Next((), d);
    assert SkipWhitespaceF(c, true) == Next((), d);
  }

  /** Where a block comment before a word ends. */
  lemma BlockCommentLayout(c: Cursor, body: string, rest: string)
    requires Wf(c) && c.data[c.pos..] == "/*" + body + "*/" + rest
    requires forall i | 0 <= i < |body| - 1 :: !(body[i] == '*' && body[i + 1] == '/')
    ensures c.pos < |c.data| && c.data[c.pos] == '/' && ReadCommentF(c).Next? && ReadCommentF(c).value == body
    ensures ReadCommentF(c).next.pos == c.pos + 4 + |body| && c.data[c.pos + 4 + |body|..] == rest
  {
    SplitAt(c.data, c.pos, "/*" + body + "*/", rest);
    assert c.data[c.pos] == c.data[c.pos..][0] == '/';
    ScannerProperties.ReadBlockComment(c, body, rest);
  }

  /** A word after a block comment is read back: comments are skipped like
      whitespace. The cursor ends past the word, with the line bookkeeping the
      comment left. */
  lemma WordAfterBlockComment(c: Cursor, body: string, w: string, tail: string)
    requires Wf(c) && c.data[c.pos..] == "/*" + body + "*/" + (w + tail)
    requires forall i | 0 <= i < |body| - 1 :: !(body[i] == '*' && body[i + 1] == '/')
    requires IsWord(w) && tail != [] && !IsWordChar(tail[0])
    ensures c.data[c.pos] == '/' && ReadCommentF(c).Next? && ReadCommentF(c).value == body
    ensures ReadWordF(c) == Next(w, ReadCommentF(c).next.(pos := c.pos + 4 + |body| + |w|))
  {
    BlockCommentLayout(c, body, w + tail);
    var d := ReadCommentF(c).next;
    var q := d.pos + |w|;
    assert d.(pos := q) == ReadCommentF(c).next.(pos := c.pos + 4 + |body| + |w|);
    assert d.(pos := d.pos) == d;
    WordHere(d, d.pos, q, w, tail);
    assert d.data[d.pos] == w[0];
    WordAfterComment(c, d, w, d.(pos := q));
  }

  /** A significant character at offset `p` is the one `ExpectF` wants. */
  lemma ExpectHere(c: Cursor, p: nat, q: nat, ch: char, kind: ErrorKind, tail: string)
    requires Wf(c) && c.pos <= p <= |c.data| && q == p + 1
    requires c.data[p..] == [ch] + tail && !IsWhitespace(ch) && ch != '/'
    ensures ExpectF(c.(pos := p), ch, kind) == Next((), c.(pos := q))
    ensures q <= |c.data| && c.data[q..] == tail
  {
    SplitAt(c.data, p, [ch], tail);
    assert c.data[p] == c.data[p..p + 1][0];
  }

  /** A word that parses as `n`, at offset `p`, is read as `n`. */
  lemma IntHere(c: Cursor, p: nat, q: nat, k: string, n: int, tail: string)
    requires Wf(c) && c.pos <= p <= |c.data| && q == p + |k|
    requires IsWord(k) && ParseInt(k) == Some(n) && c.data[p..] == k + tail
    requires tail != [] && !IsWordChar(tail[0])
    ensures ReadIntF(c.(pos := p)) == Next(n, c.(pos := q))
    ensures q <= |c.data| && c.data[q..] == tail
  {
    WordHere(c, p, q, k, tail);
  }

  /** A field head whose parts are each read is read as those parts. */
  lemma FieldHeadSteps(c: Cursor, typeName: string, c1: Cursor, name: string, c2: Cursor,
                       c3: Cursor, n: int, c4: Cursor)
    requires Wf(c) && ReadWordF(c) == Next(typeName, c1) && ReadWordF(c1) == Next(name, c2)
    requires ExpectF(c2, '=', ExpectedEquals) == Next((), c3) && ReadIntF(c3) == Next(n, c4)
    ensures FieldHeadF(c) == Next((typeName, name, n), c4)
  {
  }

  /** ` type name=k` is a field head: the type, the name and the tag `k`
      spells; what follows it is left. */
  lemma FieldHeadRoundTrip(c: Cursor, typeName: string, name: string, k: string, n: int, tail: string)
    requires Wf(c) && IsWord(typeName) && IsWord(name) && IsWord(k) && ParseInt(k) == Some(n)
    requires c.data[c.pos..] == " " + (typeName + (" " + (name + ("=" + (k + tail)))))
    requires tail != [] && !IsWordChar(tail[0])
    ensures FieldHeadF(c) == Next((typeName, name, n), c.(pos := c.pos + 3 + |typeName| + |name| + |k|))
    ensures c.pos + 3 + |typeName| + |name| + |k| <= |c.data|
    ensures c.data[c.pos + 3 + |typeName| + |name| + |k|..] == tail
  {
    var p4 := c.pos + 3 + |typeName| + |name| + |k|;
    assert c.(pos := p4) == c.(pos := c.pos + 3 + |typeName| + |name| + |k|);
    assert p4 <= |c.data| && c.data[p4..] == c.data[c.pos + 3 + |typeName| + |name| + |k|..];
    var p3 := p4 - |k|;
    var p2 := p3 - 1;
    var p1 := p2 - 1 - |name|;
    var p0 := c.pos;
    assert c.(pos := p0) == c;
    WordAfterSpace(c, p0, p1, typeName, " " + (name + ("=" + (k + tail))));
    WordAfterSpace(c, p1, p2, name, "=" + (k + tail));
    ExpectHere(c, p2, p3, '=', ExpectedEquals, k + tail);
    IntHere(c, p3, p4, k, n, tail);
    FieldHeadSteps(c, typeName, c.(pos := p1), name, c.(pos := p2), c.(pos := p3), n, c.(pos := p4));
  }

  /** A field whose head is read and is followed by `;` has no options: it is
      neither deprecated nor has it a default. */
  lemma FieldSteps(c: Cursor, head: (string, string, int), h: Cursor, documentation: string, cardinality: Label)
    requires Wf(c) && FieldHeadF(c) == Next(head, h) && h.pos < |c.data| && c.data[h.pos] == ';'
    ensures ReadFieldF(c, documentation, cardinality) ==
              Next(Field(cardinality, head.0, head.1, head.2, None, false, documentation), h.(pos := h.pos + 1))
  {
    assert PeekCharF(h) == Next(';', h);
    assert FieldOptionsF(h) == Next([], h);
    assert OrderedMap.Get([], "default") == None && !Deprecated([]);
    assert Advance(h) == h.(pos := h.pos + 1);
  }

  /** ` type name=k;` after a label is the field `name` of type `type` with
      the tag `k` spells, not deprecated and without a default. */
  lemma FieldRoundTrip(c: Cursor, typeName: string, name: string, k: string, n: int, rest: string,
                       documentation: string, cardinality: Label)
    requires Wf(c) && IsWord(typeName) && IsWord(name) && IsWord(k) && ParseInt(k) == Some(n)
    requires c.data[c.pos..] == " " + (typeName + (" " + (name + ("=" + (k + (";" + rest))))))
    ensures ReadFieldF(c, documentation, cardinality) ==
              Next(Field(cardinality, typeName, name, n, None, false, documentation),
                   c.(pos := c.pos + 4 + |typeName| + |name| + |k|))
  {
    var p := c.pos + 3 + |typeName| + |name| + |k|;
    var h := c.(pos := p);
    assert h == c.(pos := c.pos + 3 + |typeName| + |name| + |k|);
    assert h.(pos := h.pos + 1) == c.(pos := c.pos + 4 + |typeName| + |name| + |k|);
    FieldHeadRoundTrip(c, typeName, name, k, n, ";" + rest);
    assert c.data[p] == c.data[p..][0];
    FieldSteps(c, (typeName, name, n), h, documentation, cardinality);
  }

  /** An enum constant whose parts are each read is read as those parts. */
  lemma EnumValueSteps(c: Cursor, name: string, c1: Cursor, c2: Cursor, n: int, c3: Cursor, c4: Cursor,
                       documentation: string)
    requires Wf(c) && ReadWordF(c) == Next(name, c1) && ExpectF(c1, '=', ExpectedEquals) == Next((), c2)
    requires ReadIntF(c2) == Next(n, c3) && ExpectF(c3, ';', ExpectedSemicolon) == Next((), c4)
    ensures ReadEnumValueF(c, documentation) == Next(EnumValue(name, n, documentation), c4)
  {
  }

  /** Where the parts of `name=k;` are read. */
  lemma EnumValueLayout(c: Cursor, p1: nat, p2: nat, p3: nat, p4: nat, name: string, k: string, n: int, rest: string)
    requires Wf(c) && IsWord(name) && IsWord(k) && ParseInt(k) == Some(n)
    requires c.data[c.pos..] == name + ("=" + (k + (";" + rest)))
    requires p1 == c.pos + |name| && p2 == p1 + 1 && p3 == p2 + |k| && p4 == p3 + 1
    ensures ReadWordF(c) == Next(name, c.(pos := p1))
    ensures ExpectF(c.(pos := p1), '=', ExpectedEquals) == Next((), c.(pos := p2))
    ensures ReadIntF(c.(pos := p2)) == Next(n, c.(pos := p3))
    ensures ExpectF(c.(pos := p3), ';', ExpectedSemicolon) == Next((), c.(pos := p4))
  {
    assert c.(pos := c.pos) == c;
    WordHere(c, c.pos, p1, name, "=" + (k + (";" + rest)));
    ExpectHere(c, p1, p2, '=', ExpectedEquals, k + (";" + rest));
    IntHere(c, p2, p3, k, n, ";" + rest);
    ExpectHere(c, p3, p4, ';', ExpectedSemicolon, rest);
  }

  /** `name=k;` is the enum constant `name` with the tag `k` spells. */
  lemma EnumValueRoundTrip(c: Cursor, name: string, k: string, n: int, rest: string, documentation: string)
    requires Wf(c) && IsWord(name) && IsWord(k) && ParseInt(k) == Some(n)
    requires c.data[c.pos..] == name + ("=" + (k + (";" + rest)))
    ensures ReadEnumValueF(c, documentation) ==
              Next(EnumValue(name, n, documentation), c.(pos := c.pos + 2 + |name| + |k|))
  {
    var p4 := c.pos + 2 + |name| + |k|;
    assert c.(pos := p4) == c.(pos := c.pos + 2 + |name| + |k|);
    var p3 := p4 - 1;
    var p2 := p3 - |k|;
    var p1 := p2 - 1;
    EnumValueLayout(c, p1, p2, p3, p4, name, k, n, rest);
    EnumValueSteps(c, name, c.(pos := p1), c.(pos := p2), n, c.(pos := p3), c.(pos := p4), documentation);
  }
}
