/**
 Reading a header block back: the name, the file name and the further lines of a part.
 */
module MultipartHeaders {
  import opened Text
  import opened Percent
  import opened Multipart
  import opened MultipartStream

  // ----- file names -----

  predicate IsSpecial(c: char) {
    c in {'\\', '\"', '\r', '\n'}
  }

  /** Puts a backslash before every special byte, in one pass. */
  function Escape(name: string): string {
    if name == "" then ""
    else (if IsSpecial(name[0]) then ['\\', name[0]] else [name[0]]) + Escape(name[1..])
  }

  lemma {:induction false} ReplaceJoins(a: string, b: string, c: char, with: string)
    ensures Replace(a + b, c, with) == Replace(a, c, with) + Replace(b, c, with)
  {
    if a == "" {
      assert a + b == b;
    } else {
      assert (a + b)[1..] == a[1..] + b;
      ReplaceJoins(a[1..], b, c, with);
      Associative(if a[0] == c then with else [a[0]], Replace(a[1..], c, with), Replace(b, c, with));
    }
  }

  lemma LegalJoins(a: string, b: string)
    ensures LegalFileName(a + b) == LegalFileName(a) + LegalFileName(b)
  {
    ReplaceJoins(a, b, '\\', "\\\\");
    var a1, b1 := Replace(a, '\\', "\\\\"), Replace(b, '\\', "\\\\");
    ReplaceJoins(a1, b1, '\"', "\\\"");
    var a2, b2 := Replace(a1, '\"', "\\\""), Replace(b1, '\"', "\\\"");
    ReplaceJoins(a2, b2, '\r', "\\\r");
    ReplaceJoins(Replace(a2, '\r', "\\\r"), Replace(b2, '\r', "\\\r"), '\n', "\\\n");
  }

  lemma ReplaceOne(x: char, c: char, with: string)
    ensures Replace([x], c, with) == if x == c then with else [x]
  {
    assert Replace([x][1..], c, with) == "";
  }

  lemma ReplaceTwo(x: char, y: char, c: char, with: string)
    requires x != c && y != c
    ensures Replace([x, y], c, with) == [x, y]
  {
    assert [x, y] == [x] + [y];
    ReplaceJoins([x], [y], c, with);
    ReplaceOne(x, c, with);
    ReplaceOne(y, c, with);
  }

  lemma LegalOne(x: char)
    ensures LegalFileName([x]) == if IsSpecial(x) then ['\\', x] else [x]
  {
    ReplaceOne(x, '\\', "\\\\");
    ReplaceOne(x, '\"', "\\\"");
    ReplaceOne(x, '\r', "\\\r");
    ReplaceOne(x, '\n', "\\\n");
    if x == '\\' {
      ReplaceTwo('\\', '\\', '\"', "\\\"");
      ReplaceTwo('\\', '\\', '\r', "\\\r");
      ReplaceTwo('\\', '\\', '\n', "\\\n");
    } else if x == '\"' {
      ReplaceTwo('\\', '\"', '\r', "\\\r");
      ReplaceTwo('\\', '\"', '\n', "\\\n");
    } else if x == '\r' {
      ReplaceTwo('\\', '\r', '\n', "\\\n");
    }
  }

  /** The four chained replacements are one pass of escaping. */
  lemma {:induction false} ReplacementsAreEscape(name: string)
    ensures LegalFileName(name) == Escape(name)
  {
    if name != "" {
      assert name == [name[0]] + name[1..];
      LegalJoins([name[0]], name[1..]);
      LegalOne(name[0]);
      ReplacementsAreEscape(name[1..]);
    }
  }

  /** Reads a quoted text up to its closing quote. */
  function Unquote(s: string): Option<(string, string)> {
    if s == "" then None
    else if s[0] == '\"' then Some(("", s[1..]))
    else if s[0] == '\\' then
      if |s| < 2 then None
      else
        var rest := Unquote(s[2..]);
        if rest.None? then None else Some(([s[1]] + rest.value.0, rest.value.1))
    else
      var rest := Unquote(s[1..]);
      if rest.None? then None else Some(([s[0]] + rest.value.0, rest.value.1))
  }

  lemma {:induction false} UnquoteUndoesEscape(name: string, rest: string)
    ensures Unquote(Escape(name) + "\"" + rest) == Some((name, rest))
  {
    var s := Escape(name) + "\"" + rest;
    if name == "" {
      assert s[1..] == rest;
    } else {
      var tail := Escape(name[1..]) + "\"" + rest;
      UnquoteUndoesEscape(name[1..], rest);
      if IsSpecial(name[0]) {
        assert s[2..] == tail && s[0] == '\\' && s[1] == name[0];
      } else {
        assert s[1..] == tail && s[0] == name[0];
      }
      assert name == [name[0]] + name[1..];
    }
  }

  // ----- no blank line -----

  /** Every line break inside is followed by a byte that starts a line, so no blank line starts anywhere. */
  predicate LinesAreFilled(s: string) {
    forall i | 0 <= i < |s| - 1 && s[i] == '\r' && s[i + 1] == '\n' :: i + 2 < |s| && s[i + 2] != '\r'
  }

  predicate HasNoLineBreak(s: string) {
    forall i | 0 <= i < |s| - 1 :: !(s[i] == '\r' && s[i + 1] == '\n')
  }

  lemma FilledIsClosed(s: string)
    requires LinesAreFilled(s)
    ensures IsClosed(s)
  {
    var t := s + BLANK;
    forall i | 0 <= i < |s| ensures !OccursAt(BLANK, t, i) {
      var w := t[i..i + 4];
      assert w[0] == t[i] == s[i] && w[1] == t[i + 1] && w[2] == t[i + 2];
      assert BLANK[0] == BLANK[2] == '\r' && BLANK[1] == '\n';
      assert i == |s| - 1 ==> t[i + 1] == '\r';
      assert i < |s| - 1 ==> t[i + 1] == s[i + 1];
      assert i < |s| - 2 ==> t[i + 2] == s[i + 2];
    }
  }

  lemma {:induction false} EscapeHasNoLineBreak(name: string)
    ensures HasNoLineBreak(Escape(name)) && (Escape(name) != "" ==> Escape(name)[0] != '\n')
  {
    if name != "" {
      EscapeHasNoLineBreak(name[1..]);
      var front, back := if IsSpecial(name[0]) then ['\\', name[0]] else [name[0]], Escape(name[1..]);
      NoLineBreakJoins(front, back);
    }
  }

  lemma NoLineBreakJoins(a: string, b: string)
    requires HasNoLineBreak(a) && HasNoLineBreak(b) && (b != "" ==> b[0] != '\n')
    ensures HasNoLineBreak(a + b)
  {
    var s := a + b;
    forall i | 0 <= i < |s| - 1 ensures !(s[i] == '\r' && s[i + 1] == '\n') {
      if i + 1 < |a| {
        assert s[i] == a[i] && s[i + 1] == a[i + 1];
      } else if i >= |a| {
        assert s[i] == b[i - |a|] && s[i + 1] == b[i + 1 - |a|];
      } else {
        assert s[i + 1] == b[0];
      }
    }
  }

  lemma FilledGrows(s: string, line: string)
    requires LinesAreFilled(s) && IsLine(line)
    ensures LinesAreFilled(s + (CRLF + line))
  {
    var t := s + (CRLF + line);
    assert t[|s|] == '\r' && t[|s| + 1] == '\n' && t[|s| + 2] == line[0];
    assert forall i | 0 <= i < |s| :: t[i] == s[i];
    assert forall i | |s| + 2 <= i < |t| :: t[i] == line[i - |s| - 2];
  }

  predicate IsLine(s: string) {
    s != "" && '\r' !in s
  }

  predicate AreLines(lines: seq<string>) {
    forall i | 0 <= i < |lines| :: IsLine(lines[i])
  }

  lemma {:induction false} FilledWithLines(s: string, lines: seq<string>)
    requires LinesAreFilled(s) && AreLines(lines)
    ensures LinesAreFilled(s + LinesText(lines))
  {
    if lines == [] {
      assert s + "" == s;
    } else {
      var n := |lines| - 1;
      FilledWithLines(s, lines[..n]);
      assert IsLine(lines[n]);
      FilledGrows(s + LinesText(lines[..n]), lines[n]);
      Associative(s, LinesText(lines[..n]), CRLF + lines[n]);
    }
  }

  /** What the mime and http libraries guarantee about the texts that go into a header block. */
  predicate IsValidMeta(m: Metadata) {
    && (m.mime.Some? ==> '\r' !in m.mime.value)
    && forall h | h in m.headers :: '\r' !in h.0 && '\r' !in h.1 && ':' !in h.0 && (h.0 != "" ==> h.0[0] != 'C')
  }

  lemma MetaLinesAreLines(m: Metadata)
    requires IsValidMeta(m)
    ensures AreLines(MetaLines(m))
  {
    var lines := MetaLines(m);
    var n := if m.mime.Some? then 1 else 0;
    forall i | 0 <= i < |lines| ensures IsLine(lines[i]) {
      if i < n {
        assert '\r' !in CONTENT_TYPE && lines[i] == CONTENT_TYPE + m.mime.value;
      } else {
        var h := m.headers[i - n];
        assert h in m.headers && lines[i] == HeaderLine(h) && lines[i][|h.0|] == ':';
      }
    }
  }

  /** The path segment set leaves exactly letters, digits and these marks alone. */
  lemma PathSegmentEncodesExactly(c: char)
    ensures !Encodes(PATH_SEGMENT, c) <==>
            IsAlphanumeric(c) || c in {'!', '$', '&', '\'', '(', ')', '*', '+', ',', '-', '.', ':', ';', '=', '@', '[', '\\', ']', '^',
                                       '_', '|', '~'}
  {
    assert PATH_RESERVED[0] == ' ' && PATH_RESERVED[1] == '\"' && PATH_RESERVED[2] == '<' && PATH_RESERVED[3] == '>';
    assert PATH_RESERVED[4] == '`' && PATH_RESERVED[5] == '#' && PATH_RESERVED[6] == '?' && PATH_RESERVED[7] == '{';
    assert PATH_RESERVED[8] == '}' && PATH_RESERVED[9] == '/' && PATH_RESERVED[10] == '%' && |PATH_RESERVED| == 11;
  }

  /** The attr-char set encodes, below 128, exactly control bytes and these marks. */
  lemma AttrCharEncodesExactly(c: char)
    ensures Encodes(ATTR_CHAR, c) <==>
            || c as int < 32 || c as int >= 127
            || c in {' ', '\"', '%', '\'', '(', ')', '*', ',', '/', ':', ';', '<', '=', '>', '?', '@', '[', '\\', ']', '{', '}'}
  {
    assert ATTR_PLAIN[0] == '!' && ATTR_PLAIN[1] == '#' && ATTR_PLAIN[2] == '$' && ATTR_PLAIN[3] == '&';
    assert ATTR_PLAIN[4] == '+' && ATTR_PLAIN[5] == '-' && ATTR_PLAIN[6] == '.' && ATTR_PLAIN[7] == '^';
    assert ATTR_PLAIN[8] == '_' && ATTR_PLAIN[9] == '`' && ATTR_PLAIN[10] == '|' && ATTR_PLAIN[11] == '~' && |ATTR_PLAIN| == 12;
  }

  /** An encoded name holds no quote, space or line break. */
  lemma NameIsPlain(e: Encoding, name: string)
    requires e != NoOp && IsBytes(name)
    ensures forall c | c in EncodeName(e, name) :: c !in {'\"', ' ', '\r', '\n'}
  {
    if e == PathSegment {
      EncodedBytes(PATH_SEGMENT, name);
      assert PATH_RESERVED[0] == ' ' && PATH_RESERVED[1] == '\"';
      assert Encodes(PATH_SEGMENT, '\"') && Encodes(PATH_SEGMENT, ' ') && Encodes(PATH_SEGMENT, '\r') && Encodes(PATH_SEGMENT, '\n');
    } else {
      EncodedBytes(ATTR_CHAR, name);
      assert forall i | 0 <= i < |ATTR_PLAIN| :: ATTR_PLAIN[i] !in {'\"', ' ', '\r', '\n'};
      assert Encodes(ATTR_CHAR, '\"') && Encodes(ATTR_CHAR, ' ') && Encodes(ATTR_CHAR, '\r') && Encodes(ATTR_CHAR, '\n');
    }
  }

  lemma FileParameterHasNoBreak(fileName: Option<string>)
    ensures var f := FileNameParameter(fileName); HasNoLineBreak(f) && (f != "" ==> f[0] != '\n')
  {
    if fileName.Some? {
      var escaped := LegalFileName(fileName.value);
      ReplacementsAreEscape(fileName.value);
      EscapeHasNoLineBreak(fileName.value);
      assert '\r' !in FILE_NAME && FILE_NAME[0] == ';';
      NoLineBreakJoins(FILE_NAME, escaped);
      NoLineBreakJoins(FILE_NAME + escaped, "\"");
    }
  }

  lemma AbsentJoins(a: string, b: string, d: string, c: char)
    requires c !in a && c !in b && c !in d
    ensures c !in a + b + d && c !in a + b
  {
  }

  lemma NameParameterHasNoBreak(e: Encoding, name: string)
    requires e != NoOp && IsBytes(name)
    ensures '\r' !in NameParameter(e, name)
  {
    var encoded := EncodeName(e, name);
    assert '\r' !in encoded by { NameIsPlain(e, name); }
    if IsOnePiece(e, name) {
      AbsentJoins("name=\"", encoded, "\"", '\r');
    } else {
      AbsentJoins("name*=utf-8''", encoded, "", '\r');
    }
  }

  lemma FirstLineHasNoBreak(e: Encoding, name: string, fileName: Option<string>)
    requires e != NoOp && IsBytes(name)
    ensures HasNoLineBreak(DISPOSITION + NameParameter(e, name) + FileNameParameter(fileName))
  {
    NameParameterHasNoBreak(e, name);
    assert '\r' !in DISPOSITION;
    FileParameterHasNoBreak(fileName);
    BreaksOnlyBehind(DISPOSITION, NameParameter(e, name), FileNameParameter(fileName));
  }

  lemma BreaksOnlyBehind(a: string, b: string, c: string)
    requires '\r' !in a && '\r' !in b && HasNoLineBreak(c) && (c != "" ==> c[0] != '\n')
    ensures HasNoLineBreak(a + b + c)
  {
    NoLineBreakJoins(a + b, c);
  }

  /** Under both percent-encodings no header block holds a blank line. */
  lemma HeaderBlockIsClosed(e: Encoding, name: string, m: Metadata)
    requires e != NoOp && IsBytes(name) && IsValidMeta(m)
    ensures IsClosed(HeaderBlock(e, name, m))
  {
    FirstLineHasNoBreak(e, name, m.fileName);
    MetaLinesAreLines(m);
    FilledWithLines(DISPOSITION + NameParameter(e, name) + FileNameParameter(m.fileName), MetaLines(m));
    FilledIsClosed(HeaderBlock(e, name, m));
  }
}
