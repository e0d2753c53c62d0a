/**
 Reading a header block back: a parser for header blocks, and when it recovers what was printed.
 */
module MultipartReader {
  import opened Text
  import opened Percent
  import opened Multipart
  import opened MultipartStream
  import opened MultipartHeaders

  const QUOTED: string := "name=\""
  const STARRED: string := "name*=utf-8''"

  // ----- the parser -----

  /** Bytes before the next parameter, the next line or the end. */
  function PlainLength(s: string): (n: nat)
    ensures n <= |s|
  {
    if s == "" || s[0] == '\r' || (|s| > 1 && s[0] == ';' && s[1] == ' ') then 0 else 1 + PlainLength(s[1..])
  }

  /** The text of the name parameter, still encoded, and what follows it. */
  function ReadName(s: string): Option<(string, string)> {
    if QUOTED <= s then
      var r := s[|QUOTED|..];
      var i := IndexOf("\"", r);
      if i.None? || i.value >= |r| then None else Some((r[..i.value], r[i.value + 1..]))
    else if STARRED <= s then
      var r := s[|STARRED|..];
      Some((r[..PlainLength(r)], r[PlainLength(r)..]))
    else None
  }

  function ReadFileName(s: string): Option<(Option<string>, string)> {
    if !(FILE_NAME <= s) then Some((None, s))
    else
      var r := Unquote(s[|FILE_NAME|..]);
      if r.None? then None else Some((Some(r.value.0), r.value.1))
  }

  /** Bytes before the next CR or the end. */
  function LineLength(s: string): (n: nat)
    ensures n <= |s|
  {
    if s == "" || s[0] == '\r' then 0 else 1 + LineLength(s[1..])
  }

  function ReadLines(s: string): Option<seq<string>>
    decreases |s|
  {
    if s == "" then Some([])
    else if !(CRLF <= s) then None
    else
      var r := s[2..];
      var n := LineLength(r);
      var rest := ReadLines(r[n..]);
      if rest.None? then None else Some([r[..n]] + rest.value)
  }

  function ReadHeader(line: string): Option<(string, string)> {
    var i := IndexOf(":", line);
    if i.None? || i.value + 2 > |line| then None else Some((line[..i.value], line[i.value + 2..]))
  }

  function ReadHeaders(lines: seq<string>): Option<seq<(string, string)>> {
    if lines == [] then Some([])
    else
      var first, rest := ReadHeader(lines[0]), ReadHeaders(lines[1..]);
      if first.None? || rest.None? then None else Some([first.value] + rest.value)
  }

  function ReadMeta(fileName: Option<string>, lines: seq<string>): Option<Metadata> {
    var hasMime := lines != [] && CONTENT_TYPE <= lines[0];
    var headers := ReadHeaders(if hasMime then lines[1..] else lines);
    if headers.None? then None
    else Some(Metadata(if hasMime then Some(lines[0][|CONTENT_TYPE|..]) else None, fileName, headers.value))
  }

  /** The field name and the metadata of a header block; `decode` tells whether names were percent-encoded. */
  function ReadBlock(decode: bool, s: string): Option<(string, Metadata)> {
    if !(DISPOSITION <= s) then None
    else
      var name := ReadName(s[|DISPOSITION|..]);
      if name.None? then None
      else
        var file := ReadFileName(name.value.1);
        if file.None? then None
        else
          var lines := ReadLines(file.value.1);
          if lines.None? then None
          else
            var meta := ReadMeta(file.value.0, lines.value);
            if meta.None? then None else Some((if decode then Decode(name.value.0) else name.value.0, meta.value))
  }

  // ----- round trips of the pieces -----

  /** What may follow a name parameter. */
  predicate EndsName(rest: string) {
    rest == "" || rest[0] == '\r' || (|rest| > 1 && rest[0] == ';' && rest[1] == ' ')
  }

  lemma {:induction false} PlainLengthStops(text: string, rest: string)
    requires '\r' !in text && ' ' !in text && EndsName(rest)
    ensures PlainLength(text + rest) == |text|
  {
    var s := text + rest;
    if text == "" {
      assert s == rest;
    } else {
      assert s[1..] == text[1..] + rest;
      PlainLengthStops(text[1..], rest);
      assert |text| > 1 ==> s[1] == text[1];
      assert |text| == 1 && rest != "" ==> s[1] == rest[0];
    }
  }

  lemma ByteStops(text: string, c: char, rest: string)
    requires c !in text
    ensures IndexOf([c], text + [c] + rest) == Some(|text|)
  {
    forall i | 0 <= i <= |text| ensures !OccursAt([c], text, i) {
      assert i < |text| ==> text[i..i + 1] == [text[i]];
    }
    FirstDelimiter([c], text, rest);
  }

  lemma ReadNameReads(e: Encoding, name: string, rest: string)
    requires e != NoOp && IsBytes(name) && EndsName(rest)
    ensures ReadName(NameParameter(e, name) + rest) == Some((EncodeName(e, name), rest))
  {
    var text := EncodeName(e, name);
    NameIsPlain(e, name);
    ParameterText(e, name, rest);
    if IsOnePiece(e, name) {
      ReadQuoted(text, rest);
    } else {
      ReadStarred(text, rest);
    }
  }

  lemma ParameterText(e: Encoding, name: string, rest: string)
    requires IsBytes(name)
    ensures NameParameter(e, name) + rest ==
              if IsOnePiece(e, name) then QUOTED + (EncodeName(e, name) + "\"" + rest) else STARRED + (EncodeName(e, name) + rest)
  {
    Associative(QUOTED, EncodeName(e, name), "\"");
    Associative(QUOTED, EncodeName(e, name) + "\"", rest);
    Associative(STARRED, EncodeName(e, name), rest);
  }

  lemma ReadQuoted(text: string, rest: string)
    requires '\"' !in text
    ensures ReadName(QUOTED + (text + "\"" + rest)) == Some((text, rest))
  {
    var after := text + "\"" + rest;
    DropPrefix(QUOTED, after);
    ByteStops(text, '\"', rest);
    assert after[..|text|] == text && after[|text| + 1..] == rest;
  }

  lemma ReadStarred(text: string, rest: string)
    requires '\r' !in text && ' ' !in text && EndsName(rest)
    ensures ReadName(STARRED + (text + rest)) == Some((text, rest))
  {
    var s := STARRED + (text + rest);
    DropPrefix(STARRED, text + rest);
    assert s[4] == STARRED[4] == '*' && QUOTED[4] == '=';
    PlainLengthStops(text, rest);
    assert (text + rest)[..|text|] == text && (text + rest)[|text|..] == rest;
  }

  lemma NameDecodes(e: Encoding, name: string)
    requires e != NoOp && IsBytes(name)
    ensures Decode(EncodeName(e, name)) == name
  {
    if e == PathSegment {
      assert PATH_RESERVED[10] == '%';
      DecodeUndoesEncode(PATH_SEGMENT, name);
    } else {
      assert forall i | 0 <= i < |ATTR_PLAIN| :: ATTR_PLAIN[i] != '%';
      DecodeUndoesEncode(ATTR_CHAR, name);
    }
  }

  /** What follows a file name: nothing or further lines. */
  predicate StartsLines(rest: string) {
    rest == "" || rest[0] == '\r'
  }

  lemma ReadFileNameReads(fileName: Option<string>, rest: string)
    requires StartsLines(rest)
    ensures ReadFileName(FileNameParameter(fileName) + rest) == Some((fileName, rest))
    ensures EndsName(FileNameParameter(fileName) + rest)
  {
    if fileName.None? {
      assert FILE_NAME[0] == ';';
      assert FileNameParameter(fileName) + rest == rest;
    } else {
      var escaped := Escape(fileName.value);
      ReplacementsAreEscape(fileName.value);
      Associative(FILE_NAME + escaped, "\"", rest);
      Associative(FILE_NAME, escaped, "\"" + rest);
      Associative(escaped, "\"", rest);
      UnquoteUndoesEscape(fileName.value, rest);
      QuotedIsRead(escaped + "\"" + rest);
    }
  }

  lemma QuotedIsRead(quoted: string)
    ensures EndsName(FILE_NAME + quoted)
    ensures var r := Unquote(quoted);
            r.Some? ==> ReadFileName(FILE_NAME + quoted) == Some((Some(r.value.0), r.value.1))
  {
    var s := FILE_NAME + quoted;
    DropPrefix(FILE_NAME, quoted);
    assert FILE_NAME[0] == ';' && FILE_NAME[1] == ' ' && s[0] == FILE_NAME[0] && s[1] == FILE_NAME[1];
  }

  lemma {:induction false} LineLengthStops(line: string, rest: string)
    requires '\r' !in line && StartsLines(rest)
    ensures LineLength(line + rest) == |line|
  {
    if line == "" {
      assert line + rest == rest;
    } else {
      assert (line + rest)[1..] == line[1..] + rest;
      LineLengthStops(line[1..], rest);
    }
  }

  lemma {:induction false} LinesFront(line: string, rest: seq<string>)
    ensures LinesText([line] + rest) == CRLF + line + LinesText(rest)
    ensures StartsLines(LinesText(rest))
  {
    var all := [line] + rest;
    if rest == [] {
      assert all == [line] && all[..0] == [];
      assert LinesText(all) == "" + (CRLF + line);
    } else {
      var n := |rest| - 1;
      assert all[..|all| - 1] == [line] + rest[..n];
      LinesFront(line, rest[..n]);
      Associative(CRLF + line, LinesText(rest[..n]), CRLF + rest[n]);
    }
  }

  lemma {:induction false} ReadLinesReads(lines: seq<string>)
    requires AreLines(lines)
    ensures ReadLines(LinesText(lines)) == Some(lines)
  {
    if lines != [] {
      var line, rest := lines[0], lines[1..];
      assert lines == [line] + rest && IsLine(line);
      LinesFront(line, rest);
      ReadLinesReads(rest);
      LineFirst(line, LinesText(rest));
    }
  }

  lemma LineFirst(line: string, more: string)
    requires '\r' !in line && StartsLines(more)
    ensures var rest := ReadLines(more);
            rest.Some? ==> ReadLines(CRLF + line + more) == Some([line] + rest.value)
  {
    Associative(CRLF, line, more);
    LineLengthStops(line, more);
    DropPrefix(line, more);
    ReadLinesStep(line + more, |line|);
  }

  lemma ReadLinesStep(s: string, n: nat)
    requires n == LineLength(s)
    ensures var rest := ReadLines(s[n..]);
            rest.Some? ==> ReadLines(CRLF + s) == Some([s[..n]] + rest.value)
  {
    var all := CRLF + s;
    DropPrefix(CRLF, s);
    assert all[2..] == s;
  }

  lemma ReadHeaderReads(h: (string, string))
    requires ':' !in h.0
    ensures ReadHeader(HeaderLine(h)) == Some(h)
  {
    assert HeaderLine(h) == h.0 + ":" + (" " + h.1);
    ByteStops(h.0, ':', " " + h.1);
    assert HeaderLine(h)[..|h.0|] == h.0 && HeaderLine(h)[|h.0| + 2..] == h.1;
  }

  lemma {:induction false} ReadHeadersReads(headers: seq<(string, string)>)
    requires forall i | 0 <= i < |headers| :: ':' !in headers[i].0
    ensures ReadHeaders(HeaderLines(headers)) == Some(headers)
  {
    if headers != [] {
      ReadHeaderReads(headers[0]);
      ReadHeadersReads(headers[1..]);
      assert HeaderLines(headers)[1..] == HeaderLines(headers[1..]);
      assert headers == [headers[0]] + headers[1..];
    }
  }

  lemma ReadMetaReads(m: Metadata)
    requires IsValidMeta(m)
    ensures ReadMeta(m.fileName, MetaLines(m)) == Some(m)
  {
    assert forall i | 0 <= i < |m.headers| :: m.headers[i] in m.headers;
    ReadHeadersReads(m.headers);
    var lines := MetaLines(m);
    if m.mime.Some? {
      DropPrefix(CONTENT_TYPE, m.mime.value);
      assert lines[0] == CONTENT_TYPE + m.mime.value && lines[1..] == HeaderLines(m.headers);
    } else {
      assert lines == HeaderLines(m.headers);
      if lines != [] {
        var h := m.headers[0];
        assert CONTENT_TYPE[0] == 'C' && lines[0] == HeaderLine(h) && h in m.headers;
        assert lines[0][0] == if h.0 == "" then ':' else h.0[0];
      }
    }
  }

  /** Without percent-encoding a name parameter reads back exactly when the name holds no quote; else it is cut short. */
  lemma UnencodedNameReadsIffNoQuote(name: string, rest: string)
    requires IsBytes(name)
    ensures ReadName(NameParameter(NoOp, name) + rest) == Some((name, rest)) <==> '\"' !in name
    ensures '\"' in name ==>
              var r := ReadName(NameParameter(NoOp, name) + rest); r.Some? && |r.value.0| < |name|
  {
    var after := name + "\"" + rest;
    assert NameParameter(NoOp, name) + rest == QUOTED + after;
    if '\"' !in name {
      ReadQuoted(name, rest);
    } else {
      DropPrefix(QUOTED, after);
      var i :| 0 <= i < |name| && name[i] == '\"';
      assert after[i..i + 1] == "\"";
      IndexOfBound("\"", after, i);
    }
  }

  /** A name that a reader of header blocks can recover. */
  predicate IsPlainName(e: Encoding, name: string) {
    e == NoOp ==> '\"' !in name
  }

  lemma NameParameterReads(e: Encoding, name: string, rest: string)
    requires IsBytes(name) && EndsName(rest)
    ensures var r := ReadName(NameParameter(e, name) + rest);
            && (IsPlainName(e, name) ==> r == Some((EncodeName(e, name), rest)))
            && (!IsPlainName(e, name) ==> r.Some? && |r.value.0| < |name|)
  {
    if e == NoOp {
      UnencodedNameReadsIffNoQuote(name, rest);
    } else {
      ReadNameReads(e, name, rest);
    }
  }

  /** The parts of a header block, as the reader meets them. */
  lemma BlockParts(e: Encoding, name: string, m: Metadata) returns (file: string, lines: string)
    requires IsBytes(name) && IsValidMeta(m)
    ensures lines == LinesText(MetaLines(m)) && file == FileNameParameter(m.fileName) + lines
    ensures HeaderBlock(e, name, m) == DISPOSITION + (NameParameter(e, name) + file)
    ensures ReadLines(lines) == Some(MetaLines(m)) && ReadFileName(file) == Some((m.fileName, lines)) && EndsName(file)
  {
    lines := LinesText(MetaLines(m));
    file := FileNameParameter(m.fileName) + lines;
    MetaLinesAreLines(m);
    LinesStart(MetaLines(m));
    ReadLinesReads(MetaLines(m));
    ReadFileNameReads(m.fileName, lines);
    Regroup(DISPOSITION, NameParameter(e, name), FileNameParameter(m.fileName), lines);
  }

  /** A header block gives back field name, file name, media type and headers, exactly when the name is percent-encoded
      or holds no quote. */
  lemma BlockReadsIffPlainName(e: Encoding, name: string, m: Metadata)
    requires IsBytes(name) && IsValidMeta(m)
    ensures ReadBlock(e != NoOp, HeaderBlock(e, name, m)) == Some((name, m)) <==> IsPlainName(e, name)
    ensures !IsPlainName(e, name) ==>
              var r := ReadBlock(e != NoOp, HeaderBlock(e, name, m)); r.Some? ==> r.value.0 != name
  {
    var file, lines := BlockParts(e, name, m);
    NameParameterReads(e, name, file);
    ReadBlockIs(e != NoOp, NameParameter(e, name) + file, file, lines, m);
    if e != NoOp { NameDecodes(e, name); }
    NameIsRead(e != NoOp, NameParameter(e, name) + file);
  }

  /** What a header block is read as, given what its parts are read as. */
  lemma ReadBlockIs(decode: bool, rest: string, file: string, lines: string, m: Metadata)
    requires IsValidMeta(m) && ReadFileName(file) == Some((m.fileName, lines)) && ReadLines(lines) == Some(MetaLines(m))
    ensures var name := ReadName(rest);
            name.Some? && name.value.1 == file ==>
              ReadBlock(decode, DISPOSITION + rest) == Some((if decode then Decode(name.value.0) else name.value.0, m))
  {
    DropPrefix(DISPOSITION, rest);
    ReadMetaReads(m);
  }

  /** The field name that is read is what the name parameter is read as. */
  lemma NameIsRead(decode: bool, rest: string)
    ensures var name, r := ReadName(rest), ReadBlock(decode, DISPOSITION + rest);
            r.Some? ==> name.Some? && r.value.0 == if decode then Decode(name.value.0) else name.value.0
  {
    DropPrefix(DISPOSITION, rest);
  }

  // ----- where the reader finds the end of a header block -----

  lemma {:induction false} IndexOfOccurs(needle: string, s: string)
    ensures IndexOf(needle, s).Some? ==> OccursAt(needle, s, IndexOf(needle, s).value)
  {
    if needle <= s {
      assert s[0..|needle|] == needle;
    } else if s != "" {
      IndexOfOccurs(needle, s[1..]);
      var i := IndexOf(needle, s[1..]);
      assert i.Some? ==> s[1..][i.value..i.value + |needle|] == s[i.value + 1..i.value + 1 + |needle|];
    }
  }

  /** A name without a blank line, put between texts without one that do not touch it with CR or LF. */
  lemma ClosedAround(before: string, name: string, rest: string)
    requires '\r' !in before && !Occurs(BLANK, name) && rest != "" && rest[0] == '\"' && IsClosed(rest)
    ensures IsClosed(before + name + rest)
  {
    var all := before + name + rest;
    var t, b, n := all + BLANK, |before|, |before| + |name|;
    assert BLANK[0] == BLANK[2] == '\r' && BLANK[1] == BLANK[3] == '\n';
    forall i | 0 <= i < |all| ensures !OccursAt(BLANK, t, i) {
      var w := t[i..i + 4];
      assert w[0] == t[i] && w[1] == t[i + 1] && w[2] == t[i + 2] && w[3] == t[i + 3];
      if i < b {
        assert t[i] == before[i];
      } else if i >= n {
        assert !OccursAt(BLANK, rest + BLANK, i - n);
        assert w == (rest + BLANK)[i - n..i - n + 4];
      } else if i + 4 <= n {
        assert !OccursAt(BLANK, name, i - b);
        assert w == name[i - b..i - b + 4];
      } else {
        assert t[n] == '\"' && w[n - i] == t[n];
      }
    }
  }

  /** What precedes an unencoded name in its header block. */
  const BEFORE_NAME: string := DISPOSITION + QUOTED

  /** What follows an unencoded name in its header block. */
  function AfterName(m: Metadata): string {
    "\"" + FileNameParameter(m.fileName) + LinesText(MetaLines(m))
  }

  lemma UnencodedBlock(name: string, m: Metadata)
    requires IsBytes(name)
    ensures HeaderBlock(NoOp, name, m) == BEFORE_NAME + name + AfterName(m)
    ensures '\r' !in BEFORE_NAME
  {
    assert '\r' !in DISPOSITION && '\r' !in QUOTED;
    Surround(DISPOSITION, QUOTED, name, "\"", FileNameParameter(m.fileName), LinesText(MetaLines(m)));
  }

  lemma Surround(a: string, b: string, name: string, c: string, d: string, e: string)
    ensures a + (b + name + c) + d + e == a + b + name + (c + d + e)
  {
  }

  lemma UnencodedBlockIsClosed(name: string, m: Metadata)
    requires IsBytes(name) && IsValidMeta(m) && !Occurs(BLANK, name)
    ensures IsClosed(HeaderBlock(NoOp, name, m))
  {
    UnencodedBlock(name, m);
    QuotedRestIsClosed(m);
    ClosedAround(BEFORE_NAME, name, AfterName(m));
  }

  lemma QuotedRestIsClosed(m: Metadata)
    requires IsValidMeta(m)
    ensures IsClosed(AfterName(m)) && AfterName(m) != "" && AfterName(m)[0] == '\"'
  {
    FileParameterHasNoBreak(m.fileName);
    NoLineBreakJoins("\"", FileNameParameter(m.fileName));
    MetaLinesAreLines(m);
    FilledWithLines("\"" + FileNameParameter(m.fileName), MetaLines(m));
    FilledIsClosed(AfterName(m));
  }

  /** A text that occurs in `name` and cannot start before it is first found inside it. */
  lemma FoundInside(d: string, before: string, name: string, after: string)
    requires d != "" && d[0] !in before && Occurs(d, name)
    ensures var h := IndexOf(d, before + name + after);
            && h.Some? && |before| <= h.value < |before| + |name|
            && (before + name + after)[..h.value] == before + name[..h.value - |before|]
  {
    var s, b := before + name + after, |before|;
    var k: nat :| k <= |name| && OccursAt(d, name, k);
    assert s[b + k..b + k + |d|] == name[k..k + |d|];
    IndexOfBound(d, s, b + k);
    IndexOfOccurs(d, s);
    var v := IndexOf(d, s).value;
    assert s[v..v + |d|][0] == s[v];
    StartsLater(before, name, after, v);
  }

  lemma StartsLater(before: string, name: string, after: string, v: nat)
    requires v < |before| + |name| && (before + name + after)[v] !in before
    ensures v >= |before| && (before + name + after)[..v] == before + name[..v - |before|]
  {
    var rest := name + after;
    assert before + name + after == before + rest;
  }

  /** With a blank line in an unencoded name, the reader takes the header block to end inside the name. */
  lemma BlankInNameEndsHeader(name: string, m: Metadata, rest: string) returns (k: nat)
    requires IsBytes(name) && Occurs(BLANK, name)
    ensures k < |name|
    ensures var s := HeaderBlock(NoOp, name, m) + BLANK + rest;
            var h := IndexOf(BLANK, s);
            h.Some? && h.value <= |s| && s[..h.value] == BEFORE_NAME + name[..k]
  {
    UnencodedBlock(name, m);
    Regroup(BEFORE_NAME + name, AfterName(m), BLANK, rest);
    FoundInside(BLANK, BEFORE_NAME, name, AfterName(m) + (BLANK + rest));
    k := IndexOf(BLANK, HeaderBlock(NoOp, name, m) + BLANK + rest).value - |BEFORE_NAME|;
  }

  /** A block that was cut inside an unencoded name does not give the name back. */
  lemma CutNameIsLost(name: string, k: nat)
    requires k < |name|
    ensures var r := ReadBlock(false, BEFORE_NAME + name[..k]); r.Some? ==> r.value.0 != name
  {
    assert BEFORE_NAME + name[..k] == DISPOSITION + (QUOTED + name[..k]);
    DropPrefix(DISPOSITION, QUOTED + name[..k]);
    DropPrefix(QUOTED, name[..k]);
  }

  /** With a blank line in an unencoded name, what the reader takes for the header block does not give the name back. */
  lemma BlankLosesName(name: string, m: Metadata, rest: string)
    requires IsBytes(name) && Occurs(BLANK, name)
    ensures var s := HeaderBlock(NoOp, name, m) + BLANK + rest;
            var h := IndexOf(BLANK, s);
            h.Some? && h.value <= |s| && var r := ReadBlock(false, s[..h.value]); r.Some? ==> r.value.0 != name
  {
    var k := BlankInNameEndsHeader(name, m, rest);
    CutNameIsLost(name, k);
  }

  lemma LinesStart(lines: seq<string>)
    ensures StartsLines(LinesText(lines))
  {
    LinesFront("", lines);
  }

  lemma Regroup(a: string, b: string, c: string, d: string)
    ensures a + b + c + d == a + (b + (c + d))
  {
    Associative(a + b, c, d);
    Associative(a, b, c + d);
  }
}
