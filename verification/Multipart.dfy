/**
 multipart/form-data: printing a form and computing the length of the print
 (section 5.1.1 of RFC 2046 and section 4 of RFC 7578).
 */
module Multipart {
  import opened Text
  import opened Percent

  const CRLF: string := "\r\n"
  const U64: nat := 0x1_0000_0000_0000_0000

  /** Wraps around at 64 bits. */
  function Wrap(n: nat): (r: nat)
    ensures r < U64 && (n < U64 ==> r == n)
  {
    if n < U64 then n else Wrap(n - U64)
  }

  lemma {:induction false} WrapIsModulo(n: nat)
    ensures Wrap(n) == n % U64
  {
    if n >= U64 { WrapIsModulo(n - U64); }
  }

  lemma {:induction false} WrapAdds(a: nat, b: nat)
    ensures Wrap(Wrap(a) + b) == Wrap(a + b)
    decreases a
  {
    if a >= U64 {
      WrapAdds(a - U64, b);
      assert a + b - U64 == (a - U64) + b;
    }
  }

  datatype Encoding = PathSegment | AttrChar | NoOp

  /** Control bytes, the fragment and path sets, the slash and the percent sign. */
  const PATH_SEGMENT: AsciiSet := (c: char) => IsControl(c) || c in PATH_RESERVED

  const PATH_RESERVED: string := " \"<>`#?{}/%"

  /** Everything but letters, digits and the attr-char punctuation of RFC 8187. */
  const ATTR_CHAR: AsciiSet := (c: char) => !IsAlphanumeric(c) && c !in ATTR_PLAIN

  const ATTR_PLAIN: string := "!#$&+-.^_`|~"

  datatype Metadata = Metadata(mime: Option<string>, fileName: Option<string>, headers: seq<(string, string)>)

  /** A part: its content, a length declared by the caller, and the exact size its body knows. */
  datatype Part = Part(meta: Metadata, value: string, bodyLength: Option<nat>, exactSize: Option<nat>) {
    function ValueLen(): Option<nat> {
      if bodyLength.Some? then bodyLength else exactSize
    }

    /** A known length is the right one. */
    predicate LengthIsRight() {
      ValueLen().Some? ==> ValueLen().value == |value|
    }
  }

  type Fields = seq<(string, Part)>

  // ----- header block -----

  /** `str::replace` of one byte. */
  function Replace(s: string, c: char, with: string): string {
    if s == "" then "" else (if s[0] == c then with else [s[0]]) + Replace(s[1..], c, with)
  }

  function LegalFileName(name: string): string {
    Replace(Replace(Replace(Replace(name, '\\', "\\\\"), '\"', "\\\""), '\r', "\\\r"), '\n', "\\\n")
  }

  function EncodeName(e: Encoding, name: string): string
    requires IsBytes(name)
  {
    match e
    case PathSegment => Encode(PATH_SEGMENT, name)
    case AttrChar => Encode(ATTR_CHAR, name)
    case NoOp => name
  }

  /** The library hands the name out as one borrowed piece: nothing was encoded, or the whole name is one encoded byte. */
  predicate IsOnePiece(e: Encoding, name: string)
    requires IsBytes(name)
  {
    EncodeName(e, name) == name || |name| == 1
  }

  function NameParameter(e: Encoding, name: string): string
    requires IsBytes(name)
  {
    if IsOnePiece(e, name) then "name=\"" + EncodeName(e, name) + "\""
    else "name*=utf-8''" + EncodeName(e, name)
  }

  const DISPOSITION: string := "Content-Disposition: form-data; "
  const FILE_NAME: string := "; filename=\""
  const CONTENT_TYPE: string := "Content-Type: "

  function FileNameParameter(fileName: Option<string>): string {
    if fileName.None? then "" else FILE_NAME + LegalFileName(fileName.value) + "\""
  }

  function HeaderLine(header: (string, string)): string {
    header.0 + ": " + header.1
  }

  /** Further lines, each on a new line of its own. */
  function LinesText(lines: seq<string>): string {
    if lines == [] then "" else LinesText(lines[..|lines| - 1]) + (CRLF + lines[|lines| - 1])
  }

  function HeaderLines(headers: seq<(string, string)>): seq<string> {
    seq(|headers|, i requires 0 <= i < |headers| => HeaderLine(headers[i]))
  }

  function MetaLines(m: Metadata): seq<string> {
    (if m.mime.Some? then [CONTENT_TYPE + m.mime.value] else []) + HeaderLines(m.headers)
  }

  function HeaderBlock(e: Encoding, name: string, m: Metadata): string
    requires IsBytes(name)
  {
    DISPOSITION + NameParameter(e, name) + FileNameParameter(m.fileName) + LinesText(MetaLines(m))
  }

  /** Appends the pieces of a header block to a buffer. */
  method EncodeHeaders(e: Encoding, name: string, m: Metadata) returns (buf: string)
    requires IsBytes(name)
    ensures buf == HeaderBlock(e, name, m)
  {
    buf := DISPOSITION;
    if IsOnePiece(e, name) {
      buf := buf + ("name=\"" + EncodeName(e, name) + "\"");
    } else {
      buf := buf + ("name*=utf-8''" + EncodeName(e, name));
    }
    if m.fileName.Some? {
      buf := buf + (FILE_NAME + LegalFileName(m.fileName.value) + "\"");
    } else {
      assert buf + "" == buf;
    }
    assert buf == DISPOSITION + NameParameter(e, name) + FileNameParameter(m.fileName);
    buf := AppendLines(buf, m);
  }

  /** Appends the lines after the first one. */
  method AppendLines(start: string, m: Metadata) returns (buf: string)
    ensures buf == start + LinesText(MetaLines(m))
  {
    buf := start;
    ghost var lines: seq<string> := [];
    assert IsAppended(start, lines, buf) by { assert start + "" == start; }
    if m.mime.Some? {
      var line := CONTENT_TYPE + m.mime.value;
      AppendedGrows(start, lines, buf, line);
      buf, lines := buf + (CRLF + line), lines + [line];
    }
    ghost var first := lines;
    for i := 0 to |m.headers|
      invariant IsAppended(start, lines, buf) && lines == first + HeaderLines(m.headers[..i])
    {
      var line := HeaderLine(m.headers[i]);
      AppendedGrows(start, lines, buf, line);
      HeaderLinesGrow(first, m.headers, i);
      buf, lines := buf + (CRLF + line), lines + [line];
    }
    assert m.headers[..|m.headers|] == m.headers;
  }

  /** The buffer holds what it started with and these lines. */
  ghost predicate IsAppended(start: string, lines: seq<string>, buf: string) {
    buf == start + LinesText(lines)
  }

  lemma AppendedGrows(start: string, lines: seq<string>, buf: string, line: string)
    requires IsAppended(start, lines, buf)
    ensures IsAppended(start, lines + [line], buf + (CRLF + line))
  {
    assert (lines + [line])[..|lines|] == lines;
    Associative(start, LinesText(lines), CRLF + line);
  }

  lemma HeaderLinesGrow(first: seq<string>, headers: seq<(string, string)>, i: nat)
    requires i < |headers|
    ensures first + HeaderLines(headers[..i]) + [HeaderLine(headers[i])] == first + HeaderLines(headers[..i + 1])
  {
    assert HeaderLines(headers[..i + 1]) == HeaderLines(headers[..i]) + [HeaderLine(headers[i])];
    Associative(first, HeaderLines(headers[..i]), [HeaderLine(headers[i])]);
  }

  // ----- stream -----

  /** A part as it goes over the wire: its header block and its content. */
  datatype Piece = Piece(header: string, value: string)

  const BLANK: string := "\r\n\r\n"

  function Opening(boundary: string): string {
    "--" + boundary + CRLF
  }

  function PieceText(boundary: string, p: Piece): string {
    Opening(boundary) + (p.header + BLANK) + p.value + CRLF
  }

  function PiecesText(boundary: string, pieces: seq<Piece>): string {
    if pieces == [] then "" else PiecesText(boundary, pieces[..|pieces| - 1]) + PieceText(boundary, pieces[|pieces| - 1])
  }

  function Closing(boundary: string): string {
    "--" + boundary + "--" + CRLF
  }

  /** The bytes of a form; a form without fields has none. */
  function StreamText(boundary: string, pieces: seq<Piece>): string {
    if pieces == [] then "" else PiecesText(boundary, pieces) + Closing(boundary)
  }

  /** How a form prints the header block of a field. */
  type HeaderEncoder = (string, Metadata) -> string

  function PieceOf(encode: HeaderEncoder, field: (string, Part)): Piece {
    Piece(encode(field.0, field.1.meta), field.1.value)
  }

  function PiecesOf(encode: HeaderEncoder, fields: Fields): (r: seq<Piece>)
    ensures |r| == |fields|
  {
    if fields == [] then [] else PiecesOf(encode, fields[..|fields| - 1]) + [PieceOf(encode, fields[|fields| - 1])]
  }

  /** The encoder of `PercentEncoding`; field names are byte strings. */
  function EncoderOf(e: Encoding): HeaderEncoder {
    (name: string, meta: Metadata) => if IsBytes(name) then HeaderBlock(e, name, meta) else ""
  }

  function Concat(chunks: seq<string>): string {
    if chunks == [] then "" else Concat(chunks[..|chunks| - 1]) + chunks[|chunks| - 1]
  }

  lemma ConcatPush(chunks: seq<string>, chunk: string)
    ensures Concat(chunks + [chunk]) == Concat(chunks) + chunk
  {
    assert (chunks + [chunk])[..|chunks|] == chunks;
  }

  /** One more field adds its piece at the end. */
  lemma FieldsPush(boundary: string, encode: HeaderEncoder, fields: Fields, i: nat)
    requires i < |fields|
    ensures PiecesText(boundary, PiecesOf(encode, fields[..i + 1])) ==
              PiecesText(boundary, PiecesOf(encode, fields[..i])) + PieceText(boundary, PieceOf(encode, fields[i]))
    ensures HeadersOf(PiecesOf(encode, fields[..i + 1])) == HeadersOf(PiecesOf(encode, fields[..i])) + [PieceOf(encode, fields[i]).header]
  {
    var pieces, p := PiecesOf(encode, fields[..i]), PieceOf(encode, fields[i]);
    assert fields[..i + 1][..i] == fields[..i];
    PushPiece(boundary, pieces, p);
  }

  lemma PushPiece(boundary: string, pieces: seq<Piece>, p: Piece)
    ensures PiecesText(boundary, pieces + [p]) == PiecesText(boundary, pieces) + PieceText(boundary, p)
    ensures HeadersOf(pieces + [p]) == HeadersOf(pieces) + [p.header]
  {
    assert (pieces + [p])[..|pieces|] == pieces;
  }

  lemma PieceLength(boundary: string, p: Piece)
    ensures |PieceText(boundary, p)| == FieldLength(boundary, p.header, |p.value|)
  {
  }

  /** Prints one part as four chunks. */
  method PartStream(boundary: string, encode: HeaderEncoder, name: string, part: Part) returns (chunks: seq<string>)
    ensures Concat(chunks) == PieceText(boundary, PieceOf(encode, (name, part)))
  {
    var header := encode(name, part.meta);
    chunks := [Opening(boundary), header + BLANK, part.value, CRLF];
    ConcatFour(Opening(boundary), header + BLANK, part.value, CRLF);
  }

  lemma ConcatFour(a: string, b: string, c: string, d: string)
    ensures Concat([a, b, c, d]) == a + b + c + d
  {
    assert [a, b, c, d][..3] == [a, b, c] && [a, b, c][..2] == [a, b] && [a, b][..1] == [a] && [a][..0] == [];
    assert Concat([a]) == "" + a == a;
    assert Concat([a, b]) == a + b;
    assert Concat([a, b, c]) == a + b + c;
  }

  lemma {:induction false} ConcatJoin(a: seq<string>, b: seq<string>)
    ensures Concat(a + b) == Concat(a) + Concat(b)
  {
    if b == [] {
      assert a + b == a;
    } else {
      var n := |b| - 1;
      assert (a + b)[..|a| + n] == a + b[..n];
      ConcatJoin(a, b[..n]);
      Associative(Concat(a), Concat(b[..n]), b[n]);
    }
  }

  class Form {
    const boundary: string
    const encode: HeaderEncoder
    var computedHeaders: seq<string>
    var fields: Fields

    constructor (boundary: string, encode: HeaderEncoder, fields: Fields)
      ensures this.boundary == boundary && this.encode == encode
      ensures this.fields == fields && computedHeaders == []
    {
      this.boundary, this.encode := boundary, encode;
      this.fields, computedHeaders := fields, [];
    }

    /** Takes the fields out of the form and prints them as a list of chunks. */
    method IntoStream() returns (chunks: seq<string>)
      modifies this`fields
      ensures Concat(chunks) == StreamText(boundary, PiecesOf(encode, old(fields)))
      ensures fields == []
    {
      chunks := [];
      if fields == [] {
        return;
      }
      var taken := fields;
      fields := [];
      for i := 0 to |taken|
        invariant fields == [] && Concat(chunks) == PiecesText(boundary, PiecesOf(encode, taken[..i]))
      {
        var part := PartStream(boundary, encode, taken[i].0, taken[i].1);
        FieldsPush(boundary, encode, taken, i);
        ConcatJoin(chunks, part);
        chunks := chunks + part;
      }
      assert taken[..|taken|] == taken;
      ConcatPush(chunks, Closing(boundary));
      chunks := chunks + [Closing(boundary)];
    }

    /** The length of the stream wrapped at 64 bits, or None when some part does not know its length.
        The header blocks made on the way are kept, up to the first part of unknown length. */
    method ComputeLength() returns (length: Option<nat>)
      modifies this`computedHeaders
      ensures length.Some? <==> LengthsAreKnown(fields)
      ensures length.Some? && LengthsAreRight(fields) ==>
                length.value == Wrap(|StreamText(boundary, PiecesOf(encode, fields))|)
      ensures computedHeaders == old(computedHeaders) + HeadersOf(PiecesOf(encode, fields[..KnownLengths(fields)]))
    {
      var headers;
      length, headers := StreamLength(boundary, encode, fields);
      computedHeaders := computedHeaders + headers;
      if length.Some? && LengthsAreRight(fields) {
        DeclaredLengthIsExact(boundary, encode, fields);
      }
    }
  }

  function HeadersOf(pieces: seq<Piece>): (r: seq<string>)
    ensures |r| == |pieces|
  {
    if pieces == [] then [] else HeadersOf(pieces[..|pieces| - 1]) + [pieces[|pieces| - 1].header]
  }

  predicate LengthsAreKnown(fields: Fields) {
    forall i | 0 <= i < |fields| :: fields[i].1.ValueLen().Some?
  }

  /** How many fields come before the first one of unknown length. */
  function KnownLengths(fields: Fields): (n: nat)
    ensures n <= |fields| && LengthsAreKnown(fields[..n])
    ensures n < |fields| ==> fields[n].1.ValueLen().None?
  {
    if fields == [] || fields[0].1.ValueLen().None? then 0 else 1 + KnownLengths(fields[1..])
  }

  predicate LengthsAreRight(fields: Fields) {
    forall i | 0 <= i < |fields| :: fields[i].1.LengthIsRight()
  }

  /** Adds up the length of the stream from header blocks and declared part lengths, wrapped at 64 bits. */
  method StreamLength(boundary: string, encode: HeaderEncoder, fields: Fields)
    returns (length: Option<nat>, headers: seq<string>)
    ensures length.Some? <==> LengthsAreKnown(fields)
    ensures length.Some? ==> length.value == Wrap(DeclaredLength(boundary, encode, fields) + ClosingLength(boundary, fields))
    ensures headers == HeadersOf(PiecesOf(encode, fields[..KnownLengths(fields)]))
  {
    var total: nat := 0;
    headers := [];
    for i := 0 to |fields|
      invariant i <= KnownLengths(fields) && IsCounted(boundary, encode, fields[..i], total, headers)
    {
      var valueLength := fields[i].1.ValueLen();
      KnownUpTo(fields, i);
      if valueLength.None? {
        return None, headers;
      }
      var header := encode(fields[i].0, fields[i].1.meta);
      CountStep(boundary, encode, fields, i, total, headers, header, valueLength.value);
      headers := headers + [header];
      total := Wrap(total + FieldLength(boundary, header, valueLength.value));
    }
    CountEnd(boundary, encode, fields, total, headers);
    if fields != [] {
      total := Wrap(total + (2 + |boundary| + 4));
    }
    length := Some(total);
  }

  /** The wrapped length and the header blocks of these fields. */
  ghost predicate IsCounted(boundary: string, encode: HeaderEncoder, fields: Fields, total: nat, headers: seq<string>) {
    total == Wrap(DeclaredLength(boundary, encode, fields)) && headers == HeadersOf(PiecesOf(encode, fields))
  }

  /** What one field adds: dashes, boundary, line breaks, header block and content. */
  function FieldLength(boundary: string, header: string, valueLength: nat): nat {
    2 + |boundary| + 2 + |header| + 4 + valueLength + 2
  }

  /** The exact sum of the declared lengths of all fields. */
  function DeclaredLength(boundary: string, encode: HeaderEncoder, fields: Fields): nat {
    if fields == [] then 0
    else
      var n := |fields| - 1;
      var part := fields[n].1;
      DeclaredLength(boundary, encode, fields[..n]) +
      FieldLength(boundary, encode(fields[n].0, part.meta), if part.ValueLen().Some? then part.ValueLen().value else 0)
  }

  function ClosingLength(boundary: string, fields: Fields): nat {
    if fields == [] then 0 else 2 + |boundary| + 4
  }

  lemma KnownUpTo(fields: Fields, i: nat)
    requires i <= KnownLengths(fields) && i < |fields|
    ensures fields[i].1.ValueLen().None? ==> KnownLengths(fields) == i && !LengthsAreKnown(fields)
    ensures fields[i].1.ValueLen().Some? ==> i < KnownLengths(fields)
  {
    var n := KnownLengths(fields);
    assert i < n ==> fields[i] == fields[..n][i];
  }

  lemma CountStep(boundary: string, encode: HeaderEncoder, fields: Fields, i: nat, total: nat, headers: seq<string>,
                  header: string, length: nat)
    requires i < |fields| && IsCounted(boundary, encode, fields[..i], total, headers)
    requires fields[i].1.ValueLen() == Some(length) && header == encode(fields[i].0, fields[i].1.meta)
    ensures IsCounted(boundary, encode, fields[..i + 1], Wrap(total + FieldLength(boundary, header, length)), headers + [header])
  {
    assert fields[..i + 1][..i] == fields[..i];
    FieldsPush(boundary, encode, fields, i);
    WrapAdds(DeclaredLength(boundary, encode, fields[..i]), FieldLength(boundary, header, length));
  }

  lemma CountEnd(boundary: string, encode: HeaderEncoder, fields: Fields, total: nat, headers: seq<string>)
    requires |fields| <= KnownLengths(fields) && IsCounted(boundary, encode, fields[..|fields|], total, headers)
    ensures LengthsAreKnown(fields) && headers == HeadersOf(PiecesOf(encode, fields[..KnownLengths(fields)]))
    ensures Wrap(DeclaredLength(boundary, encode, fields) + ClosingLength(boundary, fields)) ==
              if fields == [] then total else Wrap(total + (2 + |boundary| + 4))
  {
    assert fields[..|fields|] == fields;
    WrapAdds(DeclaredLength(boundary, encode, fields), 2 + |boundary| + 4);
  }

  /** When every declared length is right, the sum is the length of the stream. */
  lemma DeclaredLengthIsExact(boundary: string, encode: HeaderEncoder, fields: Fields)
    requires LengthsAreKnown(fields) && LengthsAreRight(fields)
    ensures DeclaredLength(boundary, encode, fields) + ClosingLength(boundary, fields) ==
              |StreamText(boundary, PiecesOf(encode, fields))|
  {
    DeclaredIsPieces(boundary, encode, fields);
    var text := PiecesText(boundary, PiecesOf(encode, fields));
    assert |text + Closing(boundary)| == |text| + (2 + |boundary| + 4);
  }

  lemma {:induction false} DeclaredIsPieces(boundary: string, encode: HeaderEncoder, fields: Fields)
    requires LengthsAreKnown(fields) && LengthsAreRight(fields)
    ensures DeclaredLength(boundary, encode, fields) == |PiecesText(boundary, PiecesOf(encode, fields))|
  {
    if fields != [] {
      var n := |fields| - 1;
      assert fields[n].1.LengthIsRight() && fields[n].1.ValueLen().Some?;
      assert fields[..n + 1] == fields;
      DeclaredIsPieces(boundary, encode, fields[..n]);
      FieldsPush(boundary, encode, fields, n);
      PieceLength(boundary, PieceOf(encode, fields[n]));
    }
  }
}
