/**
 Reading a whole form back: the round trip from fields to bytes and back, for every encoding of the names.
 */
module MultipartForm {
  import opened Text
  import opened Percent
  import opened Multipart
  import opened MultipartStream
  import opened MultipartHeaders
  import opened MultipartReader

  // ----- the reader -----

  /** What a receiver learns about a field. */
  datatype Field = Field(name: string, meta: Metadata, value: string)

  function FieldOf(field: (string, Part)): Field {
    Field(field.0, field.1.meta, field.1.value)
  }

  function FieldsOf(fields: Fields): seq<Field> {
    if fields == [] then [] else [FieldOf(fields[0])] + FieldsOf(fields[1..])
  }

  function ReadPiece(decode: bool, p: Piece): Option<Field> {
    var block := ReadBlock(decode, p.header);
    if block.None? then None else Some(Field(block.value.0, block.value.1, p.value))
  }

  function ReadPieces(decode: bool, pieces: seq<Piece>): Option<seq<Field>> {
    if pieces == [] then Some([])
    else
      var first, rest := ReadPiece(decode, pieces[0]), ReadPieces(decode, pieces[1..]);
      if first.None? || rest.None? then None else Some([first.value] + rest.value)
  }

  /** Splits a stream into parts and reads the header block of each; `decode` tells whether names were percent-encoded. */
  function ReadForm(decode: bool, boundary: string, s: string): Option<seq<Field>> {
    var pieces := ParseStream(boundary, s);
    if pieces.None? then None else ReadPieces(decode, pieces.value)
  }

  // ----- what can be read back -----

  predicate IsValidField(field: (string, Part)) {
    IsBytes(field.0) && IsValidMeta(field.1.meta)
  }

  predicate AreValidFields(fields: Fields) {
    forall i | 0 <= i < |fields| :: IsValidField(fields[i])
  }

  /** Without percent-encoding a name must hold neither a quote nor a blank line. */
  predicate IsSafeName(e: Encoding, name: string) {
    e == NoOp ==> '\"' !in name && !Occurs(BLANK, name)
  }

  /** No content holds the delimiter and every name can be told apart from its surroundings. */
  predicate IsSafeForm(boundary: string, e: Encoding, fields: Fields) {
    forall i | 0 <= i < |fields| :: IsSafeField(boundary, e, fields[i])
  }

  predicate IsSafeField(boundary: string, e: Encoding, field: (string, Part)) {
    IsSafeName(e, field.0) && !Occurs(Delimiter(boundary), field.1.value)
  }

  // ----- one field -----

  lemma BlockIsClosed(e: Encoding, name: string, m: Metadata)
    requires IsBytes(name) && IsValidMeta(m) && (e == NoOp ==> !Occurs(BLANK, name))
    ensures IsClosed(HeaderBlock(e, name, m))
  {
    if e == NoOp {
      UnencodedBlockIsClosed(name, m);
    } else {
      HeaderBlockIsClosed(e, name, m);
    }
  }

  /** The first field of a stream is read back, and the reader goes on right behind it, exactly when the field is safe. */
  lemma FieldReadsIffSafe(boundary: string, e: Encoding, field: (string, Part), more: string)
    requires '\r' !in boundary && IsValidField(field) && Dashes(boundary) <= more
    ensures var p := PieceOf(EncoderOf(e), field);
            var r := ParsePiece(boundary, PieceText(boundary, p) + more);
            if IsSafeField(boundary, e, field) then
              r == Some((p, more)) && ReadPiece(e != NoOp, p) == Some(FieldOf(field))
            else
              r.Some? ==> ReadPiece(e != NoOp, r.value.0) != Some(FieldOf(field))
  {
    var (name, part) := field;
    var p := PieceOf(EncoderOf(e), field);
    if e == NoOp && Occurs(BLANK, name) {
      UnclosedFieldIsLost(boundary, field, more);
    } else {
      BlockIsClosed(e, name, part.meta);
      ParsePieceReads(boundary, p, more);
      BlockReadsIffPlainName(e, name, part.meta);
    }
  }

  lemma UnclosedFieldIsLost(boundary: string, field: (string, Part), more: string)
    requires IsValidField(field) && Dashes(boundary) <= more && Occurs(BLANK, field.0)
    ensures var r := ParsePiece(boundary, PieceText(boundary, PieceOf(EncoderOf(NoOp), field)) + more);
            r.Some? ==> ReadPiece(false, r.value.0) != Some(FieldOf(field))
  {
    var p := PieceOf(EncoderOf(NoOp), field);
    var body := p.value + Delimiter(boundary) + more[|Dashes(boundary)|..];
    AfterOpening(boundary, p, more);
    BlankLosesName(field.0, field.1.meta, body);
    HeaderIsCut(boundary, PieceText(boundary, p) + more, p.header + BLANK + body);
  }

  /** The header of the first part of a stream is what precedes the first blank line. */
  lemma HeaderIsCut(boundary: string, s: string, rest: string)
    requires s == Opening(boundary) + rest && IndexOf(BLANK, rest).Some? && IndexOf(BLANK, rest).value <= |rest|
    ensures var r := ParsePiece(boundary, s); r.Some? ==> r.value.0.header == rest[..IndexOf(BLANK, rest).value]
  {
    DropPrefix(Opening(boundary), rest);
  }

  // ----- whole forms -----

  lemma {:induction false} PiecesOfFront(encode: HeaderEncoder, field: (string, Part), rest: Fields)
    ensures PiecesOf(encode, [field] + rest) == [PieceOf(encode, field)] + PiecesOf(encode, rest)
  {
    var all := [field] + rest;
    if rest == [] {
      assert all == [field] && all[..0] == [];
    } else {
      var n := |rest| - 1;
      assert all[..|all| - 1] == [field] + rest[..n];
      PiecesOfFront(encode, field, rest[..n]);
      Associative([PieceOf(encode, field)], PiecesOf(encode, rest[..n]), [PieceOf(encode, rest[n])]);
    }
  }

  lemma ReadPiecesSplit(decode: bool, p: Piece, pieces: seq<Piece>, f: Field, fields: seq<Field>)
    ensures ReadPieces(decode, [p] + pieces) == Some([f] + fields) <==>
            ReadPiece(decode, p) == Some(f) && ReadPieces(decode, pieces) == Some(fields)
  {
    assert ([p] + pieces)[1..] == pieces && ([p] + pieces)[0] == p;
    var first, rest := ReadPiece(decode, p), ReadPieces(decode, pieces);
    if first.Some? && rest.Some? {
      assert ([first.value] + rest.value)[0] == first.value && ([first.value] + rest.value)[1..] == rest.value;
      assert ([f] + fields)[0] == f && ([f] + fields)[1..] == fields;
    }
  }

  /** Reading the parts of `s` gives exactly these fields. */
  ghost predicate ReadsAs(decode: bool, boundary: string, s: string, fields: seq<Field>) {
    var pieces := ParsePieces(boundary, s);
    pieces.Some? && ReadPieces(decode, pieces.value) == Some(fields)
  }

  lemma FirstFieldDecides(decode: bool, boundary: string, s: string, f: Field, fields: seq<Field>)
    requires s != Closing(boundary)
    ensures ReadsAs(decode, boundary, s, [f] + fields) <==>
            var first := ParsePiece(boundary, s);
            first.Some? && ReadPiece(decode, first.value.0) == Some(f) && ReadsAs(decode, boundary, first.value.1, fields)
  {
    var first := ParsePiece(boundary, s);
    if first.Some? {
      var others := ParsePieces(boundary, first.value.1);
      if others.Some? { ReadPiecesSplit(decode, first.value.0, others.value, f, fields); }
    }
  }

  /** The text of a form is the text of its first field and the text of the others. */
  lemma FormTextFront(boundary: string, encode: HeaderEncoder, field: (string, Part), rest: Fields)
    ensures var others := PiecesText(boundary, PiecesOf(encode, rest)) + Closing(boundary);
            && PiecesText(boundary, PiecesOf(encode, [field] + rest)) + Closing(boundary) ==
                 PieceText(boundary, PieceOf(encode, field)) + others
            && Dashes(boundary) <= others
  {
    var p, others := PieceOf(encode, field), PiecesOf(encode, rest);
    PiecesOfFront(encode, field, rest);
    PiecesFront(boundary, p, others);
    Associative(PieceText(boundary, p), PiecesText(boundary, others), Closing(boundary));
    StreamStartsWithDashes(boundary, others);
  }

  /** The printed form reads as its own fields. */
  ghost predicate ReadsBack(boundary: string, e: Encoding, fields: Fields) {
    ReadsAs(e != NoOp, boundary, PiecesText(boundary, PiecesOf(EncoderOf(e), fields)) + Closing(boundary), FieldsOf(fields))
  }

  lemma FieldStep(boundary: string, e: Encoding, field: (string, Part), fields: seq<Field>, more: string)
    requires '\r' !in boundary && IsValidField(field) && Dashes(boundary) <= more
    ensures ReadsAs(e != NoOp, boundary, PieceText(boundary, PieceOf(EncoderOf(e), field)) + more, [FieldOf(field)] + fields) <==>
            IsSafeField(boundary, e, field) && ReadsAs(e != NoOp, boundary, more, fields)
  {
    var p := PieceOf(EncoderOf(e), field);
    OpeningIsNotClosing(boundary, p, more);
    FirstFieldDecides(e != NoOp, boundary, PieceText(boundary, p) + more, FieldOf(field), fields);
    FieldReadsIffSafe(boundary, e, field, more);
  }

  lemma ReadsBackStep(boundary: string, e: Encoding, field: (string, Part), rest: Fields)
    requires '\r' !in boundary && IsValidField(field)
    ensures ReadsBack(boundary, e, [field] + rest) <==> IsSafeField(boundary, e, field) && ReadsBack(boundary, e, rest)
  {
    var all := [field] + rest;
    assert all[0] == field && all[1..] == rest;
    FormTextFront(boundary, EncoderOf(e), field, rest);
    FieldStep(boundary, e, field, FieldsOf(rest), PiecesText(boundary, PiecesOf(EncoderOf(e), rest)) + Closing(boundary));
  }

  lemma {:induction false} FieldsReadIffSafe(boundary: string, e: Encoding, fields: Fields)
    requires '\r' !in boundary && AreValidFields(fields)
    ensures ReadsBack(boundary, e, fields) <==> IsSafeForm(boundary, e, fields)
  {
    if fields == [] {
      assert PiecesText(boundary, PiecesOf(EncoderOf(e), fields)) + Closing(boundary) == Closing(boundary);
    } else {
      var field, rest := fields[0], fields[1..];
      assert fields == [field] + rest && IsValidField(field);
      ReadsBackStep(boundary, e, field, rest);
      FieldsReadIffSafe(boundary, e, rest);
      SafeFormSplits(boundary, e, field, rest);
    }
  }

  lemma SafeFormSplits(boundary: string, e: Encoding, field: (string, Part), rest: Fields)
    ensures IsSafeForm(boundary, e, [field] + rest) <==> IsSafeField(boundary, e, field) && IsSafeForm(boundary, e, rest)
  {
    var all := [field] + rest;
    assert all[0] == field;
    assert forall i | 0 <= i < |rest| :: all[i + 1] == rest[i];
  }

  /**
   A form comes back with every name, file name, media type, header and content, exactly when no content holds
   CR LF, two dashes and the boundary and, without percent-encoding, no name holds a quote or a blank line.
   */
  lemma FormReadsBackIffSafe(boundary: string, e: Encoding, fields: Fields)
    requires '\r' !in boundary && AreValidFields(fields)
    ensures ReadForm(e != NoOp, boundary, StreamText(boundary, PiecesOf(EncoderOf(e), fields))) == Some(FieldsOf(fields))
            <==> IsSafeForm(boundary, e, fields)
  {
    if fields != [] {
      FieldsReadIffSafe(boundary, e, fields);
      assert StreamText(boundary, PiecesOf(EncoderOf(e), fields)) != "";
    }
  }

  /** Two safe forms with the same bytes have the same fields, also when they use different percent-encodings. */
  lemma SafeFormsAreUnique(boundary: string, e: Encoding, a: Fields, f: Encoding, b: Fields)
    requires '\r' !in boundary && (e == NoOp <==> f == NoOp) && AreValidFields(a) && AreValidFields(b)
    requires IsSafeForm(boundary, e, a) && IsSafeForm(boundary, f, b)
    requires StreamText(boundary, PiecesOf(EncoderOf(e), a)) == StreamText(boundary, PiecesOf(EncoderOf(f), b))
    ensures FieldsOf(a) == FieldsOf(b)
  {
    FormReadsBackIffSafe(boundary, e, a);
    FormReadsBackIffSafe(boundary, f, b);
  }

  /** Without percent-encoding a name that holds a quote prints like a shorter name with a file name. */
  lemma UnencodedNamesAreAmbiguous(a: string, b: string)
    requires IsBytes(a) && IsBytes(a + "\"; filename=\"" + b) && LegalFileName(b) == b
    ensures HeaderBlock(NoOp, a + "\"; filename=\"" + b, Metadata(None, None, [])) ==
              HeaderBlock(NoOp, a, Metadata(None, Some(b), []))
  {
    var name := a + "\"; filename=\"" + b;
    assert "name=\"" + name + "\"" + "" == "name=\"" + a + "\"" + (FILE_NAME + b + "\"");
    Associative(DISPOSITION, "name=\"" + name + "\"", "");
    Associative(DISPOSITION, "name=\"" + a + "\"", FILE_NAME + b + "\"");
  }

  // ----- the bytes -----

  /** The lines of further headers. */
  function HeaderBytes(headers: seq<(string, string)>): string {
    if headers == [] then "" else "\r\n" + headers[0].0 + ": " + headers[0].1 + HeaderBytes(headers[1..])
  }

  lemma {:induction false} HeaderLinesAreBytes(headers: seq<(string, string)>)
    ensures LinesText(HeaderLines(headers)) == HeaderBytes(headers)
  {
    if headers != [] {
      var first, rest := headers[0], headers[1..];
      HeaderLinesAreBytes(rest);
      assert HeaderLines(headers) == [HeaderLine(first)] + HeaderLines(rest);
      LinesFront(HeaderLine(first), HeaderLines(rest));
      assert CRLF + HeaderLine(first) == "\r\n" + first.0 + ": " + first.1;
    }
  }

  lemma MetaLinesAreBytes(m: Metadata)
    ensures LinesText(MetaLines(m)) == (if m.mime.Some? then "\r\nContent-Type: " + m.mime.value else "") + HeaderBytes(m.headers)
  {
    HeaderLinesAreBytes(m.headers);
    if m.mime.Some? {
      LinesFront(CONTENT_TYPE + m.mime.value, HeaderLines(m.headers));
      assert CRLF + (CONTENT_TYPE + m.mime.value) == "\r\nContent-Type: " + m.mime.value;
    } else {
      assert MetaLines(m) == HeaderLines(m.headers);
    }
  }

  /** The header block of a field, byte by byte. */
  lemma BlockBytes(e: Encoding, name: string, m: Metadata)
    requires IsBytes(name)
    ensures HeaderBlock(e, name, m) ==
              "Content-Disposition: form-data; " +
              (if EncodeName(e, name) == name || |name| == 1 then "name=\"" + EncodeName(e, name) + "\""
               else "name*=utf-8''" + EncodeName(e, name)) +
              (if m.fileName.Some? then "; filename=\"" + Escape(m.fileName.value) + "\"" else "") +
              ((if m.mime.Some? then "\r\nContent-Type: " + m.mime.value else "") + HeaderBytes(m.headers))
  {
    MetaLinesAreBytes(m);
    if m.fileName.Some? { ReplacementsAreEscape(m.fileName.value); }
  }

  /** The bytes of a form: for each field two dashes, the boundary, the header block, a blank line and the content, and at
      the end the boundary between dashes. */
  function FormBytes(boundary: string, e: Encoding, fields: Fields): string {
    if fields == [] then "--" + boundary + "--\r\n"
    else
      "--" + boundary + "\r\n" + EncoderOf(e)(fields[0].0, fields[0].1.meta) + "\r\n\r\n" + fields[0].1.value + "\r\n" +
      FormBytes(boundary, e, fields[1..])
  }

  lemma {:induction false} StreamIsFormBytes(boundary: string, e: Encoding, fields: Fields)
    ensures StreamText(boundary, PiecesOf(EncoderOf(e), fields)) == if fields == [] then "" else FormBytes(boundary, e, fields)
  {
    if fields != [] { PiecesAreFormBytes(boundary, e, fields); }
  }

  lemma {:induction false} PiecesAreFormBytes(boundary: string, e: Encoding, fields: Fields)
    ensures PiecesText(boundary, PiecesOf(EncoderOf(e), fields)) + Closing(boundary) == FormBytes(boundary, e, fields)
  {
    if fields == [] {
      assert "" + Closing(boundary) == "--" + boundary + "--\r\n";
    } else {
      assert fields == [fields[0]] + fields[1..];
      FormTextFront(boundary, EncoderOf(e), fields[0], fields[1..]);
      PiecesAreFormBytes(boundary, e, fields[1..]);
      PieceBytes(boundary, PieceOf(EncoderOf(e), fields[0]));
    }
  }

  lemma PieceBytes(boundary: string, p: Piece)
    ensures PieceText(boundary, p) == "--" + boundary + "\r\n" + p.header + "\r\n\r\n" + p.value + "\r\n"
  {
    Associative(Opening(boundary), p.header, BLANK);
  }

  // ----- quoted names -----

  /** A name of one space is printed encoded, but in the quoted form, and so like a plain name that holds the escape. */
  lemma SpaceIsQuotedEncoded(m: Metadata)
    ensures NameParameter(PathSegment, " ") == "name=\"%20\"" == NameParameter(NoOp, "%20")
    ensures HeaderBlock(PathSegment, " ", m) == HeaderBlock(NoOp, "%20", m)
  {
    assert PATH_RESERVED[0] == ' ' && Encodes(PATH_SEGMENT, ' ');
    assert Encode(PATH_SEGMENT, " ") == EncodeByte(' ') + Encode(PATH_SEGMENT, "");
    assert EncodeByte(' ') == "%20";
  }

  /** The quoted form carries a text other than the name exactly when the name is one byte and that byte is encoded. */
  lemma QuotedTextDiffersIffOneEncodedByte(e: Encoding, name: string)
    requires e != NoOp && IsBytes(name)
    ensures (exists t: string :: t != name && NameParameter(e, name) == QUOTED + t + "\"") <==>
            |name| == 1 && Encodes(if e == PathSegment then PATH_SEGMENT else ATTR_CHAR, name[0])
  {
    var table := if e == PathSegment then PATH_SEGMENT else ATTR_CHAR;
    var text, parameter := EncodeName(e, name), NameParameter(e, name);
    EncodeIsIdentityIffClean(table, name);
    assert QUOTED[4] == '=' && STARRED[4] == '*';
    if IsOnePiece(e, name) {
      assert parameter == QUOTED + text + "\"";
      if t: string :| t != name && parameter == QUOTED + t + "\"" {
        QuotedTextIsUnique(text, t);
      }
    } else {
      assert parameter == STARRED + text && parameter[4] == '*';
      assert forall t: string :: (QUOTED + t + "\"")[4] == '=';
    }
  }

  lemma QuotedTextIsUnique(a: string, b: string)
    requires QUOTED + a + "\"" == QUOTED + b + "\""
    ensures a == b
  {
    var s, t := QUOTED + a + "\"", QUOTED + b + "\"";
    assert s[|QUOTED|..|s| - 1] == a && t[|QUOTED|..|t| - 1] == b;
  }
}
