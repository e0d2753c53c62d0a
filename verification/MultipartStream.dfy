/**
 Reading a multipart stream back: a parser for the framing, and when it recovers the parts.
 */
module MultipartStream {
  import opened Text
  import opened Multipart

  // ----- finding a substring -----

  /** Position of the first occurrence. */
  function IndexOf(needle: string, s: string): Option<nat> {
    if needle <= s then Some(0)
    else if s == "" then None
    else
      var rest := IndexOf(needle, s[1..]);
      if rest.None? then None else Some(rest.value + 1)
  }

  predicate OccursAt(needle: string, s: string, i: nat) {
    i + |needle| <= |s| && s[i..i + |needle|] == needle
  }

  predicate Occurs(needle: string, s: string) {
    exists i | 0 <= i <= |s| :: OccursAt(needle, s, i)
  }

  /** The search stops at the first occurrence. */
  lemma {:induction false} IndexOfFirst(needle: string, s: string, n: nat)
    requires OccursAt(needle, s, n) && forall i | 0 <= i < n :: !OccursAt(needle, s, i)
    ensures IndexOf(needle, s) == Some(n)
    decreases n
  {
    if n == 0 {
      assert s[0..|needle|] == s[..|needle|];
    } else {
      assert !OccursAt(needle, s, 0);
      assert s[1..][n - 1..n - 1 + |needle|] == s[n..n + |needle|];
      forall i | 0 <= i < n - 1 ensures !OccursAt(needle, s[1..], i) {
        assert !OccursAt(needle, s, i + 1);
        if i + |needle| <= |s| - 1 { assert s[1..][i..i + |needle|] == s[i + 1..i + 1 + |needle|]; }
      }
      IndexOfFirst(needle, s[1..], n - 1);
    }
  }

  /** The search never goes past an occurrence. */
  lemma {:induction false} IndexOfBound(needle: string, s: string, n: nat)
    requires OccursAt(needle, s, n)
    ensures IndexOf(needle, s).Some? && IndexOf(needle, s).value <= n
    decreases n
  {
    if n > 0 && !(needle <= s) {
      assert s[1..][n - 1..n - 1 + |needle|] == s[n..n + |needle|];
      IndexOfBound(needle, s[1..], n - 1);
    }
  }

  /** Before the end of `a`, only occurrences inside `a` are possible when the first byte of the needle is unique in it. */
  lemma NoStraddling(d: string, a: string, rest: string, i: nat)
    requires d != "" && (forall j | 0 < j < |d| :: d[j] != d[0]) && i < |a|
    ensures OccursAt(d, a + d + rest, i) <==> OccursAt(d, a, i)
  {
    var s := a + d + rest;
    if i + |d| <= |a| {
      assert s[i..i + |d|] == a[i..i + |d|];
    } else {
      assert s[i..i + |d|][|a| - i] == s[|a|] == d[0];
    }
  }

  /** What precedes the first delimiter is `a`, exactly when the delimiter does not occur in `a`. */
  lemma FirstDelimiter(d: string, a: string, rest: string)
    requires d != "" && forall j | 0 < j < |d| :: d[j] != d[0]
    ensures IndexOf(d, a + d + rest).Some? && IndexOf(d, a + d + rest).value <= |a|
    ensures IndexOf(d, a + d + rest) == Some(|a|) <==> !Occurs(d, a)
  {
    var s := a + d + rest;
    assert s[|a|..|a| + |d|] == d;
    IndexOfBound(d, s, |a|);
    if i :| 0 <= i <= |a| && OccursAt(d, a, i) {
      NoStraddling(d, a, rest, i);
      IndexOfBound(d, s, i);
    } else {
      forall i | 0 <= i < |a| ensures !OccursAt(d, s, i) { NoStraddling(d, a, rest, i); }
      IndexOfFirst(d, s, |a|);
    }
  }

  // ----- the parser -----

  function Dashes(boundary: string): string {
    "--" + boundary
  }

  function Delimiter(boundary: string): string {
    CRLF + Dashes(boundary)
  }

  /** One part from the front of a stream, and what follows it. */
  function ParsePiece(boundary: string, s: string): (r: Option<(Piece, string)>)
    ensures r.Some? ==> |r.value.1| < |s|
  {
    SplitPiece(Opening(boundary), BLANK, Delimiter(boundary), |CRLF|, s)
  }

  /** A part starts with `opening`, its header ends with `blank`, and the next part starts `skip` bytes into `d`. */
  function SplitPiece(opening: string, blank: string, d: string, skip: nat, s: string): (r: Option<(Piece, string)>)
    ensures r.Some? ==> |opening| + |r.value.1| <= |s|
  {
    if !(opening <= s) then None
    else
      var rest := s[|opening|..];
      var h := IndexOf(blank, rest);
      if h.None? || h.value + |blank| > |rest| then None
      else
        var body := rest[h.value + |blank|..];
        var v := IndexOf(d, body);
        if v.None? || v.value + skip > |body| then None
        else Some((Piece(rest[..h.value], body[..v.value]), body[v.value + skip..]))
  }

  function ParsePieces(boundary: string, s: string): Option<seq<Piece>>
    decreases |s|
  {
    if s == Closing(boundary) then Some([])
    else
      var first := ParsePiece(boundary, s);
      if first.None? then None
      else
        var others := ParsePieces(boundary, first.value.1);
        if others.None? then None else Some([first.value.0] + others.value)
  }

  function ParseStream(boundary: string, s: string): Option<seq<Piece>> {
    if s == "" then Some([]) else ParsePieces(boundary, s)
  }

  // ----- what the printer guarantees -----

  /** A header block in which no blank line starts, not even together with the one that follows it. */
  predicate IsClosed(header: string) {
    forall i | 0 <= i < |header| :: !OccursAt(BLANK, header + BLANK, i)
  }

  lemma HeaderEnds(header: string, rest: string)
    requires IsClosed(header)
    ensures IndexOf(BLANK, header + BLANK + rest) == Some(|header|)
  {
    var s, short := header + BLANK + rest, header + BLANK;
    forall i | 0 <= i < |header| ensures !OccursAt(BLANK, s, i) {
      assert !OccursAt(BLANK, short, i);
      assert s[i..i + 4] == short[i..i + 4];
    }
    assert s[|header|..|header| + 4] == BLANK;
    IndexOfFirst(BLANK, s, |header|);
  }

  lemma DelimiterIsUnbordered(boundary: string)
    requires '\r' !in boundary
    ensures Delimiter(boundary) != "" && forall j | 0 < j < |Delimiter(boundary)| :: Delimiter(boundary)[j] != Delimiter(boundary)[0]
  {
    var d := Delimiter(boundary);
    assert d[1] == '\n' && d[2] == d[3] == '-';
    assert forall j | 4 <= j < |d| :: d[j] == boundary[j - 4];
  }

  /** The parser takes the header up to the blank line and the content up to the next delimiter. */
  lemma PieceSplits(opening: string, blank: string, d: string, skip: nat, header: string, body: string)
    requires IndexOf(blank, header + blank + body) == Some(|header|)
    requires var v := IndexOf(d, body); v.Some? && v.value + skip <= |body|
    ensures var v := IndexOf(d, body).value;
            SplitPiece(opening, blank, d, skip, opening + (header + blank + body)) == Some((Piece(header, body[..v]), body[v + skip..]))
  {
    DropPrefix(opening, header + blank + body);
    SplitsAround(header, blank, body);
  }

  lemma SplitsAround(a: string, mid: string, b: string)
    ensures (a + mid + b)[..|a|] == a && (a + mid + b)[|a| + |mid|..] == b
  {
  }

  /** Where the content of a printed part is taken to end. */
  lemma ContentEnds(boundary: string, value: string, tail: string)
    requires '\r' !in boundary
    ensures var body := value + Delimiter(boundary) + tail;
            var v := IndexOf(Delimiter(boundary), body);
            && v.Some? && v.value <= |value| && v.value + |CRLF| <= |body| && |body[..v.value]| == v.value
            && (v.value == |value| <==> !Occurs(Delimiter(boundary), value))
            && body[..|value|] == value && body[|value| + |CRLF|..] == Dashes(boundary) + tail
  {
    DelimiterIsUnbordered(boundary);
    FirstDelimiter(Delimiter(boundary), value, tail);
    assert value + Delimiter(boundary) + tail == value + CRLF + (Dashes(boundary) + tail);
  }

  /** Reading one printed part gives it back exactly when its content does not hold the delimiter. */
  lemma ParsePieceReads(boundary: string, p: Piece, more: string)
    requires '\r' !in boundary && IsClosed(p.header) && Dashes(boundary) <= more
    ensures var r := ParsePiece(boundary, PieceText(boundary, p) + more);
            && r.Some? && r.value.0.header == p.header && |r.value.0.value| <= |p.value|
            && (r == Some((p, more)) <==> !Occurs(Delimiter(boundary), p.value))
            && (r.value.0.value == p.value ==> r == Some((p, more)))
  {
    var tail := more[|Dashes(boundary)|..];
    assert Dashes(boundary) + tail == more;
    AfterOpening(boundary, p, more);
    ContentEnds(boundary, p.value, tail);
    HeaderEnds(p.header, p.value + Delimiter(boundary) + tail);
    PieceSplits(Opening(boundary), BLANK, Delimiter(boundary), |CRLF|, p.header, p.value + Delimiter(boundary) + tail);
  }

  lemma AfterOpening(boundary: string, p: Piece, more: string)
    requires Dashes(boundary) <= more
    ensures PieceText(boundary, p) + more ==
              Opening(boundary) + (p.header + BLANK + (p.value + Delimiter(boundary) + more[|Dashes(boundary)|..]))
  {
    var tail := more[|Dashes(boundary)|..];
    assert more == Dashes(boundary) + tail;
    assert p.value + Delimiter(boundary) + tail == p.value + CRLF + more;
  }

  lemma {:induction false} PiecesFront(boundary: string, p: Piece, rest: seq<Piece>)
    ensures PiecesText(boundary, [p] + rest) == PieceText(boundary, p) + PiecesText(boundary, rest)
  {
    if rest == [] {
      assert [p] + rest == [] + [p];
      PushPiece(boundary, [], p);
      assert "" + PieceText(boundary, p) == PieceText(boundary, p) + "";
    } else {
      var front, last := rest[..|rest| - 1], rest[|rest| - 1];
      assert rest == front + [last] && [p] + rest == ([p] + front) + [last];
      PushPiece(boundary, [p] + front, last);
      PushPiece(boundary, front, last);
      PiecesFront(boundary, p, front);
      Associative(PieceText(boundary, p), PiecesText(boundary, front), PieceText(boundary, last));
    }
  }

  lemma StreamStartsWithDashes(boundary: string, pieces: seq<Piece>)
    ensures Dashes(boundary) <= PiecesText(boundary, pieces) + Closing(boundary)
  {
    if pieces == [] {
      assert PiecesText(boundary, pieces) + Closing(boundary) == Dashes(boundary) + ("--" + CRLF);
    } else {
      assert pieces == [pieces[0]] + pieces[1..];
      PiecesFront(boundary, pieces[0], pieces[1..]);
      assert Dashes(boundary) <= Opening(boundary) <= PieceText(boundary, pieces[0]);
    }
  }

  lemma OpeningIsNotClosing(boundary: string, p: Piece, more: string)
    ensures PieceText(boundary, p) + more != Closing(boundary)
  {
    var s := PieceText(boundary, p) + more;
    assert s[2 + |boundary|] == Opening(boundary)[2 + |boundary|] == '\r';
    assert Closing(boundary)[2 + |boundary|] == '-';
  }

  ghost predicate ContentIsSafe(boundary: string, pieces: seq<Piece>) {
    forall p | p in pieces :: !Occurs(Delimiter(boundary), p.value)
  }

  predicate SameValues(a: seq<Piece>, b: seq<Piece>) {
    |a| == |b| && forall i | 0 <= i < |a| :: a[i].value == b[i].value
  }

  lemma {:induction false} ParsePiecesReads(boundary: string, pieces: seq<Piece>)
    requires '\r' !in boundary && forall p | p in pieces :: IsClosed(p.header)
    ensures var r := ParsePieces(boundary, PiecesText(boundary, pieces) + Closing(boundary));
            && (ContentIsSafe(boundary, pieces) ==> r == Some(pieces))
            && (r.Some? && SameValues(r.value, pieces) ==> ContentIsSafe(boundary, pieces))
  {
    if pieces == [] {
      assert PiecesText(boundary, pieces) + Closing(boundary) == Closing(boundary);
    } else {
      var p, rest := pieces[0], pieces[1..];
      assert pieces == [p] + rest && p in pieces;
      var more := PiecesText(boundary, rest) + Closing(boundary);
      PiecesFront(boundary, p, rest);
      Associative(PieceText(boundary, p), PiecesText(boundary, rest), Closing(boundary));
      assert PiecesText(boundary, pieces) + Closing(boundary) == PieceText(boundary, p) + more;
      StreamStartsWithDashes(boundary, rest);
      OpeningIsNotClosing(boundary, p, more);
      ParsePieceReads(boundary, p, more);
      ParsePiecesReads(boundary, rest);
      assert ContentIsSafe(boundary, pieces) <==>
        !Occurs(Delimiter(boundary), p.value) && ContentIsSafe(boundary, rest);
      FirstDecides(boundary, PieceText(boundary, p) + more, p, rest, more);
    }
  }

  lemma FirstDecides(boundary: string, s: string, p: Piece, rest: seq<Piece>, more: string)
    requires s != Closing(boundary)
    requires var r := ParsePiece(boundary, s); r.Some? && (r.value.0.value == p.value ==> r == Some((p, more)))
    ensures var first, all, others := ParsePiece(boundary, s), ParsePieces(boundary, s), ParsePieces(boundary, more);
            && (first == Some((p, more)) && others == Some(rest) ==> all == Some([p] + rest))
            && (all.Some? && SameValues(all.value, [p] + rest) ==>
                  first == Some((p, more)) && others.Some? && SameValues(others.value, rest))
  {
    var first := ParsePiece(boundary, s);
    var others := ParsePieces(boundary, first.value.1);
    if others.Some? && SameValues([first.value.0] + others.value, [p] + rest) {
      SameValuesSplit(first.value.0, others.value, p, rest);
    }
  }

  lemma SameValuesSplit(x: Piece, xs: seq<Piece>, y: Piece, ys: seq<Piece>)
    requires SameValues([x] + xs, [y] + ys)
    ensures x.value == y.value && SameValues(xs, ys)
  {
    var a, b := [x] + xs, [y] + ys;
    assert a[0] == x && b[0] == y;
    forall i | 0 <= i < |xs| ensures xs[i].value == ys[i].value {
      assert a[i + 1] == xs[i] && b[i + 1] == ys[i];
    }
  }

  /**
   For a boundary without CR and header blocks without a blank line, the stream can be read back to exactly
   the parts it was printed from, exactly when no content holds CR LF, two dashes and the boundary.
   Otherwise not even the contents come back.
   */
  lemma StreamReadsBackIffSafe(boundary: string, pieces: seq<Piece>)
    requires '\r' !in boundary && forall p | p in pieces :: IsClosed(p.header)
    ensures ParseStream(boundary, StreamText(boundary, pieces)) == Some(pieces) <==> ContentIsSafe(boundary, pieces)
    ensures var r := ParseStream(boundary, StreamText(boundary, pieces));
            r.Some? && SameValues(r.value, pieces) ==> ContentIsSafe(boundary, pieces)
  {
    if pieces != [] {
      ParsePiecesReads(boundary, pieces);
      assert StreamText(boundary, pieces) != "";
    }
  }
}
