/**
 Percent-encoding of byte strings, as the percent-encoding library does it: bytes of 128 and above
 are always encoded, and decoding leaves a percent sign without two hexadecimal digits alone.
 */
module Percent {
  /** The ASCII bytes that an encode set lists. */
  type AsciiSet = char -> bool

  predicate IsBytes(s: string) {
    forall i | 0 <= i < |s| :: s[i] as int < 256
  }

  predicate IsControl(c: char) {
    (c as int) < 32 || (c as int) == 127
  }

  predicate IsAlphanumeric(c: char) {
    '0' <= c <= '9' || 'A' <= c <= 'Z' || 'a' <= c <= 'z'
  }

  predicate IsHex(c: char) {
    '0' <= c <= '9' || 'A' <= c <= 'F' || 'a' <= c <= 'f'
  }

  function HexValue(c: char): (v: nat)
    requires IsHex(c)
    ensures v < 16
  {
    if c <= '9' then c as int - '0' as int
    else if c <= 'F' then c as int - 'A' as int + 10
    else c as int - 'a' as int + 10
  }

  function HexDigit(v: nat): (c: char)
    requires v < 16
    ensures IsHex(c) && HexValue(c) == v && c <= 'F'
  {
    if v < 10 then ('0' as int + v) as char else ('A' as int + v - 10) as char
  }

  predicate Encodes(table: AsciiSet, c: char) {
    c as int >= 128 || table(c)
  }

  function EncodeByte(c: char): (r: string)
    requires c as int < 256
    ensures |r| == 3 && r[0] == '%' && IsHex(r[1]) && IsHex(r[2]) && r[1] <= 'F' && r[2] <= 'F'
    ensures HexValue(r[1]) * 16 + HexValue(r[2]) == c as int
  {
    ['%', HexDigit(c as int / 16), HexDigit(c as int % 16)]
  }

  function Encode(table: AsciiSet, s: string): string
    requires IsBytes(s)
  {
    if s == "" then ""
    else (if Encodes(table, s[0]) then EncodeByte(s[0]) else [s[0]]) + Encode(table, s[1..])
  }

  /** `s` starts with a complete escape. */
  predicate StartsWithEscape(s: string) {
    |s| >= 3 && s[0] == '%' && IsHex(s[1]) && IsHex(s[2])
  }

  function Decode(s: string): string {
    if s == "" then ""
    else if StartsWithEscape(s) then [(HexValue(s[1]) * 16 + HexValue(s[2])) as char] + Decode(s[3..])
    else [s[0]] + Decode(s[1..])
  }

  // ----- what is left after encoding -----

  lemma {:induction false} EncodedBytes(table: AsciiSet, s: string)
    requires IsBytes(s)
    ensures forall i | 0 <= i < |Encode(table, s)| ::
              var c := Encode(table, s)[i]; c == '%' || IsHex(c) || !Encodes(table, c)
  {
    if s != "" { EncodedBytes(table, s[1..]); }
  }

  lemma {:induction false} EncodeIsIdentityIffClean(table: AsciiSet, s: string)
    requires IsBytes(s)
    ensures |Encode(table, s)| >= |s|
    ensures (forall i | 0 <= i < |s| :: !Encodes(table, s[i])) <==> Encode(table, s) == s
    ensures (forall i | 0 <= i < |s| :: !Encodes(table, s[i])) <==> |Encode(table, s)| == |s|
  {
    if s != "" {
      EncodeIsIdentityIffClean(table, s[1..]);
      assert s == [s[0]] + s[1..];
      if forall i | 0 <= i < |s[1..]| :: !Encodes(table, s[1..][i]) {
        assert forall i | 1 <= i < |s| :: s[i] == s[1..][i - 1];
      } else {
        var i :| 0 <= i < |s[1..]| && Encodes(table, s[1..][i]);
        assert Encodes(table, s[i + 1]);
      }
    }
  }

  // ----- round trips -----

  lemma DecodeEncodedByte(c: char, rest: string)
    requires c as int < 256
    ensures Decode(EncodeByte(c) + rest) == [c] + Decode(rest)
  {
    var s := EncodeByte(c) + rest;
    assert s[3..] == rest && StartsWithEscape(s);
  }

  lemma DecodePlainByte(c: char, rest: string)
    requires !StartsWithEscape([c] + rest)
    ensures Decode([c] + rest) == [c] + Decode(rest)
  {
    assert ([c] + rest)[1..] == rest;
  }

  /** A set that encodes the percent sign is always undone by decoding. */
  lemma {:induction false} DecodeUndoesEncode(table: AsciiSet, s: string)
    requires IsBytes(s) && Encodes(table, '%')
    ensures Decode(Encode(table, s)) == s
  {
    if s != "" {
      var rest := Encode(table, s[1..]);
      DecodeUndoesEncode(table, s[1..]);
      if Encodes(table, s[0]) {
        DecodeEncodedByte(s[0], rest);
      } else {
        DecodePlainByte(s[0], rest);
      }
      assert s == [s[0]] + s[1..];
    }
  }

  /** Somewhere in `s` there is a complete escape. */
  predicate HasEscape(s: string) {
    exists i | 0 <= i < |s| :: StartsWithEscape(s[i..])
  }

  /** A set that leaves the percent sign and hexadecimal digits alone does not change what decoding gives. */
  lemma {:induction false} DecodeIgnoresEncode(table: AsciiSet, s: string)
    requires IsBytes(s) && !Encodes(table, '%') && forall c | IsHex(c) :: !Encodes(table, c)
    ensures Decode(Encode(table, s)) == Decode(s)
  {
    if s != "" {
      var rest := Encode(table, s[1..]);
      assert s == [s[0]] + s[1..];
      if Encodes(table, s[0]) {
        DecodeIgnoresEncode(table, s[1..]);
        DecodeEncodedByte(s[0], rest);
        DecodePlainByte(s[0], s[1..]);
      } else if StartsWithEscape(s) {
        DecodeIgnoresEncode(table, s[3..]);
        EscapeStays(table, s);
      } else {
        DecodeIgnoresEncode(table, s[1..]);
        NoNewEscape(table, s);
        DecodePlainByte(s[0], rest);
        DecodePlainByte(s[0], s[1..]);
      }
    }
  }

  lemma EscapeStays(table: AsciiSet, s: string)
    requires IsBytes(s) && !Encodes(table, '%') && (forall c | IsHex(c) :: !Encodes(table, c)) && StartsWithEscape(s)
    ensures Encode(table, s) == s[..3] + Encode(table, s[3..])
  {
    assert s[1..][1..] == s[2..] && s[2..][1..] == s[3..];
    assert Encode(table, s[2..]) == [s[2]] + Encode(table, s[3..]);
    assert Encode(table, s[1..]) == [s[1]] + Encode(table, s[2..]);
    assert Encode(table, s) == [s[0]] + Encode(table, s[1..]);
  }

  lemma NoNewEscape(table: AsciiSet, s: string)
    requires IsBytes(s) && s != "" && !Encodes(table, s[0]) && !StartsWithEscape(s)
    ensures !StartsWithEscape([s[0]] + Encode(table, s[1..]))
  {
    var rest := Encode(table, s[1..]);
    if s[0] == '%' && |s| > 1 && !Encodes(table, s[1]) {
      assert s[1..][1..] == s[2..];
      assert rest == [s[1]] + Encode(table, s[2..]);
    }
  }

  /** Decoding changes a string exactly when it holds a complete escape. */
  lemma {:induction false} DecodeIsIdentityIffNoEscape(s: string)
    ensures |Decode(s)| <= |s|
    ensures Decode(s) == s <==> !HasEscape(s)
    ensures HasEscape(s) ==> |Decode(s)| < |s|
  {
    if s != "" {
      assert s[0..] == s;
      if StartsWithEscape(s) {
        DecodeIsIdentityIffNoEscape(s[3..]);
        assert HasEscape(s);
      } else {
        var t := s[1..];
        DecodeIsIdentityIffNoEscape(t);
        assert HasEscape(s) <==> HasEscape(t) by {
          if i :| 0 <= i < |s| && StartsWithEscape(s[i..]) { assert i > 0 && t[i - 1..] == s[i..]; }
          if i :| 0 <= i < |t| && StartsWithEscape(t[i..]) { assert s[i + 1..] == t[i..]; }
        }
        assert s == [s[0]] + t;
      }
    }
  }
}
