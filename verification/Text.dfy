/**
 Byte strings. A `string` stands for the UTF-8 encoding of a Rust `str` (or for
 a raw byte buffer): every `char` is one byte, so lengths are byte lengths.
 */
module Text {

  datatype Option<+T> = None | Some(value: T)

  predicate StartsWith(s: string, prefix: string) {
    prefix <= s
  }

  predicate EndsWith(s: string, suffix: string) {
    |suffix| <= |s| && s[|s| - |suffix|..] == suffix
  }

  /** Removes one leading dot, when there is one. */
  function StripDot(s: string): string {
    if s != [] && s[0] == '.' then s[1..] else s
  }

  function LowerChar(c: char): char {
    if 'A' <= c <= 'Z' then c + 32 as char else c
  }

  function Lower(s: string): (r: string)
    ensures |r| == |s|
  {
    seq(|s|, i requires 0 <= i < |s| => LowerChar(s[i]))
  }

  /** ASCII case-insensitive equality of byte strings. */
  predicate EqIgnoreCase(a: string, b: string) {
    Lower(a) == Lower(b)
  }

  /** The same byte, or one letter in its two cases. */
  predicate SameLetter(a: char, b: char) {
    a == b || ('A' <= a <= 'Z' && b as int == a as int + 32) || ('A' <= b <= 'Z' && a as int == b as int + 32)
  }

  /** Case is ignored for ASCII letters and for nothing else. */
  lemma EqIgnoreCaseIsBytewise(a: string, b: string)
    ensures EqIgnoreCase(a, b) <==> |a| == |b| && forall i | 0 <= i < |a| :: SameLetter(a[i], b[i])
  {
    if EqIgnoreCase(a, b) {
      assert |a| == |Lower(a)| == |Lower(b)| == |b|;
      forall i | 0 <= i < |a| ensures SameLetter(a[i], b[i]) { assert Lower(a)[i] == Lower(b)[i]; }
    }
  }

  function Min(a: int, b: int): int {
    if a <= b then a else b
  }

  /** A byte that the http library accepts in a field value. */
  predicate IsHeaderByte(c: char) {
    (32 <= c as int && c as int != 127) || c == '\t'
  }

  predicate IsHeaderValue(s: string) {
    forall i | 0 <= i < |s| :: IsHeaderByte(s[i])
  }

  lemma Associative<T>(a: seq<T>, b: seq<T>, c: seq<T>)
    ensures a + (b + c) == (a + b) + c
    ensures b == [] ==> a + b == a
  {
  }

  lemma DropPrefix(prefix: string, s: string)
    ensures prefix <= prefix + s && (prefix + s)[|prefix|..] == s
  {
  }
}
