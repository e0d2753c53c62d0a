/**
 User name and password in the authority of a URI: writing them, and reading them back the way the
 proxy settings do.
 */
module Userinfo {
  import opened Text
  import opened Percent

  /** The userinfo percent-encode set. The percent sign is not in it. */
  const USERINFO: AsciiSet := (c: char) => IsControl(c) || c in RESERVED

  const RESERVED: string := " \"<>`#?{}/:;=@[\\]^|"

  /** Index of the first `c`, or the length. */
  function First(s: string, c: char): (i: nat)
    ensures i <= |s| && (i < |s| ==> s[i] == c)
    ensures forall j | 0 <= j < i :: s[j] != c
  {
    if s == "" || s[0] == c then 0 else 1 + First(s[1..], c)
  }

  function SplitOnce(s: string, c: char): Option<(string, string)> {
    var i := First(s, c);
    if i < |s| then Some((s[..i], s[i + 1..])) else None
  }

  /** Index of the last `c`, or -1. */
  function Final(s: string, c: char): (i: int)
    ensures -1 <= i < |s| && (i >= 0 ==> s[i] == c)
    ensures forall j | i < j < |s| :: s[j] != c
  {
    if s == "" then -1 else if s[|s| - 1] == c then |s| - 1 else Final(s[..|s| - 1], c)
  }

  function RSplitOnce(s: string, c: char): Option<(string, string)> {
    var i := Final(s, c);
    if i >= 0 then Some((s[..i], s[i + 1..])) else None
  }

  function HostAndPort(authority: string): string {
    var split := RSplitOnce(authority, '@');
    if split.Some? then split.value.1 else authority
  }

  /** The authority that `set_userinfo` asks for. */
  function WithUserinfo(authority: string, user: string, pass: Option<string>): string
    requires IsBytes(user) && (pass.Some? ==> IsBytes(pass.value))
  {
    var host := HostAndPort(authority);
    match pass
    case None => if user == "" then host else Encode(USERINFO, user) + "@" + host
    case Some(p) => Encode(USERINFO, user) + ":" + Encode(USERINFO, p) + "@" + host
  }

  /** User name and password as they stand in the authority; empty parts count as absent beside a colon. */
  function UserinfoOf(authority: string): (Option<string>, Option<string>) {
    var split := RSplitOnce(authority, '@');
    if split.None? then (None, None)
    else
      var parts := SplitOnce(split.value.0, ':');
      if parts.None? then (Some(split.value.0), None)
      else
        var (u, p) := parts.value;
        (if u == "" then None else Some(u), if p == "" then None else Some(p))
  }

  datatype Credentials = Credentials(user: string, pass: Option<string>, host: string)

  /** What the proxy settings read from an authority. */
  function ProxyCredentials(authority: string): Option<Credentials> {
    var split := RSplitOnce(authority, '@');
    if split.None? then None
    else
      var (userinfo, host) := split.value;
      var parts := SplitOnce(userinfo, ':');
      Some(if parts.None? then Credentials(Decode(userinfo), None, host)
           else Credentials(Decode(parts.value.0), Some(Decode(parts.value.1)), host))
  }

  class UriCell {
    var authority: Option<string>

    /** Replaces the userinfo; `accepts` is the authority parser of the http library. */
    method SetUserinfo(user: string, pass: Option<string>, accepts: string -> bool)
      requires IsBytes(user) && (pass.Some? ==> IsBytes(pass.value))
      modifies this
      ensures authority ==
                if old(authority).None? then None
                else
                  var wanted := WithUserinfo(old(authority).value, user, pass);
                  if accepts(wanted) then Some(wanted) else old(authority)
    {
      if authority.None? {
        return;
      }
      var hostAndPort := HostAndPort(authority.value);
      var wanted := hostAndPort;
      if user == "" && pass.Some? {
        wanted := ":" + Encode(USERINFO, pass.value) + "@" + hostAndPort;
        assert "" + ":" + Encode(USERINFO, pass.value) + "@" + hostAndPort == wanted;
      } else if pass.Some? {
        wanted := Encode(USERINFO, user) + ":" + Encode(USERINFO, pass.value) + "@" + hostAndPort;
      } else if user != "" {
        wanted := Encode(USERINFO, user) + "@" + hostAndPort;
      }
      if accepts(wanted) {
        authority := Some(wanted);
      }
    }
  }

  // ----- splitting what was put together -----

  lemma {:induction false} FirstAt(a: string, c: char, b: string)
    requires c !in a
    ensures First(a + [c] + b, c) == |a|
    ensures SplitOnce(a + [c] + b, c) == Some((a, b))
  {
    var s := a + [c] + b;
    assert s[|a|] == c;
    assert forall j | 0 <= j < |a| :: s[j] == a[j];
    assert First(s, c) == |a| && s[..|a|] == a && s[|a| + 1..] == b;
  }

  lemma FinalAt(a: string, c: char, b: string)
    requires c !in b
    ensures RSplitOnce(a + [c] + b, c) == Some((a, b))
  {
    var s := a + [c] + b;
    assert s[|a|] == c;
    assert forall j | |a| < j < |s| :: s[j] == b[j - |a| - 1];
    assert Final(s, c) == |a|;
    assert s[..|a|] == a && s[|a| + 1..] == b;
  }

  lemma NoSplit(s: string, c: char)
    requires c !in s
    ensures RSplitOnce(s, c) == None && SplitOnce(s, c) == None
  {
  }

  lemma HostHasNoAt(authority: string)
    ensures '@' !in HostAndPort(authority)
  {
    var i := Final(authority, '@');
    if i >= 0 {
      var host := authority[i + 1..];
      assert forall j | 0 <= j < |host| :: host[j] == authority[i + 1 + j];
    }
  }

  /** What userinfo leaves as it is: letters, digits, and the marks that have no meaning of their own in an authority. */
  predicate IsUserinfoMark(c: char) {
    c in {'!', '$', '%', '&', '\'', '(', ')', '*', '+', ',', '-', '.', '_', '~'}
  }

  lemma ReservedAre(c: char)
    ensures c in RESERVED <==> c in {' ', '\"', '<', '>', '`', '#', '?', '{', '}', '/', ':', ';', '=', '@', '[', '\\', ']', '^', '|'}
  {
    assert RESERVED[0] == ' ' && RESERVED[1] == '\"' && RESERVED[2] == '<' && RESERVED[3] == '>' && RESERVED[4] == '`';
    assert RESERVED[5] == '#' && RESERVED[6] == '?' && RESERVED[7] == '{' && RESERVED[8] == '}' && RESERVED[9] == '/';
    assert RESERVED[10] == ':' && RESERVED[11] == ';' && RESERVED[12] == '=' && RESERVED[13] == '@' && RESERVED[14] == '[';
    assert RESERVED[15] == '\\' && RESERVED[16] == ']' && RESERVED[17] == '^' && RESERVED[18] == '|' && |RESERVED| == 19;
  }

  /** Exactly letters, digits and these marks are written as they are. */
  lemma UserinfoEncodesExactly(c: char)
    ensures !Encodes(USERINFO, c) <==> IsAlphanumeric(c) || IsUserinfoMark(c)
  {
    ReservedAre(c);
  }

  /** An encoded part holds letters, digits and marks alone, so nothing in it separates user name, password and host, and
      nothing in it ends the authority. */
  lemma EncodedHasNoSeparator(s: string)
    requires IsBytes(s)
    ensures forall c | c in Encode(USERINFO, s) :: IsAlphanumeric(c) || IsUserinfoMark(c)
    ensures forall c | c in {':', '@', '/', '?', '#', '[', ']', '\\', ' '} :: c !in Encode(USERINFO, s)
  {
    EncodedBytes(USERINFO, s);
    forall c | c in Encode(USERINFO, s) ensures IsAlphanumeric(c) || IsUserinfoMark(c) { UserinfoEncodesExactly(c); }
  }

  lemma EncodedReads(s: string)
    requires IsBytes(s)
    ensures Decode(Encode(USERINFO, s)) == Decode(s)
  {
    assert forall i | 0 <= i < |RESERVED| :: !IsHex(RESERVED[i]);
    DecodeIgnoresEncode(USERINFO, s);
  }

  // ----- reading back -----

  /** Writing replaces any earlier userinfo and leaves host and port alone. */
  lemma WritingKeepsHost(authority: string, user: string, pass: Option<string>)
    requires IsBytes(user) && (pass.Some? ==> IsBytes(pass.value))
    ensures HostAndPort(WithUserinfo(authority, user, pass)) == HostAndPort(authority)
    ensures forall user': string, pass': Option<string> | IsBytes(user') && (pass'.Some? ==> IsBytes(pass'.value)) ::
              WithUserinfo(WithUserinfo(authority, user, pass), user', pass') == WithUserinfo(authority, user', pass')
  {
    var host := HostAndPort(authority);
    HostHasNoAt(authority);
    match pass {
      case None =>
        if user == "" {
          NoSplit(host, '@');
        } else {
          FinalAt(Encode(USERINFO, user), '@', host);
        }
      case Some(p) =>
        FinalAt(Encode(USERINFO, user) + ":" + Encode(USERINFO, p), '@', host);
    }
  }

  /** What the proxy settings read after a write, for every user name and password. */
  lemma ProxyReadsDecoded(authority: string, user: string, pass: Option<string>)
    requires IsBytes(user) && (pass.Some? ==> IsBytes(pass.value))
    ensures ProxyCredentials(WithUserinfo(authority, user, pass)) ==
              if user == "" && pass.None? then None
              else Some(Credentials(Decode(user), if pass.Some? then Some(Decode(pass.value)) else None, HostAndPort(authority)))
  {
    var host := HostAndPort(authority);
    HostHasNoAt(authority);
    EncodedHasNoSeparator(user);
    EncodedReads(user);
    match pass {
      case None =>
        if user == "" {
          NoSplit(host, '@');
        } else {
          FinalAt(Encode(USERINFO, user), '@', host);
          NoSplit(Encode(USERINFO, user), ':');
        }
      case Some(p) =>
        EncodedReads(p);
        FinalAt(Encode(USERINFO, user) + ":" + Encode(USERINFO, p), '@', host);
        FirstAt(Encode(USERINFO, user), ':', Encode(USERINFO, p));
    }
  }

  /**
   The proxy settings read back exactly the user name and password that were written, exactly when
   neither of them holds a percent sign followed by two hexadecimal digits.
   */
  lemma ProxyReadsBackIffNoEscape(authority: string, user: string, pass: string)
    requires IsBytes(user) && IsBytes(pass)
    ensures ProxyCredentials(WithUserinfo(authority, user, Some(pass))) ==
              Some(Credentials(user, Some(pass), HostAndPort(authority)))
            <==> !HasEscape(user) && !HasEscape(pass)
  {
    ProxyReadsDecoded(authority, user, Some(pass));
    DecodeIsIdentityIffNoEscape(user);
    DecodeIsIdentityIffNoEscape(pass);
  }

  /** The reader next to the writer gives the encoded parts, with an empty part reported as absent. */
  lemma UserinfoReadsEncoded(authority: string, user: string, pass: string)
    requires IsBytes(user) && IsBytes(pass)
    ensures UserinfoOf(WithUserinfo(authority, user, Some(pass))) ==
              (if user == "" then None else Some(Encode(USERINFO, user)),
               if pass == "" then None else Some(Encode(USERINFO, pass)))
  {
    var u, p := Encode(USERINFO, user), Encode(USERINFO, pass);
    HostHasNoAt(authority);
    EncodedHasNoSeparator(user);
    FinalAt(u + ":" + p, '@', HostAndPort(authority));
    FirstAt(u, ':', p);
    EncodeIsIdentityIffClean(USERINFO, user);
    EncodeIsIdentityIffClean(USERINFO, pass);
  }
}
