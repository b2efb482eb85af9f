/** The bearer tokens the auth service issues through `JwtService.signAsync`
    (HS256, via jsonwebtoken). A token is its claims `{sub, email, isAdmin}`,
    its issue and expiry instants (in seconds) and its signature; the text the
    client receives is the compact serialisation `header.claims.signature`.
    The HMAC itself is a parameter `mac` from signing input to signature. */
module Tokens {
  import opened Common

  /** Access tokens use the module default `expiresIn: '1h'`. */
  const AccessTokenSeconds: int := 60 * 60

  /** Refresh tokens are signed with `{ expiresIn: '7d' }`. */
  const RefreshTokenSeconds: int := 7 * 24 * 60 * 60

  /** The claims of every token: subject (user id), email and admin flag. */
  datatype Payload = Payload(sub: string, email: string, isAdmin: bool)

  datatype Jwt = Jwt(payload: Payload, issuedAt: int, expiresAt: int, signature: string)

  // ----- compact serialisation -----

  /** base64url of `{"alg":"HS256","typ":"JWT"}`, the header every token carries. */
  const Header: string := "eyJhbGciOiJIUzI1NiIsInR5cCI6IkpXVCJ9"

  /** The base64url alphabet `A`-`Z`, `a`-`z`, `0`-`9`, `-`, `_`. */
  function Sextet(v: int): char
    requires 0 <= v < 64
  {
    if v < 26 then ('A' as int + v) as char
    else if v < 52 then ('a' as int + v - 26) as char
    else if v < 62 then ('0' as int + v - 52) as char
    else if v == 62 then '-'
    else '_'
  }

  /** Three bytes as four base64url characters. */
  function Quad(x: byte, y: byte, z: byte): (s: string)
    ensures |s| == 4
  {
    [Sextet(x / 4), Sextet(x % 4 * 16 + y / 16), Sextet(y % 16 * 4 + z / 64), Sextet(z % 64)]
  }

  /** Unpadded base64url: every three bytes become four characters, a trailing
      one or two bytes become two or three. */
  function Base64Url(b: seq<byte>): (s: string)
    ensures |s| == (4 * |b| + 2) / 3
  {
    if |b| == 0 then ""
    else if |b| == 1 then [Sextet(b[0] / 4), Sextet(b[0] % 4 * 16)]
    else if |b| == 2 then [Sextet(b[0] / 4), Sextet(b[0] % 4 * 16 + b[1] / 16), Sextet(b[1] % 16 * 4)]
    else Quad(b[0], b[1], b[2]) + Base64Url(b[3..])
  }

  lemma Base64UrlUnfold(b: seq<byte>)
    requires |b| >= 3
    ensures Base64Url(b) == Quad(b[0], b[1], b[2]) + Base64Url(b[3..])
  {
  }

  /** Each group of three bytes fixes its four characters: byte strings that
      agree on their first 3k bytes are encoded alike up to character 4k. */
  lemma {:induction false} Base64UrlPrefix(b1: seq<byte>, b2: seq<byte>, k: nat)
    requires |b1| >= 3 * k && |b2| >= 3 * k && b1[..3 * k] == b2[..3 * k]
    ensures |Base64Url(b1)| >= 4 * k && |Base64Url(b2)| >= 4 * k
    ensures Base64Url(b1)[..4 * k] == Base64Url(b2)[..4 * k]
  {
    if k > 0 {
      SharedGroups(b1, b2, k);
      Base64UrlPrefix(b1[3..], b2[3..], k - 1);
      Base64UrlUnfold(b1);
      Base64UrlUnfold(b2);
      PrefixOfConcat(Quad(b1[0], b1[1], b1[2]), Base64Url(b1[3..]), Base64Url(b2[3..]), 4 * (k - 1));
    }
  }

  lemma SharedGroups(b1: seq<byte>, b2: seq<byte>, k: nat)
    requires k > 0 && |b1| >= 3 * k && |b2| >= 3 * k && b1[..3 * k] == b2[..3 * k]
    ensures b1[0] == b2[0] && b1[1] == b2[1] && b1[2] == b2[2]
    ensures b1[3..][..3 * (k - 1)] == b2[3..][..3 * (k - 1)]
  {
    assert b1[0] == b1[..3 * k][0] == b2[..3 * k][0] == b2[0];
    assert b1[1] == b1[..3 * k][1] == b2[..3 * k][1] == b2[1];
    assert b1[2] == b1[..3 * k][2] == b2[..3 * k][2] == b2[2];
    assert b1[3..][..3 * (k - 1)] == b1[..3 * k][3..] == b2[..3 * k][3..] == b2[3..][..3 * (k - 1)];
  }

  /** Two strings that agree up to n agree up to |g| + n behind a common g. */
  lemma PrefixOfConcat(g: string, x: string, y: string, n: nat)
    requires n <= |x| && n <= |y| && x[..n] == y[..n]
    ensures (g + x)[..|g| + n] == (g + y)[..|g| + n]
  {
    assert (g + x)[..|g| + n] == g + x[..n];
    assert (g + y)[..|g| + n] == g + y[..n];
  }

  /** One character inside a JSON string, as `JSON.stringify` writes it. */
  function JsonEscapeChar(c: char): (r: string)
    ensures 1 <= |r| <= 6
  {
    var Hex := "0123456789abcdef";
    if c == '"' then "\\\""
    else if c == '\\' then "\\\\"
    else if c as int == 0x08 then "\\b"
    else if c == '\t' then "\\t"
    else if c == '\n' then "\\n"
    else if c as int == 0x0C then "\\f"
    else if c == '\r' then "\\r"
    else if (c as int) < 0x20 then "\\u00" + [Hex[c as int / 16], Hex[c as int % 16]]
    else [c]
  }

  function JsonEscape(s: string): (r: string)
    ensures |r| >= |s|
  {
    if |s| == 0 then "" else JsonEscapeChar(s[0]) + JsonEscape(s[1..])
  }

  function JsonString(s: string): string {
    "\"" + JsonEscape(s) + "\""
  }

  /** The decimal digits of a whole number, as `JSON.stringify` writes it. */
  function Decimal(n: int): (r: string)
    ensures |r| >= 1
    decreases if n < 0 then 1 - n else n
  {
    if n < 0 then "-" + Decimal(-n)
    else if n < 10 then ["0123456789"[n]]
    else Decimal(n / 10) + ["0123456789"[n % 10]]
  }

  /** The claims jsonwebtoken signs: the payload's keys, then `iat`, then `exp`. */
  function ClaimsJson(t: Jwt): string {
    "{\"sub\":\"" + JsonEscape(t.payload.sub) + ClaimsAfterSubject(t)
  }

  /** The claims after the subject's escaped text. */
  function ClaimsAfterSubject(t: Jwt): string {
    "\",\"email\":" + JsonString(t.payload.email)
      + ",\"isAdmin\":" + (if t.payload.isAdmin then "true" else "false")
      + ",\"iat\":" + Decimal(t.issuedAt)
      + ",\"exp\":" + Decimal(t.expiresAt) + "}"
  }

  /** The text the HMAC is computed over. */
  function SigningInput(t: Jwt): string {
    Header + "." + Base64Url(Utf8(ClaimsJson(t)))
  }

  /** The token as the client receives and presents it. */
  function Compact(t: Jwt): string {
    SigningInput(t) + "." + t.signature
  }

  /** `signAsync(payload, { expiresIn })` at second `iat`, with HMAC `mac`. */
  function Sign(payload: Payload, iat: int, lifetime: int, mac: string -> string): (t: Jwt)
    requires lifetime > 0
    ensures t.payload == payload
    ensures t.issuedAt == iat && t.expiresAt - t.issuedAt == lifetime
    ensures t.signature == mac(SigningInput(t))
  {
    var unsigned := Jwt(payload, iat, iat + lifetime, "");
    unsigned.(signature := mac(SigningInput(unsigned)))
  }

  /** The claims' bytes begin with `{"sub":"` and the escaped subject. */
  lemma ClaimsBytesStart(t: Jwt)
    ensures Utf8("{\"sub\":\"" + JsonEscape(t.payload.sub)) <= Utf8(ClaimsJson(t))
  {
    Utf8Append("{\"sub\":\"" + JsonEscape(t.payload.sub), ClaimsAfterSubject(t));
  }

  /** The first 73 characters of a signing input are the header, the dot and
      the first 36 characters of the encoded claims. */
  lemma SigningInputStart(t: Jwt)
    requires |Utf8(ClaimsJson(t))| >= 27
    ensures |SigningInput(t)| >= 73
    ensures SigningInput(t)[..73] == Header + "." + Base64Url(Utf8(ClaimsJson(t)))[..36]
  {
    var e := Base64Url(Utf8(ClaimsJson(t)));
    assert SigningInput(t) == (Header + ".") + e;
  }

  /** Tokens of the same subject agree on their first 73 characters: the
      header, the dot and the base64url of `{"sub":"` and 19 characters of
      the subject. */
  lemma SigningInputsAgree(t1: Jwt, t2: Jwt)
    requires t1.payload.sub == t2.payload.sub && |t1.payload.sub| >= 19
    ensures |SigningInput(t1)| >= 73 && |SigningInput(t2)| >= 73
    ensures SigningInput(t1)[..73] == SigningInput(t2)[..73]
  {
    var q := Utf8("{\"sub\":\"" + JsonEscape(t1.payload.sub));
    ClaimsBytesStart(t1);
    ClaimsBytesStart(t2);
    var b1, b2 := Utf8(ClaimsJson(t1)), Utf8(ClaimsJson(t2));
    assert b1[..27] == q[..27] == b2[..27];
    Base64UrlPrefix(b1, b2, 9);
    SigningInputStart(t1);
    SigningInputStart(t2);
  }

  /** The first 72 bytes of a token are the header and the start of its
      claims, which begin with the subject. Two tokens of the same user (a
      user id is a 36-character UUID; 19 characters already suffice) look
      alike to bcrypt, whatever their instants, email, role or signature. */
  lemma SameSubjectSameBcryptInput(t1: Jwt, t2: Jwt)
    requires t1.payload.sub == t2.payload.sub && |t1.payload.sub| >= 19
    ensures Matches(Compact(t1), Hash(Compact(t2)))
  {
    SigningInputsAgree(t1, t2);
    var s1, s2 := SigningInput(t1), SigningInput(t2);
    assert Compact(t1)[..73] == s1[..73] == s2[..73] == Compact(t2)[..73];
    MatchesOnCommonPrefix(Compact(t1), Compact(t2), s1[..73]);
  }
}
