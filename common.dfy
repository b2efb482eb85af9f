/** Vocabulary shared by every part of the backend model: optional values,
    the HTTP exceptions the services throw, JavaScript truthiness of optional
    strings, what TypeORM's `save` writes for `undefined` and `null`, UTF-8,
    and bcrypt seen as a one-way hash of the first 72 bytes of its input. */
module Common {

  /** `undefined`/`null` versus a present value. */
  datatype Option<+T> = None | Some(value: T)

  /** Which uniqueness rule a ConflictException (409) reports. */
  datatype ConflictReason = EmailInUse | UsernameTaken

  /** Why an UnauthorizedException (401) was raised. */
  datatype Denial =
    | InvalidUser            // login called without a validated user
    | InvalidRefresh         // no stored refresh hash, or the token does not match it
    | WrongCurrentPassword   // changePassword: the current password does not match
    | PasswordsDiffer        // reset: newPassword !== confirm
    | ResetInvalidOrExpired  // reset: no pending reset token, or it has expired
    | ResetTokenInvalid      // reset: the token does not match the stored hash

  /** The NestJS exceptions thrown by the modelled services. */
  datatype Error =
    | Conflict(reason: ConflictReason)   // 409
    | NotFound                           // 404
    | Unauthorized(denial: Denial)       // 401
    | Forbidden                          // 403
    | BadRequest                         // 400
    | QueryFailed                        // 500: the database rejected the statement

  /** A service call either returns a value or throws one of the exceptions above. */
  datatype Result<+T> = Ok(value: T) | Err(error: Error)

  /** JavaScript truthiness of an optional string: defined and not empty. */
  predicate Present(s: Option<string>) {
    s.Some? && s.value != ""
  }

  /** The partial-update idiom `if (dto.f !== undefined) entity.f = dto.f`. */
  function Pick<T>(update: Option<T>, current: T): T {
    if update.Some? then update.value else current
  }

  /** A JavaScript value that may be `undefined`, `null` or a value: a field
      of a parsed JSON body, or a property of a loaded entity when `repo.save`
      runs. TypeORM leaves `undefined` properties out of the UPDATE, so the
      stored column keeps its value; only `null` writes NULL. */
  datatype Assigned<+T> = Undefined | Null | Value(value: T)

  /** The value, if any: `null` and `undefined` both become None. */
  function ValueOf<T>(a: Assigned<T>): (r: Option<T>)
    ensures r.Some? <==> a.Value?
    ensures r.Some? ==> r.value == a.value
  {
    if a.Value? then Some(a.value) else None
  }

  /** The column after the save, given what was stored before. */
  function Saved<T>(a: Assigned<T>, stored: Option<T>): (r: Option<T>)
    ensures a.Undefined? ==> r == stored
    ensures a.Null? ==> r.None?
    ensures a.Value? ==> r == Some(a.value)
  {
    match a
    case Undefined => stored
    case Null => None
    case Value(v) => Some(v)
  }

  // ----- UTF-8 -----

  type byte = b: int | 0 <= b < 256

  /** How many bytes a UTF-8 sequence starting with `lead` takes. */
  function SequenceLength(lead: byte): nat {
    if lead < 0x80 then 1 else if lead < 0xE0 then 2 else if lead < 0xF0 then 3 else 4
  }

  /** The UTF-8 encoding of one Unicode scalar value. */
  function Utf8Char(c: char): (b: seq<byte>)
    ensures 1 <= |b| <= 4 && |b| == SequenceLength(b[0])
  {
    var n := c as int;
    if n < 0x80 then [n]
    else if n < 0x800 then [0xC0 + n / 0x40, 0x80 + n % 0x40]
    else if n < 0x1_0000 then [0xE0 + n / 0x1000, 0x80 + n / 0x40 % 0x40, 0x80 + n % 0x40]
    else [0xF0 + n / 0x4_0000, 0x80 + n / 0x1000 % 0x40, 0x80 + n / 0x40 % 0x40, 0x80 + n % 0x40]
  }

  /** The bytes a string is sent as (Node's `Buffer.from(s, 'utf8')`). */
  function Utf8(s: string): (b: seq<byte>)
    ensures |s| <= |b| <= 4 * |s|
  {
    if |s| == 0 then [] else Utf8Char(s[0]) + Utf8(s[1..])
  }

  lemma {:induction false} Utf8Append(a: string, b: string)
    ensures Utf8(a + b) == Utf8(a) + Utf8(b)
  {
    if |a| > 0 {
      assert (a + b)[0] == a[0] && (a + b)[1..] == a[1..] + b;
      Utf8Append(a[1..], b);
    } else {
      assert a + b == b;
    }
  }

  /** The code point a UTF-8 sequence of one to four bytes stands for. */
  function ScalarOf(b: seq<int>): int
    requires 1 <= |b| <= 4
  {
    if |b| == 1 then b[0]
    else if |b| == 2 then (b[0] - 0xC0) * 0x40 + (b[1] - 0x80)
    else if |b| == 3 then ((b[0] - 0xE0) * 0x40 + (b[1] - 0x80)) * 0x40 + (b[2] - 0x80)
    else (((b[0] - 0xF0) * 0x40 + (b[1] - 0x80)) * 0x40 + (b[2] - 0x80)) * 0x40 + (b[3] - 0x80)
  }

  /** Decoding a character's encoding gives the character back. */
  lemma Utf8CharDecodes(c: char)
    ensures ScalarOf(Utf8Char(c)) == c as int
  {
    var n := c as int;
    var q1, q2, q3 := n / 0x40, n / 0x1000, n / 0x4_0000;
    assert n == q1 * 0x40 + n % 0x40;
    assert q1 == q2 * 0x40 + q1 % 0x40 && q1 % 0x40 == n / 0x40 % 0x40;
    assert q2 == q3 * 0x40 + q2 % 0x40 && q2 % 0x40 == n / 0x1000 % 0x40;
  }

  /** A character's encoding is recognisable at the front of any byte string. */
  lemma Utf8CharPrefix(c: char, d: char, x: seq<byte>, y: seq<byte>)
    requires Utf8Char(c) + x == Utf8Char(d) + y
    ensures c == d && x == y
  {
    var u, v := Utf8Char(c), Utf8Char(d);
    assert u[0] == (u + x)[0] == (v + y)[0] == v[0];
    assert u == (u + x)[..|u|] == (v + y)[..|v|] == v;
    assert x == (u + x)[|u|..] == (v + y)[|v|..] == y;
    Utf8CharDecodes(c);
    Utf8CharDecodes(d);
  }

  /** Different strings are sent as different bytes. */
  lemma {:induction false} Utf8Injective(a: string, b: string)
    requires Utf8(a) == Utf8(b)
    ensures a == b
  {
    if |a| > 0 && |b| > 0 {
      Utf8CharPrefix(a[0], b[0], Utf8(a[1..]), Utf8(b[1..]));
      Utf8Injective(a[1..], b[1..]);
      assert a == [a[0]] + a[1..] && b == [b[0]] + b[1..];
    }
  }

  // ----- bcrypt -----

  /** bcrypt reads at most 72 bytes of the secret and ignores the rest. */
  const BcryptInputBytes: nat := 72

  /** The part of a secret bcrypt hashes: its first 72 UTF-8 bytes. */
  function BcryptInput(secret: string): (b: seq<byte>)
    ensures |b| <= BcryptInputBytes
    ensures b <= Utf8(secret)
  {
    var u := Utf8(secret);
    if |u| <= BcryptInputBytes then u else u[..BcryptInputBytes]
  }

  /** A bcrypt hash. Only `Hash` produces one and only `Matches` inspects it;
      the salt and the cost factor are not modelled. */
  datatype Digest = Digest(input: seq<byte>)

  /** `bcrypt.compare(secret, digest)`. */
  predicate Matches(secret: string, d: Digest) {
    BcryptInput(secret) == d.input
  }

  /** `bcrypt.hash(secret, 10)`: the digest accepts its own secret. */
  function Hash(secret: string): (d: Digest)
    ensures Matches(secret, d)
  {
    Digest(BcryptInput(secret))
  }

  /** Within bcrypt's 72 bytes, a digest accepts no secret but its own. */
  lemma MatchesOnlyOwnSecret(candidate: string, secret: string)
    requires |Utf8(candidate)| <= BcryptInputBytes && |Utf8(secret)| <= BcryptInputBytes
    ensures Matches(candidate, Hash(secret)) <==> candidate == secret
  {
    if Matches(candidate, Hash(secret)) {
      Utf8Injective(candidate, secret);
    }
  }

  /** Beyond 72 bytes bcrypt is blind: secrets that share a prefix of at
      least 72 bytes accept each other, however they go on. */
  lemma LongSecretsMatchOnPrefix(prefix: string, x: string, y: string)
    requires |Utf8(prefix)| >= BcryptInputBytes
    ensures Matches(prefix + x, Hash(prefix + y))
  {
    Utf8Append(prefix, x);
    Utf8Append(prefix, y);
    var p := Utf8(prefix);
    assert (p + Utf8(x))[..BcryptInputBytes] == p[..BcryptInputBytes] == (p + Utf8(y))[..BcryptInputBytes];
  }

  /** Secrets that agree on a prefix of at least 72 bytes accept each other. */
  lemma MatchesOnCommonPrefix(a: string, b: string, p: string)
    requires |Utf8(p)| >= BcryptInputBytes && p <= a && p <= b
    ensures Matches(a, Hash(b))
  {
    assert a == p + a[|p|..];
    assert b == p + b[|p|..];
    LongSecretsMatchOnPrefix(p, a[|p|..], b[|p|..]);
  }
}
