/** The credential and token lifecycle of `AuthService`: registration,
    credential validation, login, refresh-token rotation, password change and
    the two password-reset flows.

    Each flow is specified first as a function from the tables before the call
    to the outcome and the credentials table after it (`...Step`); the
    `AuthService` class then performs the flow step by step through the
    repositories and is proved to agree with its specification. Clocks, the
    HMAC and random UUIDs are parameters: `iat` is the signing second, `mac`
    the keyed HMAC, `nowMs` the wall clock in milliseconds, `raw` the fresh
    reset token. Tokens travel as their compact text, and a stored refresh
    hash accepts any text bcrypt cannot tell from the issued token. */
module Auth {
  import opened Common
  import opened Table
  import opened Tokens
  import opened Credentials
  import opened Users

  /** A reset token is valid for 30 minutes (`1000 * 60 * 30` ms). */
  const ResetWindowMinutes: int := 30
  const ResetWindowMs: int := 1000 * 60 * ResetWindowMinutes

  /** The `{ id, email, isAdmin }` object `validateUser` returns and `login` takes. */
  datatype Principal = Principal(id: string, email: string, isAdmin: bool)

  datatype TokenPair = TokenPair(accessToken: Jwt, refreshToken: Jwt)

  /** What `generateResetToken` hands back: the raw token and its lifetime. */
  datatype ResetGrant = ResetGrant(resetToken: string, expiresInMinutes: int)

  datatype Registered = Registered(user: User, credentialId: CredId)

  datatype RegisterDto = RegisterDto(
    name: string, lastName: string, email: string, address: string, birthdate: string,
    username: string, password: string, cuit: Option<string>, phone: Option<string>)

  /** The outcome of a flow together with the credentials table after it. */
  datatype Step<+T> = Step(result: Result<T>, creds: seq<Credential>)

  /** The outcome of registration together with both tables after it. */
  datatype Registration = Registration(result: Result<Registered>, users: seq<User>, creds: seq<Credential>)

  // ----- The store and its invariant -----

  /** Every credential belongs to a stored user (the `id_user` foreign key). */
  predicate Linked(users: seq<User>, creds: seq<Credential>) {
    forall j :: 0 <= j < |creds| ==> IndexOf(users, UserKey, creds[j].userId).Some?
  }

  /** Unique user ids and e-mails; unique credential ids, login names and
      owners (one credential per user); every credential linked to a user;
      every credential's reset hash and expiry set or cleared together. */
  ghost predicate Consistent(users: seq<User>, creds: seq<Credential>) {
    UniqueKeys(users, UserKey) && UniqueKeys(users, UserEmail)
    && UniqueKeys(creds, CredKey) && UniqueKeys(creds, CredName) && UniqueKeys(creds, CredOwner)
    && Linked(users, creds)
    && forall j :: 0 <= j < |creds| ==> ResetPaired(creds[j])
  }

  /** `cred.user`, the user a linked credential belongs to, as a principal. */
  function OwnerPrincipal(users: seq<User>, c: Credential): Principal
    requires IndexOf(users, UserKey, c.userId).Some?
  {
    Principal(c.userId, users[IndexOf(users, UserKey, c.userId).value].email, c.isAdmin)
  }

  function PayloadOf(p: Principal): Payload {
    Payload(p.id, p.email, p.isAdmin)
  }

  /** `after` is `before` with at most row `i` rewritten. */
  predicate OnlyRowChanged(before: seq<Credential>, after: seq<Credential>, i: nat) {
    |after| == |before| && i < |before|
    && forall j :: 0 <= j < |before| && j != i ==> after[j] == before[j]
  }

  predicate OnlyPasswordChanged(a: Credential, b: Credential) {
    SameAccount(a, b) && b.refreshTokenHash == a.refreshTokenHash
    && b.resetTokenHash == a.resetTokenHash && b.resetTokenExpires == a.resetTokenExpires
  }

  predicate OnlyRefreshChanged(a: Credential, b: Credential) {
    SameAccount(a, b) && b.passwordHash == a.passwordHash
    && b.resetTokenHash == a.resetTokenHash && b.resetTokenExpires == a.resetTokenExpires
  }

  predicate OnlyResetChanged(a: Credential, b: Credential) {
    SameAccount(a, b) && b.passwordHash == a.passwordHash && b.refreshTokenHash == a.refreshTokenHash
  }

  /** A redeemed reset: the new password is set, both reset fields are
      cleared, the account and the refresh hash stay. */
  predicate Redeemed(a: Credential, b: Credential, newPassword: string) {
    SameAccount(a, b) && b.refreshTokenHash == a.refreshTokenHash
    && Matches(newPassword, b.passwordHash)
    && b.resetTokenHash.None? && b.resetTokenExpires.None?
  }

  /** The credential of user `userId` stores a refresh hash that accepts the text `t`. */
  predicate HoldsRefresh(creds: seq<Credential>, userId: string, t: string) {
    match IndexOf(creds, CredOwner, userId)
    case None => false
    case Some(i) => creds[i].refreshTokenHash.Some? && Matches(t, creds[i].refreshTokenHash.value)
  }

  /** The optimized reset's expiry test: a hash and an expiry are stored and
      the expiry is not before now (an expiry equal to now still passes). */
  predicate ResetOpen(c: Credential, nowMs: int) {
    c.resetTokenHash.Some? && c.resetTokenExpires.Some? && !(c.resetTokenExpires.value < nowMs)
  }

  /** The iterative reset's test: a strictly future expiry and a matching token. */
  predicate Redeemable(c: Credential, token: string, nowMs: int) {
    c.resetTokenHash.Some? && c.resetTokenExpires.Some? && c.resetTokenExpires.value > nowMs
    && Matches(token, c.resetTokenHash.value)
  }

  // ----- The flows, as functions of the store -----

  /** `registerWithCredentials`: the e-mail is checked first, then the login
      name; on success one user and one credential linked to it are added,
      never an admin, holding the hash of the password. */
  function RegisterStep(users: seq<User>, creds: seq<Credential>, dto: RegisterDto,
                        newUserId: string, newCredId: CredId): (r: Registration)
    ensures FindByEmail(users, dto.email).Some? ==>
              r == Registration(Err(Conflict(EmailInUse)), users, creds)
    ensures FindByEmail(users, dto.email).None? && FindByUsername(creds, dto.username).Some? ==>
              r == Registration(Err(Conflict(UsernameTaken)), users, creds)
    ensures r.result.Ok? <==> FindByEmail(users, dto.email).None? && FindByUsername(creds, dto.username).None?
    ensures r.result.Ok? ==>
              var u := r.result.value.user;
              r.users == users + [u] && u.id == newUserId && u.email == dto.email
              && u.name == dto.name && u.lastName == dto.lastName && u.address == dto.address
              && u.birthdate == dto.birthdate && u.cuit == dto.cuit && u.phone == dto.phone
              && |r.creds| == |creds| + 1 && r.creds[..|creds|] == creds
              && var c := r.creds[|creds|];
                 c.id == newCredId && r.result.value.credentialId == newCredId
                 && c.userId == u.id && c.nameUser == dto.username && !c.isAdmin
                 && Matches(dto.password, c.passwordHash)
                 && c.refreshTokenHash.None? && c.resetTokenHash.None? && c.resetTokenExpires.None?
  {
    if FindByEmail(users, dto.email).Some? then
      Registration(Err(Conflict(EmailInUse)), users, creds)
    else if FindByUsername(creds, dto.username).Some? then
      Registration(Err(Conflict(UsernameTaken)), users, creds)
    else
      var u := NewUser(newUserId, CreateUserDto(dto.name, dto.lastName, dto.email, dto.address,
                                                dto.birthdate, dto.cuit, dto.phone));
      var c := NewCredential(newCredId, CreateCredentialDto(dto.username, dto.password, Some(false), u.id));
      assert (creds + [c])[..|creds|] == creds;
      Registration(Ok(Registered(u, newCredId)), users + [u], creds + [c])
  }

  /** `validateUser`: the principal of the credential with that login name,
      provided the password matches its hash; null otherwise. */
  function ValidateUserStep(users: seq<User>, creds: seq<Credential>, username: string, password: string): (r: Option<Principal>)
    requires Linked(users, creds)
    ensures r.Some? ==>
              exists j :: 0 <= j < |creds| && creds[j].nameUser == username
                       && Matches(password, creds[j].passwordHash)
                       && r.value == OwnerPrincipal(users, creds[j])
    ensures (forall c :: c in creds ==> c.nameUser != username) ==> r.None?
    ensures IndexOf(creds, CredName, username).Some? ==>
              var i := IndexOf(creds, CredName, username).value;
              (r.Some? <==> Matches(password, creds[i].passwordHash))
              && (r.Some? ==> r.value == OwnerPrincipal(users, creds[i]))
  {
    match IndexOf(creds, CredName, username)
    case None => None
    case Some(i) =>
      if !Matches(password, creds[i].passwordHash) then None
      else Some(OwnerPrincipal(users, creds[i]))
  }

  /** `login`: Unauthorized without a principal. Otherwise an access token
      (1 hour) and a refresh token (7 days) over the principal's claims; if
      the user has a credential, its refresh hash becomes the bcrypt hash of
      the new refresh token's text, so it accepts exactly the texts that agree
      with that token on bcrypt's first 72 bytes. */
  function LoginStep(creds: seq<Credential>, user: Option<Principal>, iat: int, mac: string -> string): (r: Step<TokenPair>)
    ensures user.None? ==> r == Step(Err(Unauthorized(InvalidUser)), creds)
    ensures user.Some? ==>
              r.result.Ok?
              && r.result.value.accessToken.payload == PayloadOf(user.value)
              && r.result.value.accessToken.issuedAt == iat
              && r.result.value.accessToken.expiresAt == iat + AccessTokenSeconds
              && r.result.value.refreshToken.payload == PayloadOf(user.value)
              && r.result.value.refreshToken.issuedAt == iat
              && r.result.value.refreshToken.expiresAt == iat + RefreshTokenSeconds
    ensures user.Some? && IndexOf(creds, CredOwner, user.value.id).None? ==> r.creds == creds
    ensures user.Some? && IndexOf(creds, CredOwner, user.value.id).Some? ==>
              var i := IndexOf(creds, CredOwner, user.value.id).value;
              OnlyRowChanged(creds, r.creds, i) && OnlyRefreshChanged(creds[i], r.creds[i])
              && HoldsRefresh(r.creds, user.value.id, Compact(r.result.value.refreshToken))
              && forall t :: (HoldsRefresh(r.creds, user.value.id, t)
                              <==> BcryptInput(t) == BcryptInput(Compact(r.result.value.refreshToken)))
  {
    match user
    case None => Step(Err(Unauthorized(InvalidUser)), creds)
    case Some(p) =>
      var access := Sign(PayloadOf(p), iat, AccessTokenSeconds, mac);
      var refresh := Sign(PayloadOf(p), iat, RefreshTokenSeconds, mac);
      match IndexOf(creds, CredOwner, p.id)
      case None => Step(Ok(TokenPair(access, refresh)), creds)
      case Some(i) =>
        var c := WithRefreshHash(creds[i], Some(Hash(Compact(refresh))));
        StoredRefreshHolds(creds, i, p.id, Compact(refresh));
        Step(Ok(TokenPair(access, refresh)), creds[i := c])
  }

  /** After storing the hash of `t` on the user's credential, the stored hash
      accepts exactly the texts bcrypt cannot tell from `t`. */
  lemma StoredRefreshHolds(creds: seq<Credential>, i: nat, userId: string, t: string)
    requires IndexOf(creds, CredOwner, userId) == Some(i)
    ensures var after := creds[i := WithRefreshHash(creds[i], Some(Hash(t)))];
            IndexOf(after, CredOwner, userId) == Some(i)
            && forall x :: HoldsRefresh(after, userId, x) <==> BcryptInput(x) == BcryptInput(t)
  {
    var c := WithRefreshHash(creds[i], Some(Hash(t)));
    IndexOfAfterUpdate(creds, CredOwner, i, c, userId);
  }

  /** `refreshTokens`: NotFound without a credential for the user;
      Unauthorized unless the stored refresh hash accepts the presented token;
      otherwise login is re-run for the credential's own user. */
  function RefreshStep(users: seq<User>, creds: seq<Credential>, userId: string, presented: string,
                       iat: int, mac: string -> string): (r: Step<TokenPair>)
    requires Linked(users, creds)
    ensures IndexOf(creds, CredOwner, userId).None? ==> r == Step(Err(NotFound), creds)
    ensures IndexOf(creds, CredOwner, userId).Some? && !HoldsRefresh(creds, userId, presented) ==>
              r == Step(Err(Unauthorized(InvalidRefresh)), creds)
    ensures HoldsRefresh(creds, userId, presented) ==>
              r == LoginStep(creds, Some(OwnerPrincipal(users, creds[IndexOf(creds, CredOwner, userId).value])), iat, mac)
    ensures r.result.Ok? ==> r.result.value.refreshToken.payload.sub == userId
  {
    match IndexOf(creds, CredOwner, userId)
    case None => Step(Err(NotFound), creds)
    case Some(i) =>
      var c := creds[i];
      if c.refreshTokenHash.None? || !Matches(presented, c.refreshTokenHash.value) then
        Step(Err(Unauthorized(InvalidRefresh)), creds)
      else
        LoginStep(creds, Some(OwnerPrincipal(users, c)), iat, mac)
  }

  /** `changePassword`: NotFound without a credential; Unauthorized, with
      nothing changed, unless the current password matches; otherwise only
      the password hash changes, to one that accepts the new password. */
  function ChangePasswordStep(creds: seq<Credential>, userId: string, current: string, next: string): (r: Step<()>)
    ensures IndexOf(creds, CredOwner, userId).None? ==> r == Step(Err(NotFound), creds)
    ensures IndexOf(creds, CredOwner, userId).Some? ==>
              var i := IndexOf(creds, CredOwner, userId).value;
              (r.result.Ok? <==> Matches(current, creds[i].passwordHash))
              && (r.result.Err? ==> r == Step(Err(Unauthorized(WrongCurrentPassword)), creds))
              && (r.result.Ok? ==> OnlyRowChanged(creds, r.creds, i)
                                   && OnlyPasswordChanged(creds[i], r.creds[i])
                                   && Matches(next, r.creds[i].passwordHash))
  {
    match IndexOf(creds, CredOwner, userId)
    case None => Step(Err(NotFound), creds)
    case Some(i) =>
      if !Matches(current, creds[i].passwordHash) then Step(Err(Unauthorized(WrongCurrentPassword)), creds)
      else Step(Ok(()), creds[i := WithPassword(creds[i], next)])
  }

  /** `generateResetToken`: NotFound without a credential; otherwise the hash
      of the fresh raw token is stored with expiry now + 30 minutes, and the
      raw token is returned with `expiresInMinutes = 30`. */
  function GenerateResetTokenStep(creds: seq<Credential>, userId: string, raw: string, nowMs: int): (r: Step<ResetGrant>)
    ensures IndexOf(creds, CredOwner, userId).None? ==> r == Step(Err(NotFound), creds)
    ensures IndexOf(creds, CredOwner, userId).Some? ==>
              var i := IndexOf(creds, CredOwner, userId).value;
              r.result == Ok(ResetGrant(raw, 30))
              && OnlyRowChanged(creds, r.creds, i) && OnlyResetChanged(creds[i], r.creds[i])
              && r.creds[i].resetTokenHash.Some? && Matches(raw, r.creds[i].resetTokenHash.value)
              && r.creds[i].resetTokenExpires == Some(nowMs + 1800000)
  {
    match IndexOf(creds, CredOwner, userId)
    case None => Step(Err(NotFound), creds)
    case Some(i) =>
      Step(Ok(ResetGrant(raw, ResetWindowMinutes)),
           creds[i := WithResetToken(creds[i], Hash(raw), nowMs + ResetWindowMs)])
  }

  /** The checks `resetPasswordOptimized` makes before it writes anything:
      the confirmation is compared before any lookup; then NotFound without a
      credential; Unauthorized when no reset is pending or its expiry is
      before now, or when the token does not match; otherwise the row of the
      credential to redeem. */
  function ResetOptimizedCheck(creds: seq<Credential>, userId: string, token: string,
                               newPassword: string, confirm: string, nowMs: int): (r: Result<nat>)
    ensures newPassword != confirm ==> r == Err(Unauthorized(PasswordsDiffer))
    ensures newPassword == confirm && IndexOf(creds, CredOwner, userId).None? ==> r == Err(NotFound)
    ensures newPassword == confirm && IndexOf(creds, CredOwner, userId).Some? ==>
              var i := IndexOf(creds, CredOwner, userId).value;
              (!ResetOpen(creds[i], nowMs) ==> r == Err(Unauthorized(ResetInvalidOrExpired)))
              && (ResetOpen(creds[i], nowMs) && !Matches(token, creds[i].resetTokenHash.value) ==>
                    r == Err(Unauthorized(ResetTokenInvalid)))
              && (r.Ok? <==> ResetOpen(creds[i], nowMs) && Matches(token, creds[i].resetTokenHash.value))
              && (r.Ok? ==> r.value == i)
  {
    if newPassword != confirm then Err(Unauthorized(PasswordsDiffer))
    else match IndexOf(creds, CredOwner, userId)
      case None => Err(NotFound)
      case Some(i) =>
        var c := creds[i];
        if c.resetTokenHash.None? || c.resetTokenExpires.None? || c.resetTokenExpires.value < nowMs then
          Err(Unauthorized(ResetInvalidOrExpired))
        else if !Matches(token, c.resetTokenHash.value) then
          Err(Unauthorized(ResetTokenInvalid))
        else
          Ok(i)
  }

  /** `resetPasswordOptimized` as written: after the checks the password is
      replaced and `clearResetToken` runs, which writes `undefined` and so
      leaves the reset hash and expiry stored. */
  function ResetOptimizedAsWritten(creds: seq<Credential>, userId: string, token: string,
                                   newPassword: string, confirm: string, nowMs: int): (r: Step<()>)
    ensures r.result == if ResetOptimizedCheck(creds, userId, token, newPassword, confirm, nowMs).Ok? then Ok(())
                        else Err(ResetOptimizedCheck(creds, userId, token, newPassword, confirm, nowMs).error)
    ensures r.result.Err? ==> r.creds == creds
    ensures r.result.Ok? ==>
              var i := IndexOf(creds, CredOwner, userId).value;
              OnlyRowChanged(creds, r.creds, i) && OnlyPasswordChanged(creds[i], r.creds[i])
              && Matches(newPassword, r.creds[i].passwordHash)
  {
    match ResetOptimizedCheck(creds, userId, token, newPassword, confirm, nowMs)
    case Err(e) => Step(Err(e), creds)
    case Ok(i) => Step(Ok(()), creds[i := WithoutResetTokenAsWritten(WithPassword(creds[i], newPassword))])
  }

  /** `resetPasswordOptimized` with the reset cleared as intended: after the
      checks the password is replaced and both reset fields are set to null. */
  function ResetOptimizedStep(creds: seq<Credential>, userId: string, token: string,
                              newPassword: string, confirm: string, nowMs: int): (r: Step<()>)
    ensures r.result.Err? ==> r.creds == creds
    ensures newPassword != confirm ==> r.result == Err(Unauthorized(PasswordsDiffer))
    ensures newPassword == confirm && IndexOf(creds, CredOwner, userId).None? ==> r.result == Err(NotFound)
    ensures newPassword == confirm && IndexOf(creds, CredOwner, userId).Some? ==>
              var i := IndexOf(creds, CredOwner, userId).value;
              (!ResetOpen(creds[i], nowMs) ==> r.result == Err(Unauthorized(ResetInvalidOrExpired)))
              && (ResetOpen(creds[i], nowMs) && !Matches(token, creds[i].resetTokenHash.value) ==>
                    r.result == Err(Unauthorized(ResetTokenInvalid)))
              && (r.result.Ok? <==> ResetOpen(creds[i], nowMs) && Matches(token, creds[i].resetTokenHash.value))
              && (r.result.Ok? ==> OnlyRowChanged(creds, r.creds, i) && Redeemed(creds[i], r.creds[i], newPassword))
  {
    match ResetOptimizedCheck(creds, userId, token, newPassword, confirm, nowMs)
    case Err(e) => Step(Err(e), creds)
    case Ok(i) => Step(Ok(()), creds[i := WithoutResetToken(WithPassword(creds[i], newPassword))])
  }

  /** Position of the first credential whose pending reset accepts `token`
      strictly before its expiry, the one `resetPassword`'s loop stops at. */
  function FirstRedeemable(creds: seq<Credential>, token: string, nowMs: int): (r: Option<nat>)
    ensures r.Some? ==> r.value < |creds| && Redeemable(creds[r.value], token, nowMs)
    ensures r.Some? ==> forall j :: 0 <= j < r.value ==> !Redeemable(creds[j], token, nowMs)
    ensures r.None? <==> forall j :: 0 <= j < |creds| ==> !Redeemable(creds[j], token, nowMs)
  {
    if |creds| == 0 then None
    else if Redeemable(creds[0], token, nowMs) then Some(0)
    else
      match FirstRedeemable(creds[1..], token, nowMs)
      case None => None
      case Some(i) => Some(i + 1)
  }

  /** `resetPassword` as written: the first credential whose reset accepts
      the token strictly before its expiry gets the new password, and
      `clearResetToken`, writing `undefined`, leaves its reset stored. */
  function ResetIterativeAsWritten(creds: seq<Credential>, token: string, newPassword: string,
                                   confirm: string, nowMs: int): (r: Step<()>)
    ensures r.result == ResetIterativeStep(creds, token, newPassword, confirm, nowMs).result
    ensures r.result.Err? ==> r.creds == creds
    ensures r.result.Ok? ==>
              var i := FirstRedeemable(creds, token, nowMs).value;
              OnlyRowChanged(creds, r.creds, i) && OnlyPasswordChanged(creds[i], r.creds[i])
              && Matches(newPassword, r.creds[i].passwordHash)
  {
    if newPassword != confirm then Step(Err(Unauthorized(PasswordsDiffer)), creds)
    else match FirstRedeemable(creds, token, nowMs)
      case None => Step(Err(Unauthorized(ResetInvalidOrExpired)), creds)
      case Some(i) => Step(Ok(()), creds[i := WithoutResetTokenAsWritten(WithPassword(creds[i], newPassword))])
  }

  /** `resetPassword` with the reset cleared as intended: the confirmation is
      compared first; then the first credential whose reset accepts the token
      strictly before its expiry is given the new password and has its reset
      set to null; Unauthorized when none does. */
  function ResetIterativeStep(creds: seq<Credential>, token: string, newPassword: string,
                              confirm: string, nowMs: int): (r: Step<()>)
    ensures r.result.Err? ==> r.creds == creds
    ensures newPassword != confirm ==> r.result == Err(Unauthorized(PasswordsDiffer))
    ensures newPassword == confirm ==>
              (r.result.Ok? <==> exists j :: 0 <= j < |creds| && Redeemable(creds[j], token, nowMs))
    ensures newPassword == confirm && r.result.Err? ==> r.result == Err(Unauthorized(ResetInvalidOrExpired))
    ensures r.result.Ok? ==>
              FirstRedeemable(creds, token, nowMs).Some?
              && var i := FirstRedeemable(creds, token, nowMs).value;
                 OnlyRowChanged(creds, r.creds, i) && Redeemed(creds[i], r.creds[i], newPassword)
  {
    if newPassword != confirm then Step(Err(Unauthorized(PasswordsDiffer)), creds)
    else match FirstRedeemable(creds, token, nowMs)
      case None => Step(Err(Unauthorized(ResetInvalidOrExpired)), creds)
      case Some(i) => Step(Ok(()), creds[i := WithoutResetToken(WithPassword(creds[i], newPassword))])
  }

  // ----- Every flow keeps the store consistent -----

  /** Rewriting one credential without touching its account fields, keeping
      its reset fields paired, keeps the store consistent. */
  lemma RowUpdateKeepsConsistent(users: seq<User>, creds: seq<Credential>, i: nat, x: Credential)
    requires Consistent(users, creds)
    requires i < |creds|
    requires SameAccount(creds[i], x) && ResetPaired(x)
    ensures Consistent(users, creds[i := x])
  {
    UpdateKeepsUnique(creds, CredKey, i, x);
    UpdateKeepsUnique(creds, CredName, i, x);
    UpdateKeepsUnique(creds, CredOwner, i, x);
    var s := creds[i := x];
    forall j | 0 <= j < |s| ensures IndexOf(users, UserKey, s[j].userId).Some? && ResetPaired(s[j]) {
      if j != i {
        assert s[j] == creds[j];
      }
    }
  }

  lemma LoginKeepsConsistent(users: seq<User>, creds: seq<Credential>, user: Option<Principal>, iat: int, mac: string -> string)
    requires Consistent(users, creds)
    ensures Consistent(users, LoginStep(creds, user, iat, mac).creds)
  {
    if user.Some? && IndexOf(creds, CredOwner, user.value.id).Some? {
      var i := IndexOf(creds, CredOwner, user.value.id).value;
      RowUpdateKeepsConsistent(users, creds, i, LoginStep(creds, user, iat, mac).creds[i]);
    }
  }

  lemma RefreshKeepsConsistent(users: seq<User>, creds: seq<Credential>, userId: string, presented: string,
                               iat: int, mac: string -> string)
    requires Consistent(users, creds)
    ensures Consistent(users, RefreshStep(users, creds, userId, presented, iat, mac).creds)
  {
    if HoldsRefresh(creds, userId, presented) {
      var i := IndexOf(creds, CredOwner, userId).value;
      LoginKeepsConsistent(users, creds, Some(OwnerPrincipal(users, creds[i])), iat, mac);
    }
  }

  lemma ChangePasswordKeepsConsistent(users: seq<User>, creds: seq<Credential>, userId: string, current: string, next: string)
    requires Consistent(users, creds)
    ensures Consistent(users, ChangePasswordStep(creds, userId, current, next).creds)
  {
    var r := ChangePasswordStep(creds, userId, current, next);
    if r.result.Ok? {
      var i := IndexOf(creds, CredOwner, userId).value;
      RowUpdateKeepsConsistent(users, creds, i, r.creds[i]);
    }
  }

  lemma GenerateResetTokenKeepsConsistent(users: seq<User>, creds: seq<Credential>, userId: string, raw: string, nowMs: int)
    requires Consistent(users, creds)
    ensures Consistent(users, GenerateResetTokenStep(creds, userId, raw, nowMs).creds)
  {
    var r := GenerateResetTokenStep(creds, userId, raw, nowMs);
    if r.result.Ok? {
      var i := IndexOf(creds, CredOwner, userId).value;
      RowUpdateKeepsConsistent(users, creds, i, r.creds[i]);
    }
  }

  lemma ResetOptimizedKeepsConsistent(users: seq<User>, creds: seq<Credential>, userId: string, token: string,
                                      newPassword: string, confirm: string, nowMs: int)
    requires Consistent(users, creds)
    ensures Consistent(users, ResetOptimizedStep(creds, userId, token, newPassword, confirm, nowMs).creds)
  {
    var r := ResetOptimizedStep(creds, userId, token, newPassword, confirm, nowMs);
    if r.result.Ok? {
      var i := IndexOf(creds, CredOwner, userId).value;
      RowUpdateKeepsConsistent(users, creds, i, r.creds[i]);
    }
  }

  lemma ResetIterativeKeepsConsistent(users: seq<User>, creds: seq<Credential>, token: string,
                                      newPassword: string, confirm: string, nowMs: int)
    requires Consistent(users, creds)
    ensures Consistent(users, ResetIterativeStep(creds, token, newPassword, confirm, nowMs).creds)
  {
    var r := ResetIterativeStep(creds, token, newPassword, confirm, nowMs);
    if r.result.Ok? {
      var i := FirstRedeemable(creds, token, nowMs).value;
      RowUpdateKeepsConsistent(users, creds, i, r.creds[i]);
    }
  }

  /** Registration with ids the database has not used yet keeps the store
      consistent: the uniqueness checks run before the inserts. */
  lemma RegisterKeepsConsistent(users: seq<User>, creds: seq<Credential>, dto: RegisterDto,
                                newUserId: string, newCredId: CredId)
    requires Consistent(users, creds)
    requires IndexOf(users, UserKey, newUserId).None?
    requires IndexOf(creds, CredKey, newCredId).None?
    ensures var r := RegisterStep(users, creds, dto, newUserId, newCredId);
            Consistent(r.users, r.creds)
  {
    var r := RegisterStep(users, creds, dto, newUserId, newCredId);
    if r.result.Ok? {
      var u := r.result.value.user;
      var c := r.creds[|creds|];
      assert r.creds == creds + [c];
      AppendKeepsUnique(users, UserKey, u);
      AppendKeepsUnique(users, UserEmail, u);
      AppendKeepsUnique(creds, CredKey, c);
      AppendKeepsUnique(creds, CredName, c);
      forall j | 0 <= j < |creds| ensures creds[j].userId != newUserId {
        assert IndexOf(users, UserKey, creds[j].userId).Some?;
      }
      AppendKeepsUnique(creds, CredOwner, c);
      forall j | 0 <= j < |r.creds| ensures IndexOf(r.users, UserKey, r.creds[j].userId).Some? {
        if j < |creds| {
          IndexOfAppendKeeps(users, UserKey, u, creds[j].userId);
        } else {
          assert (users + [u])[|users|] == u;
        }
      }
    }
  }

  // ----- The service -----

  /** `AuthService` over the two repositories it drives. */
  class AuthService {
    const creds: CredentialsRepository
    const users: UsersRepository

    ghost predicate Valid()
      reads this, creds, users
    {
      creds.Valid() && users.Valid() && Consistent(users.rows, creds.rows)
    }

    constructor (creds: CredentialsRepository, users: UsersRepository)
      requires Consistent(users.rows, creds.rows)
      ensures this.creds == creds && this.users == users && Valid()
    {
      this.creds := creds;
      this.users := users;
    }

    /** Checks the e-mail, then the login name, then inserts the user and its
        credential; the ids are the ones the database generates. */
    method RegisterWithCredentials(dto: RegisterDto, newUserId: string, newCredId: CredId)
      returns (r: Result<Registered>)
      requires Valid()
      requires IndexOf(users.rows, UserKey, newUserId).None?
      requires IndexOf(creds.rows, CredKey, newCredId).None?
      modifies creds, users
      ensures Valid()
      ensures Registration(r, users.rows, creds.rows)
              == RegisterStep(old(users.rows), old(creds.rows), dto, newUserId, newCredId)
    {
      RegisterKeepsConsistent(users.rows, creds.rows, dto, newUserId, newCredId);
      var existingEmail := FindByEmail(users.rows, dto.email);
      if existingEmail.Some? {
        return Err(Conflict(EmailInUse));
      }
      var existingUsername := FindByUsername(creds.rows, dto.username);
      if existingUsername.Some? {
        return Err(Conflict(UsernameTaken));
      }
      var user := users.CreateAndSave(CreateUserDto(dto.name, dto.lastName, dto.email, dto.address,
                                                    dto.birthdate, dto.cuit, dto.phone), newUserId);
      var credential := NewCredential(newCredId, CreateCredentialDto(dto.username, dto.password, Some(false), user.id));
      forall j | 0 <= j < |creds.rows| ensures creds.rows[j].userId != newUserId {
        assert IndexOf(users.rows, UserKey, creds.rows[j].userId).Some?;
      }
      creds.Insert(credential);
      r := Ok(Registered(user, newCredId));
    }

    method ValidateUser(username: string, password: string) returns (p: Option<Principal>)
      requires Valid()
      ensures p == ValidateUserStep(users.rows, creds.rows, username, password)
    {
      var cred := FindByUsername(creds.rows, username);
      if cred.None? {
        return None;
      }
      if !Matches(password, cred.value.passwordHash) {
        return None;
      }
      p := Some(OwnerPrincipal(users.rows, cred.value));
    }

    /** `updateRefreshToken` on the credential of user `userId`, when there is one. */
    method StoreRefreshHash(userId: string, digest: Digest)
      requires Valid()
      modifies creds
      ensures creds.Valid()
      ensures creds.rows == match IndexOf(old(creds.rows), CredOwner, userId)
                            case None => old(creds.rows)
                            case Some(i) => old(creds.rows)[i := WithRefreshHash(old(creds.rows)[i], Some(digest))]
    {
      var cred := FindByUserId(creds.rows, userId);
      if cred.Some? {
        IndexOfUnique(creds.rows, CredKey, IndexOf(creds.rows, CredOwner, userId).value);
        var done := creds.UpdateRefreshToken(cred.value.id, Some(digest));
      }
    }

    method Login(user: Option<Principal>, iat: int, mac: string -> string) returns (r: Result<TokenPair>)
      requires Valid()
      modifies creds
      ensures Valid()
      ensures Step(r, creds.rows) == LoginStep(old(creds.rows), user, iat, mac)
    {
      LoginKeepsConsistent(users.rows, creds.rows, user, iat, mac);
      if user.None? {
        return Err(Unauthorized(InvalidUser));
      }
      var p := user.value;
      var access := Sign(PayloadOf(p), iat, AccessTokenSeconds, mac);
      var refresh := Sign(PayloadOf(p), iat, RefreshTokenSeconds, mac);
      StoreRefreshHash(p.id, Hash(Compact(refresh)));
      r := Ok(TokenPair(access, refresh));
    }

    method RefreshTokens(userId: string, presented: string, iat: int, mac: string -> string) returns (r: Result<TokenPair>)
      requires Valid()
      modifies creds
      ensures Valid()
      ensures Step(r, creds.rows) == RefreshStep(old(users.rows), old(creds.rows), userId, presented, iat, mac)
    {
      var cred := creds.FindByUserIdOrThrow(userId);
      if cred.Err? {
        return Err(cred.error);
      }
      if cred.value.refreshTokenHash.None? || !Matches(presented, cred.value.refreshTokenHash.value) {
        return Err(Unauthorized(InvalidRefresh));
      }
      r := Login(Some(OwnerPrincipal(users.rows, cred.value)), iat, mac);
    }

    method ChangePassword(userId: string, current: string, next: string) returns (r: Result<()>)
      requires Valid()
      modifies creds
      ensures Valid()
      ensures Step(r, creds.rows) == ChangePasswordStep(old(creds.rows), userId, current, next)
    {
      ChangePasswordKeepsConsistent(users.rows, creds.rows, userId, current, next);
      var cred := creds.FindByUserIdOrThrow(userId);
      if cred.Err? {
        return Err(cred.error);
      }
      if !Matches(current, cred.value.passwordHash) {
        return Err(Unauthorized(WrongCurrentPassword));
      }
      IndexOfUnique(creds.rows, CredKey, IndexOf(creds.rows, CredOwner, userId).value);
      r := creds.ChangePassword(cred.value.id, next);
    }

    method GenerateResetToken(userId: string, raw: string, nowMs: int) returns (r: Result<ResetGrant>)
      requires Valid()
      modifies creds
      ensures Valid()
      ensures Step(r, creds.rows) == GenerateResetTokenStep(old(creds.rows), userId, raw, nowMs)
    {
      GenerateResetTokenKeepsConsistent(users.rows, creds.rows, userId, raw, nowMs);
      var cred := creds.FindByUserIdOrThrow(userId);
      if cred.Err? {
        return Err(cred.error);
      }
      IndexOfUnique(creds.rows, CredKey, IndexOf(creds.rows, CredOwner, userId).value);
      var done := creds.SetResetToken(cred.value.id, Hash(raw), nowMs + ResetWindowMs);
      r := Ok(ResetGrant(raw, ResetWindowMinutes));
    }

    /** Redeems a reset on credential `id`, found at row `i`: the new password
        first, then the reset fields cleared (to null, as intended). */
    method Redeem(id: CredId, newPassword: string, ghost i: nat)
      requires Valid()
      requires i < |creds.rows| && creds.rows[i].id == id
      modifies creds
      ensures creds.Valid() && users.rows == old(users.rows)
      ensures creds.rows == old(creds.rows)[i := WithoutResetToken(WithPassword(old(creds.rows)[i], newPassword))]
    {
      IndexOfUnique(creds.rows, CredKey, i);
      var changed := creds.ChangePassword(id, newPassword);
      IndexOfUnique(creds.rows, CredKey, i);
      var cleared := creds.ClearResetToken(id);
    }

    method ResetPassword(token: string, newPassword: string, confirm: string, nowMs: int) returns (r: Result<()>)
      requires Valid()
      modifies creds
      ensures Valid()
      ensures Step(r, creds.rows) == ResetIterativeStep(old(creds.rows), token, newPassword, confirm, nowMs)
    {
      ResetIterativeKeepsConsistent(users.rows, creds.rows, token, newPassword, confirm, nowMs);
      if newPassword != confirm {
        return Err(Unauthorized(PasswordsDiffer));
      }
      var all := creds.FindAll();
      var k := 0;
      while k < |all|
        invariant 0 <= k <= |all|
        invariant all == creds.rows == old(creds.rows)
        invariant forall j :: 0 <= j < k ==> !Redeemable(all[j], token, nowMs)
      {
        var cred := all[k];
        if cred.resetTokenHash.Some? && cred.resetTokenExpires.Some? && cred.resetTokenExpires.value > nowMs {
          if Matches(token, cred.resetTokenHash.value) {
            assert FirstRedeemable(all, token, nowMs) == Some(k);
            Redeem(cred.id, newPassword, k);
            return Ok(());
          }
        }
        k := k + 1;
      }
      r := Err(Unauthorized(ResetInvalidOrExpired));
    }

    method ResetPasswordOptimized(userId: string, token: string, newPassword: string, confirm: string, nowMs: int)
      returns (r: Result<()>)
      requires Valid()
      modifies creds
      ensures Valid()
      ensures Step(r, creds.rows) == ResetOptimizedStep(old(creds.rows), userId, token, newPassword, confirm, nowMs)
    {
      ResetOptimizedKeepsConsistent(users.rows, creds.rows, userId, token, newPassword, confirm, nowMs);
      if newPassword != confirm {
        return Err(Unauthorized(PasswordsDiffer));
      }
      var cred := creds.FindByUserIdOrThrow(userId);
      if cred.Err? {
        return Err(cred.error);
      }
      var c := cred.value;
      if c.resetTokenHash.None? || c.resetTokenExpires.None? || c.resetTokenExpires.value < nowMs {
        return Err(Unauthorized(ResetInvalidOrExpired));
      }
      if !Matches(token, c.resetTokenHash.value) {
        return Err(Unauthorized(ResetTokenInvalid));
      }
      Redeem(c.id, newPassword, IndexOf(creds.rows, CredOwner, userId).value);
      r := Ok(());
    }
  }
}
